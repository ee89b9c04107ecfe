/** Circular singly linked lists: rotation, with the count reduced once the size is known, and reversal. */
module CircularSlist {
  import opened Sequences
  import opened SlistNodes

  // ------------------------------------------------------------------ links

  /** A circular list has no beginning. */
  lemma RingTurned(c: seq<Node>, k: nat)
    requires Ring(c) && k <= |c|
    ensures Ring(Turned(c, k))
  {
    var d := Turned(c, k);
    forall i | 0 <= i < |d| ensures d[i] == c[if i + k < |c| then i + k else i + k - |c|] {
    }
    forall i | 0 <= i < |d| - 1 ensures d[i].next == d[i + 1] {
      RingNext(c, if i + k < |c| then i + k else i + k - |c|);
    }
    if c != [] {
      RingNext(c, if k == 0 then |c| - 1 else k - 1);
    }
  }

  /** Puts `p` back behind the node at `k`. */
  method LinkBack(p: Node, newLast: Node, ghost s: seq<Node>, ghost k: nat)
    requires Ring(s) && p !in s && 0 < k <= |s| && newLast == s[k - 1]
    modifies ([p] + s)`next
    ensures Ring([p] + Turned(s, k))
  {
    assert newLast in [p] + s && p in [p] + s;
    LinkAfter(newLast, p, s, k - 1);
    RingTurned(s[..k] + [p] + s[k..], k);
    assert Turned(s[..k] + [p] + s[k..], k) == [p] + Turned(s, k);
  }

  /** Moves `p` by `n` positions towards the end of the list; gives the node before it, or null when nothing moves. */
  method MoveBackwards(p: Node, n: nat, ghost s: seq<Node>) returns (newLast: Node?)
    requires Ring([p] + s)
    modifies ([p] + s)`next
    ensures Ring([p] + RotatedBack(s, n))
    ensures newLast == if Shift(s, n) == 0 then null else s[Shift(s, n) - 1]
  {
    hide Shift;
    ghost var c := [p] + s;
    RingNext(c, 0);
    if n == 0 {
      NoTurn(s, n);
      return null;
    }
    var first := p.next;
    if s != [] {
      RingNext(c, 1);
    }
    if first.next == p {
      NoTurn(s, n);
      return null;
    }
    newLast := MoveOn(p, n, first, s);
  }

  /** The list while the new last node is looked for: once its size is known `p` is not in it. */
  ghost predicate Searched(p: Node, s: seq<Node>, count: nat, n: nat, endFound: bool)
    requires s != []
    reads p, s
  {
    if endFound then Ring(s) && p !in s && p.next == s[0] && n == Shift(s, count) else Ring([p] + s) && n == count
  }

  lemma SearchedNext(p: Node, s: seq<Node>, count: nat, n: nat, endFound: bool, i: nat)
    requires s != [] && Searched(p, s, count, n, endFound) && 0 < i <= |s| && i <= n
    ensures s[i - 1].next == if i < |s| then s[i] else p
    ensures i < |s| ==> s[i] != p
  {
    if endFound {
      RingNext(s, i - 1);
    } else {
      RingNext([p] + s, i);
      assert ([p] + s)[0] == p;
    }
  }

  /** The search for the new last node; at the end of the list the count is reduced and `p` is taken out. */
  method MoveOn(p: Node, count: nat, start: Node, ghost s: seq<Node>) returns (newLast: Node?)
    requires Ring([p] + s) && |s| > 1 && start == s[0] && count > 0
    modifies ([p] + s)`next
    ensures Ring([p] + RotatedBack(s, count))
    ensures newLast == if Shift(s, count) == 0 then null else s[Shift(s, count) - 1]
  {
    hide Shift, Turned, Distinct;
    ShiftSmall(s, count);
    var n, first, endFound, i := count, start, false, 1;
    newLast := null;
    while i <= n
      invariant 1 <= i <= |s| && i <= n + 1 && first == s[i - 1] && (i > 1 ==> newLast == s[i - 2]) && n > 0
      invariant Searched(p, s, count, n, endFound)
      decreases !endFound, n - i
    {
      SearchedNext(p, s, count, n, endFound, i);
      newLast := first;
      first := first.next;
      if first == p {
        n := Reduce(n, i, s);
        if n == 0 {
          TurnedAround(s);
          return null;
        }
        i := 0;
        Unchain(p, newLast, s);
        first := p.next;
        endFound := true;
      }
      i := i + 1;
    }
    if !endFound {
      var last := GetPreviousNode(first, p, [p] + s, n + 1, |s| + 1);
      Unchain(p, last, s);
    }
    LinkBack(p, newLast, s, n);
  }

  /** Takes `p` out of the list. */
  method Unchain(p: Node, last: Node, ghost s: seq<Node>)
    requires Ring([p] + s) && s != [] && last == s[|s| - 1]
    modifies last`next
    ensures Ring(s) && p.next == s[0] && p !in s
  {
    RingNext([p] + s, 0);
    RingTurned([p] + s, 1);
    assert Turned([p] + s, 1) == s + [p];
    UnlinkAfter(last, s + [p], |s| - 1);
    assert (s + [p])[..|s|] + (s + [p])[|s| + 1..] == s;
    assert ([p] + s)[0] == p;
  }

  /**
   Moves `p` by `n` positions towards the beginning of the list; gives the node before it, or null when nothing moves.
   */
  method MoveForward(p: Node, n: nat, ghost s: seq<Node>) returns (newLast: Node?)
    requires Ring([p] + s)
    modifies ([p] + s)`next
    ensures Ring([p] + RotatedForth(s, n))
    ensures newLast == if Shift(s, n) == 0 then null else s[|s| - Shift(s, n) - 1]
  {
    hide Shift;
    ghost var c := [p] + s;
    RingNext(c, 0);
    if n == 0 {
      NoTurn(s, n);
      return null;
    }
    var first := p.next;
    if s != [] {
      RingNext(c, 1);
    }
    if first.next == p {
      NoTurn(s, n);
      return null;
    }
    newLast := MoveAhead(p, n, first, s);
  }

  method MoveAhead(p: Node, n: nat, first: Node, ghost s: seq<Node>) returns (newLast: Node?)
    requires Ring([p] + s) && s != [] && n > 0 && first == s[0]
    modifies ([p] + s)`next
    ensures Ring([p] + RotatedForth(s, n))
    ensures newLast == if Shift(s, n) == 0 then null else s[|s| - Shift(s, n) - 1]
  {
    hide Shift;
    ShiftSmall(s, n);
    var oldLast, distance;
    oldLast, newLast, distance := FindLast(p, n, first, s);
    if distance <= n {
      var pos := ReduceBack(n, distance, s);
      if pos == 0 {
        TurnedAround(s);
        return null;
      }
      newLast := Advance(p, pos, s);
    }
    ghost var k := |s| - Shift(s, n);
    assert newLast == s[k - 1];
    Unchain(p, oldLast, s);
    LinkBack(p, newLast, s, k);
  }

  /** Goes through the list for its last node, with another pointer `n` nodes behind. */
  method FindLast(p: Node, n: nat, first: Node, ghost s: seq<Node>)
    returns (oldLast: Node, newLast: Node, distance: nat)
    requires Ring([p] + s) && s != [] && n > 0 && first == s[0]
    ensures oldLast == s[|s| - 1] && distance == |s| && newLast == ([p] + s)[if distance > n then distance - n else 0]
  {
    ghost var c := [p] + s;
    RingNext(c, 1);
    oldLast, newLast, distance := first, p, 1;
    while oldLast.next != p
      invariant 1 <= distance <= |s| && oldLast == c[distance] && newLast == c[if distance > n then distance - n else 0]
      invariant oldLast.next == if distance < |s| then c[distance + 1] else p
      decreases |s| - distance
    {
      var next := oldLast.next;
      distance := distance + 1;
      if distance > n {
        RingNext(c, distance - n - 1);
        newLast := newLast.next;
      }
      oldLast := next;
      RingNext(c, distance);
    }
  }

  /** The node `k` steps after `p`. */
  method Advance(p: Node, k: nat, ghost s: seq<Node>) returns (q: Node)
    requires Ring([p] + s) && 0 < k <= |s|
    ensures q == s[k - 1]
  {
    ghost var c := [p] + s;
    q := p;
    var left := k;
    while left != 0
      invariant 0 <= left <= k && q == c[k - left]
    {
      RingNext(c, k - left);
      q := q.next;
      left := left - 1;
    }
  }

  // --------------------------------------------------------------- reversal

  /** Moves the nodes after `bb`, up to `be`, to the place behind `bp`. */
  method TransferAfter(bp: Node, bb: Node, be: Node, ghost pn: Node, ghost bn: Node, ghost en: Node)
    requires bp.next == pn && bb.next == bn && be.next == en
    modifies bp`next, bb`next, be`next
    ensures bp != bb && bp != be && bb != be ==> bb.next == en && be.next == pn && bp.next == bn
    ensures bp == bb || bp == be || bb == be ==> unchanged(bp, bb, be)
  {
    if bp != bb && bp != be && bb != be {
      var nextB, nextE, nextP := bb.next, be.next, bp.next;
      bb.next := nextE;
      be.next := nextP;
      bp.next := nextB;
    }
  }

  /** Moves the nodes `r` to the place behind `bp` in the same list. */
  method TransferWithin(bp: Node, bb: Node, be: Node, ghost x: seq<Node>, ghost r: seq<Node>, ghost y: seq<Node>)
    requires Ring([bp] + x + r + y) && bb == ([bp] + x)[|x|] && be == ([bp] + x + r)[|x| + |r|]
    modifies bp`next, bb`next, be`next
    ensures Ring([bp] + r + x + y)
  {
    ghost var c, d := [bp] + x + r + y, [bp] + r + x + y;
    assert bb == c[|x|] && be == c[|x| + |r|] && bp == c[0];
    RingNext(c, 0);
    RingNext(c, |x|);
    RingNext(c, |x| + |r|);
    TransferAfter(bp, bb, be, NextIn(c, 0), NextIn(c, |x|), NextIn(c, |x| + |r|));
    if r != [] && x != [] {
      TransferredDistinct(bp, x, r, y);
      forall i | 0 <= i < |d| - 1 ensures d[i].next == d[i + 1] {
        var i' := if 1 <= i <= |r| then i + |x| else if |r| < i <= |r| + |x| then i - |r| else i;
        assert d[i] == c[i'];
        if i' != 0 && i' != |x| && i' != |x| + |r| {
          assert c[i'].next == c[i' + 1];
        }
      }
    } else {
      assert d == c;
    }
  }

  /** The node after the one at `i`. */
  ghost function NextIn(c: seq<Node>, i: nat): Node
    requires i < |c|
  {
    if i + 1 < |c| then c[i + 1] else c[0]
  }

  /** Moves the nodes `r` from another list to the place behind `bp`. */
  method TransferBetween(bp: Node, bb: Node, be: Node, ghost x: seq<Node>,
                         ghost u: seq<Node>, ghost r: seq<Node>, ghost v: seq<Node>)
    requires Ring([bp] + x) && Ring(u + r + v) && u != [] && Distinct([bp] + x + (u + r + v))
    requires bb == u[|u| - 1] && be == (u + r)[|u| + |r| - 1]
    modifies bp`next, bb`next, be`next
    ensures Ring([bp] + r + x) && Ring(u + v)
  {
    ghost var c, d := [bp] + x, u + r + v;
    BetweenParts(bp, x, u, r, v);
    TransferAfter(bp, bb, be, Start(x, bp), Start(r, Start(v, u[0])), Start(v, u[0]));
    if r != [] {
      BetweenDone(bp, x, u, r, v);
    } else {
      assert [bp] + r + x == c && u + v == d;
    }
  }

  /** The three nodes written to are not among these. */
  ghost predicate Spared(s: seq<Node>, bp: Node, bb: Node, be: Node)
  {
    bp !in s && bb !in s && be !in s
  }

  lemma BetweenParts(bp: Node, x: seq<Node>, u: seq<Node>, r: seq<Node>, v: seq<Node>)
    requires Ring([bp] + x) && Ring(u + r + v) && u != [] && Distinct([bp] + x + (u + r + v))
    ensures bp.next == Start(x, bp) && Leads(x, bp)
    ensures Leads(u[..|u| - 1], u[|u| - 1]) && u[|u| - 1].next == Start(r, Start(v, u[0])) && Leads(v, u[0])
    ensures r != [] ==> Leads(r[..|r| - 1], r[|r| - 1]) && r[|r| - 1].next == Start(v, u[0])
    ensures r != [] ==> var bb, be := u[|u| - 1], r[|r| - 1];
      Spared(x, bp, bb, be) && Spared(u[..|u| - 1], bp, bb, be) && Spared(r[..|r| - 1], bp, bb, be)
          && Spared(v, bp, bb, be)
    ensures bp != u[|u| - 1] && (r != [] ==> bp != r[|r| - 1] && u[|u| - 1] != r[|r| - 1])
  {
    RingIs([bp] + x);
    RingIs(u + r + v);
    LeadsJoin([bp], x, bp);
    LeadsJoin(u + r, v, u[0]);
    LeadsJoin(u, r, Start(v, u[0]));
    LeadsOn(u);
    if r != [] {
      LeadsOn(r);
    }
    AllApart(bp, x, u, r, v);
  }

  lemma AllApart(bp: Node, x: seq<Node>, u: seq<Node>, r: seq<Node>, v: seq<Node>)
    requires Distinct([bp] + x + (u + r + v)) && u != []
    ensures r != [] ==> var bb, be := u[|u| - 1], r[|r| - 1];
      Spared(x, bp, bb, be) && Spared(u[..|u| - 1], bp, bb, be) && Spared(r[..|r| - 1], bp, bb, be)
          && Spared(v, bp, bb, be)
    ensures bp != u[|u| - 1] && (r != [] ==> bp != r[|r| - 1] && u[|u| - 1] != r[|r| - 1])
  {
    var all, n, m, k := [bp] + x + (u + r + v), 1 + |x|, 1 + |x| + |u|, 1 + |x| + |u| + |r|;
    assert all[0] == bp && all[m - 1] == u[|u| - 1] && (r != [] ==> all[k - 1] == r[|r| - 1]);
    assert forall i :: 0 <= i < |x| ==> x[i] == all[1 + i];
    assert forall i :: 0 <= i < |u| ==> u[i] == all[n + i];
    assert forall i :: 0 <= i < |r| ==> r[i] == all[m + i];
    assert forall i :: 0 <= i < |v| ==> v[i] == all[k + i];
  }

  lemma BetweenDone(bp: Node, x: seq<Node>, u: seq<Node>, r: seq<Node>, v: seq<Node>)
    requires Distinct([bp] + x + (u + r + v)) && u != [] && r != []
    requires bp.next == r[0] && Leads(x, bp) && Leads(u[..|u| - 1], u[|u| - 1]) && u[|u| - 1].next == Start(v, u[0])
        && Leads(v, u[0])
    requires Leads(r[..|r| - 1], r[|r| - 1]) && r[|r| - 1].next == Start(x, bp)
    ensures Ring([bp] + r + x) && Ring(u + v)
  {
    BetweenDistinct(bp, x, u, r, v);
    LeadsOn(u);
    LeadsOn(r);
    LeadsJoin(u, v, u[0]);
    LeadsJoin([bp] + r, x, bp);
    LeadsJoin([bp], r, Start(x, bp));
    RingIs(u + v);
    RingIs([bp] + r + x);
  }

  lemma BetweenDistinct(bp: Node, x: seq<Node>, u: seq<Node>, r: seq<Node>, v: seq<Node>)
    requires Distinct([bp] + x + (u + r + v))
    ensures Distinct([bp] + r + x) && Distinct(u + v)
  {
    var all, n, m := [bp] + x + (u + r + v), 1 + |x|, 1 + |x| + |u|;
    forall i, j | 0 <= i < j < |[bp] + r + x| ensures ([bp] + r + x)[i] != ([bp] + r + x)[j] {
      var i' := if i == 0 then 0 else if i <= |r| then m + i - 1 else i - |r|;
      var j' := if j <= |r| then m + j - 1 else j - |r|;
      assert ([bp] + r + x)[i] == all[i'] && ([bp] + r + x)[j] == all[j'];
    }
    forall i, j | 0 <= i < j < |u + v| ensures (u + v)[i] != (u + v)[j] {
      var i' := if i < |u| then n + i else n + |r| + i;
      var j' := if j < |u| then n + j else n + |r| + j;
      assert (u + v)[i] == all[i'] && (u + v)[j] == all[j'];
    }
  }

  lemma TransferredDistinct(bp: Node, x: seq<Node>, r: seq<Node>, y: seq<Node>)
    requires Distinct([bp] + x + r + y)
    ensures Distinct([bp] + r + x + y)
  {
    var c, d := [bp] + x + r + y, [bp] + r + x + y;
    forall i, j | 0 <= i < j < |d| ensures d[i] != d[j] {
      var i' := if 1 <= i <= |r| then i + |x| else if |r| < i <= |r| + |x| then i - |r| else i;
      var j' := if 1 <= j <= |r| then j + |x| else if |r| < j <= |r| + |x| then j - |r| else j;
      assert d[i] == c[i'] && d[j] == c[j'];
    }
  }

  /** The circular list when the first `k` nodes have been turned around. */
  ghost function PartlyReversed(p: Node, s: seq<Node>, k: nat): seq<Node>
    requires k <= |s|
  {
    [p] + Reversed(s[..k]) + s[k..]
  }

  lemma PartlyReversedAll(p: Node, s: seq<Node>)
    ensures PartlyReversed(p, s, |s|) == [p] + Reversed(s)
  {
    assert s[..|s|] == s;
  }

  lemma PartlyReversedOne(p: Node, s: seq<Node>)
    requires s != []
    ensures PartlyReversed(p, s, 1) == [p] + s
  {
    ReversedAt(s[..1], 0);
  }

  /** The first node is now the last of those turned around. */
  lemma PartlyReversedNext(p: Node, s: seq<Node>, k: nat)
    requires 0 < k <= |s| && Ring(PartlyReversed(p, s, k))
    ensures s[0].next == if k < |s| then s[k] else p
    ensures k < |s| ==> s[k] != p
  {
    var c := PartlyReversed(p, s, k);
    ReversedAt(s[..k], k - 1);
    RingNext(c, k);
    assert s[0] == c[k] && c[0] == p;
  }

  /** Reverses the order of the nodes after `p`. */
  method Reverse(p: Node, ghost s: seq<Node>)
    requires Ring([p] + s)
    modifies ([p] + s)`next
    ensures Ring([p] + Reversed(s))
  {
    RingNext([p] + s, 0);
    PartlyReversedAll(p, s);
    var i := p.next;
    var next := i.next;
    ghost var k := if s == [] then 0 else 1;
    if s == [] {
      assert PartlyReversed(p, s, 0) == [p];
    } else {
      PartlyReversedOne(p, s);
      PartlyReversedNext(p, s, k);
    }
    while next != p
      invariant k <= |s| && Ring(PartlyReversed(p, s, k)) && (k == 0 ==> s == []) && i == if s == [] then p else s[0]
      invariant next == if k < |s| then s[k] else p
      decreases |s| - k
    {
      ReverseOne(p, i, next, s, k);
      k := k + 1;
      PartlyReversedNext(p, s, k);
      next := i.next;
    }
    if s != [] {
      PartlyReversedNext(p, s, k);
    }
  }

  method ReverseOne(p: Node, i: Node, next: Node, ghost s: seq<Node>, ghost k: nat)
    requires 0 < k < |s| && i == s[0] && next == s[k] && Ring(PartlyReversed(p, s, k))
    modifies ([p] + s)`next
    ensures Ring(PartlyReversed(p, s, k + 1))
  {
    ghost var x, r, y := Reversed(s[..k]), [s[k]], s[k + 1..];
    ReversedAt(s[..k], k - 1);
    assert s[..k + 1] == s[..k] + [s[k]];
    ReversedSnoc(s[..k], s[k]);
    assert p in [p] + s && i in [p] + s && next in [p] + s;
    assert s[k..] == r + y;
    Regroup([p] + x, r, y);
    Regroup([p], r, x);
    TransferWithin(p, i, next, x, r, y);
  }
}

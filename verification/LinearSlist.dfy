/** Singly linked lists that end in null: rotation and reversal. */
module LinearSlist {
  import opened Sequences
  import opened SlistNodes

  /** The first node of the list, or null. */
  ghost function Head(s: seq<Node>): Node?
  {
    if s == [] then null else s[0]
  }

  lemma LineNext(s: seq<Node>, k: nat)
    requires Line(s) && k < |s|
    ensures s[k].next == if k < |s| - 1 then s[k + 1] else null
  {
  }

  /** The two parts of the list change places. */
  method Exchange(p: Node, newFirst: Node, newLast: Node, oldLast: Node, ghost s: seq<Node>, ghost k: nat)
    requires Line(s) && 0 < k < |s| && p == s[0] && newFirst == s[k] && newLast == s[k - 1] && oldLast == s[|s| - 1]
    modifies oldLast`next, newLast`next
    ensures Line(Turned(s, k))
  {
    oldLast.next := p;
    newLast.next := null;
    ghost var d := Turned(s, k);
    forall i | 0 <= i < |d| ensures d[i] == s[if i + k < |s| then i + k else i + k - |s|] {
    }
  }

  /** The node in front of the null at the end. */
  method GetLastNode(from: Node, ghost s: seq<Node>, ghost i: nat) returns (last: Node)
    requires Line(s) && i < |s| && from == s[i]
    ensures last == s[|s| - 1]
  {
    ghost var k := i;
    last := from;
    LineNext(s, k);
    while last.next != null
      invariant i <= k < |s| && last == s[k] && last.next == if k < |s| - 1 then s[k + 1] else null
      decreases |s| - k
    {
      last := last.next;
      k := k + 1;
      LineNext(s, k);
    }
  }

  /** Moves the first `n` nodes to the end; gives the new first and last node, or nulls when nothing moves. */
  method MoveFirstNBackwards(p: Node?, n: nat, ghost s: seq<Node>) returns (newFirst: Node?, newLast: Node?)
    requires Line(s) && p == Head(s)
    modifies s`next
    ensures Line(RotatedBack(s, n))
    ensures newFirst == if Shift(s, n) == 0 then null else s[Shift(s, n)]
    ensures newLast == if Shift(s, n) == 0 then null else s[Shift(s, n) - 1]
  {
    hide Shift;
    if s != [] {
      LineNext(s, 0);
    }
    if n == 0 || p == null || p.next == null {
      NoTurn(s, n);
      return null, null;
    }
    var oldLast, r;
    newFirst, newLast, oldLast, r := FindNewLast(p, n, s);
    if r == 0 {
      TurnedAround(s);
      return null, null;
    }
    if oldLast == null {
      oldLast := GetLastNode(newFirst, s, r);
    }
    Exchange(p, newFirst, newLast, oldLast, s, r);
  }

  /** The search for the new last node; at the end of the list the count is reduced. */
  method FindNewLast(p: Node, count: nat, ghost s: seq<Node>)
    returns (first: Node?, last: Node?, oldLast: Node?, n: nat)
    requires Line(s) && s != [] && p == s[0] && count > 0
    ensures n == Shift(s, count) && (n > 0 ==>
        first == s[n] && last == s[n - 1] && (oldLast == null || oldLast == s[|s| - 1]))
  {
    hide Shift;
    ShiftSmall(s, count);
    n, first, last, oldLast := count, p, null, null;
    var i := 1;
    while i <= n
      invariant 1 <= i <= |s| && i <= n + 1 && first == s[i - 1] && (i > 1 ==> last == s[i - 2]) && n > 0
      invariant if oldLast == null then n == count else n == Shift(s, count) && oldLast == s[|s| - 1]
      decreases oldLast == null, n - i
    {
      LineNext(s, i - 1);
      last := first;
      first := first.next;
      if first == null {
        n := Reduce(n, i, s);
        if n == 0 {
          return;
        }
        oldLast := last;
        i := 0;
        first := p;
      }
      i := i + 1;
    }
  }

  /** Goes through the list for its last node, with another pointer `n` nodes behind. */
  method FindLast(p: Node, n: nat, ghost s: seq<Node>) returns (oldLast: Node, newLast: Node, distance: nat)
    requires Line(s) && s != [] && p == s[0]
    ensures oldLast == s[|s| - 1] && distance == |s| && newLast == s[if distance > n + 1 then distance - n - 1 else 0]
  {
    oldLast, newLast, distance := p, p, 1;
    LineNext(s, 0);
    while oldLast.next != null
      invariant 1 <= distance <= |s| && oldLast == s[distance - 1]
          && newLast == s[if distance > n + 1 then distance - n - 1 else 0]
      invariant oldLast.next == if distance < |s| then s[distance] else null
      decreases |s| - distance
    {
      var next := oldLast.next;
      if distance > n {
        LineNext(s, distance - n - 1);
        newLast := newLast.next;
      }
      distance := distance + 1;
      oldLast := next;
      LineNext(s, distance - 1);
    }
  }

  /** The node `k` steps after `p`. */
  method Advance(p: Node, k: nat, ghost s: seq<Node>) returns (q: Node)
    requires Line(s) && k < |s| && p == s[0]
    ensures q == s[k]
  {
    q := p;
    var left := k;
    while left != 0
      invariant 0 <= left <= k && q == s[k - left]
    {
      LineNext(s, k - left);
      q := q.next;
      left := left - 1;
    }
  }

  /** Moves the last `n` nodes to the beginning; gives the new first and last node, or nulls when nothing moves. */
  method MoveFirstNForward(p: Node?, n: nat, ghost s: seq<Node>) returns (newFirst: Node?, newLast: Node?)
    requires Line(s) && p == Head(s)
    modifies s`next
    ensures Line(RotatedForth(s, n))
    ensures newFirst == if Shift(s, n) == 0 then null else s[|s| - Shift(s, n)]
    ensures newLast == if Shift(s, n) == 0 then null else s[|s| - Shift(s, n) - 1]
  {
    hide Shift;
    if s != [] {
      LineNext(s, 0);
    }
    if n == 0 || p == null || p.next == null {
      NoTurn(s, n);
      return null, null;
    }
    ShiftSmall(s, n);
    var oldLast, last, distance;
    oldLast, last, distance := FindLast(p, n, s);
    if distance <= n {
      var pos := ReduceBack(n, distance, s);
      if pos == 0 {
        TurnedAround(s);
        return null, null;
      }
      last := Advance(p, pos - 1, s);
    }
    ghost var k := |s| - Shift(s, n);
    LineNext(s, k - 1);
    newFirst, newLast := last.next, last;
    Exchange(p, newFirst, last, oldLast, s, k);
  }

  // --------------------------------------------------------------- reversal

  /** Reverses the order of the nodes; gives the new first node. */
  method Reverse(p: Node?, ghost s: seq<Node>) returns (first: Node?)
    requires Line(s) && p == Head(s)
    modifies s`next
    ensures Line(Reversed(s)) && first == Head(Reversed(s))
  {
    if p == null {
      return null;
    }
    LineNext(s, 0);
    var i := p.next;
    first := p;
    ghost var k := 1;
    assert s[..1] == [s[0]] && [s[0]] + s[1..] == s;
    while i != null
      invariant 0 < k <= |s| && i == Head(s[k..]) && first == s[k - 1] && p == s[0] && Line(Reversed(s[..k]) + s[k..])
      decreases |s| - k
    {
      assert i == s[k] && i in s && p in s;
      ReverseOne(p, i, first, s, k);
      first := i;
      k := k + 1;
      i := p.next;
    }
    assert s[..k] == s && Reversed(s) + s[k..] == Reversed(s);
    ReversedAt(s, 0);
  }

  /** Moves the node after `p` to the front. */
  method ReverseOne(p: Node, i: Node, first: Node, ghost s: seq<Node>, ghost k: nat)
    requires 0 < k < |s| && p == s[0] && i == s[k] && first == s[k - 1] && Line(Reversed(s[..k]) + s[k..])
    modifies p`next, i`next
    ensures Line(Reversed(s[..k + 1]) + s[k + 1..]) && p.next == Head(s[k + 1..])
  {
    ghost var x, y := Reversed(s[..k]), s[k + 1..];
    ghost var c, d := x + s[k..], [i] + x + y;
    ReversedAt(s[..k], k - 1);
    ReversedAt(s[..k], 0);
    assert s[..k + 1] == s[..k] + [s[k]];
    ReversedSnoc(s[..k], s[k]);
    assert c[k - 1] == p && c[k] == i && c[0] == first;
    LineNext(c, k - 1);
    LineNext(c, k);
    p.next := i.next;
    i.next := first;
    forall j | 0 <= j < |d| ensures d[j] == c[if j == 0 then k else if j <= k then j - 1 else j] {
    }
    forall j | 0 <= j < |d| - 1 ensures d[j].next == d[j + 1] {
      if 0 < j && j != k {
        assert c[if j <= k then j - 1 else j].next == c[if j <= k then j else j + 1];
      }
    }
  }
}

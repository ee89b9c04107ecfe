/** Stable partition of a range of a doubly linked list, whose intermediate states are not lists. */
module ListPartition {
  import opened CircularList
  import opened Sequences

  /** The nodes that satisfy `pred`, in order. */
  ghost function Kept<T>(r: seq<T>, pred: T -> bool): seq<T>
  {
    if r == [] then [] else (if pred(r[0]) then [r[0]] else []) + Kept(r[1..], pred)
  }

  ghost function Not<T>(pred: T -> bool): T -> bool
  {
    x => !pred(x)
  }

  lemma {:induction false} KeptSnoc<T>(r: seq<T>, x: T, pred: T -> bool)
    ensures Kept(r + [x], pred) == Kept(r, pred) + if pred(x) then [x] else []
  {
    if r == [] {
      assert [] + [x] == [x];
    } else {
      assert (r + [x])[1..] == r[1..] + [x] && (r + [x])[0] == r[0];
      KeptSnoc(r[1..], x, pred);
      Regroup(if pred(r[0]) then [r[0]] else [], Kept(r[1..], pred), if pred(x) then [x] else []);
    }
  }

  /** Both parts together are the nodes there were. */
  lemma {:induction false} KeptAll<T>(r: seq<T>, pred: T -> bool)
    ensures multiset(Kept(r, pred)) + multiset(Kept(r, Not(pred))) == multiset(r)
    ensures (forall x <- Kept(r, pred) :: pred(x)) && forall x <- Kept(r, Not(pred)) :: !pred(x)
  {
    if r != [] {
      KeptAll(r[1..], pred);
      assert r == [r[0]] + r[1..];
    }
  }

  /** The range when the first `k` nodes have been looked at. */
  ghost function Partitioned<T>(r: seq<T>, k: nat, pred: T -> bool): seq<T>
    requires k <= |r|
  {
    Kept(r[..k], pred) + Kept(r[..k], Not(pred)) + r[k..]
  }

  lemma PartitionedNodes<T>(r: seq<T>, k: nat, pred: T -> bool)
    requires k <= |r|
    ensures multiset(Partitioned(r, k, pred)) == multiset(r)
  {
    KeptAll(r[..k], pred);
    assert r == r[..k] + r[k..];
  }

  // ---------------------------------------------------------------------- links

  /**
   A list in two chains; the last node of the second leads to the first one, but that of the first to nowhere in
   particular.
   */
  ghost predicate Broken(a: seq<Node>, b: seq<Node>)
    reads a, b
  {
    && a != [] && b != [] && Chained(a) && Chained(b) && Linked(b[|b| - 1], a[0])
    && Distinct(a) && Distinct(b) && Disjoint(a, b)
  }

  lemma Break(a: seq<Node>, b: seq<Node>)
    requires Ring(a + b) && a != [] && b != []
    ensures Broken(a, b)
  {
    RingParts(a, b);
    assert Linked(Closing(a, b)[0], Closing(a, b)[1]);
  }

  /** Links the two chains again. */
  method Mend(x: Node, y: Node, ghost a: seq<Node>, ghost b: seq<Node>)
    requires Broken(a, b) && x == a[|a| - 1] && y == b[0]
    modifies x`next, y`prev
    ensures Ring(a + b)
  {
    x.next := y;
    y.prev := x;
    assert Chained(a) && Chained(b) && Chained(Closing(a, b));
    RingOfParts(a, b);
  }

  /** The node `cur` goes from within the second chain to the end of the first. */
  method PassOver(last: Node, cur: Node, before: Node, ghost a: seq<Node>, ghost b: seq<Node>, ghost c: seq<Node>)
    returns (next: Node)
    requires Broken(a, b + [cur] + c) && b != [] && last == a[|a| - 1] && before == b[|b| - 1]
    modifies last`next, cur, before`next, At(c + a, 0)`prev
    ensures Broken(a + [cur], b + c) && next == At(c + a, 0)
  {
    PassOverParts(a, cur, b, c);
    last.next := cur;
    cur.prev := last;
    next := cur.next;
    before.next := next;
    next.prev := before;
    assert Chained(a) && Chained([cur]) && Chained(b) && Chained(c);
    ChainedJoin(a, [cur]);
    ChainedJoin(b, c);
    DistinctParts(a, [cur]);
    DistinctParts(b, c);
    DisjointJoin(a, [cur], b + c);
    DisjointJoin(b, c, a);
    DisjointJoin(b, c, [cur]);
  }

  lemma PassOverParts(a: seq<Node>, cur: Node, b: seq<Node>, c: seq<Node>)
    requires Broken(a, b + [cur] + c) && b != []
    ensures Chained(a) && Chained(b) && Chained(c) && Distinct(a) && Distinct(b) && Distinct(c)
    ensures Linked(b[|b| - 1], cur) && Linked(cur, At(c + a, 0)) && (c != [] ==> Linked(c[|c| - 1], a[0]))
    ensures Disjoint(a, b) && Disjoint(a, [cur]) && Disjoint(a, c) && Disjoint(b, [cur]) && Disjoint(b, c)
        && Disjoint([cur], c)
    ensures Disjoint(b, a) && Disjoint(c, a) && Disjoint([cur], b) && Disjoint(c, b)
    ensures forall i :: 0 <= i < |a| ==> a[i] != cur
    ensures forall i :: 0 <= i < |b| ==> b[i] != cur
    ensures forall i :: 0 <= i < |c| ==> c[i] != cur
  {
    ChainedParts(b + [cur], c);
    ChainedParts(b, [cur]);
    DistinctParts(b + [cur], c);
    DistinctParts(b, [cur]);
    DisjointJoin(b, [cur], c);
    DisjointJoin(b + [cur], c, a);
    DisjointJoin(b, [cur], a);
    assert [cur][0] == cur;
  }

  // ------------------------------------------------------------------- the loop

  /** What precedes the nodes put last, when `k` nodes of the range have been looked at. */
  ghost function Front(u: seq<Node>, r: seq<Node>, k: nat, pred: Node -> bool): seq<Node>
    requires k <= |r|
  {
    u + Kept(r[..k], pred)
  }

  /** The nodes put last, and what follows. */
  ghost function Back(r: seq<Node>, v: seq<Node>, k: nat, pred: Node -> bool): seq<Node>
    requires k <= |r|
  {
    Kept(r[..k], Not(pred)) + r[k..] + v
  }

  /** The node to look at next. */
  ghost function Current(u: seq<Node>, r: seq<Node>, v: seq<Node>, k: nat): Node
    requires k <= |r| && u != []
  {
    if k < |r| then r[k] else At(u + v, |u|)
  }

  lemma FrontBack(u: seq<Node>, r: seq<Node>, v: seq<Node>, k: nat, pred: Node -> bool)
    requires k <= |r|
    ensures Front(u, r, k, pred) + Back(r, v, k, pred) == u + Partitioned(r, k, pred) + v
  {
  }

  lemma FrontBackNext(u: seq<Node>, r: seq<Node>, v: seq<Node>, k: nat, pred: Node -> bool)
    requires k < |r|
    ensures Front(u, r, k + 1, pred) == if pred(r[k]) then Front(u, r, k, pred) + [r[k]] else Front(u, r, k, pred)
    ensures Kept(r[..k + 1], Not(pred)) == if pred(r[k]) then Kept(r[..k], Not(pred))
        else Kept(r[..k], Not(pred)) + [r[k]]
    ensures Back(r, v, k, pred) == Kept(r[..k], Not(pred)) + [r[k]] + (r[k + 1..] + v)
    ensures Back(r, v, k + 1, pred) ==
      if pred(r[k]) then Kept(r[..k], Not(pred)) + (r[k + 1..] + v) else Back(r, v, k, pred)
  {
    hide Kept;
    KeptNext(r, k, pred);
    KeptNext(r, k, Not(pred));
    Regroup(u, Kept(r[..k], pred), [r[k]]);
    TailSplit(Kept(r[..k], Not(pred)), r, k, v);
  }

  lemma KeptNext<T>(r: seq<T>, k: nat, pred: T -> bool)
    requires k < |r|
    ensures Kept(r[..k + 1], pred) == if pred(r[k]) then Kept(r[..k], pred) + [r[k]] else Kept(r[..k], pred)
  {
    assert r[..k + 1] == r[..k] + [r[k]];
    KeptSnoc(r[..k], r[k], pred);
  }

  lemma TailSplit(n: seq<Node>, r: seq<Node>, k: nat, v: seq<Node>)
    requires k < |r|
    ensures n + r[k..] + v == n + [r[k]] + (r[k + 1..] + v) == n + [r[k]] + r[k + 1..] + v
    ensures n + r[k + 1..] + v == n + (r[k + 1..] + v)
  {
    assert r[k..] == [r[k]] + r[k + 1..];
  }

  /**
   Between two turns of the main loop: at least one node has been put last, and the list is broken before the first of
   them.
   */
  ghost predicate Midway(u: seq<Node>, r: seq<Node>, v: seq<Node>, k: nat, pred: Node -> bool, last: Node, newF: Node,
                         before: Node)
    reads u, r, v, Front(u, r, if k <= |r| then k else 0, pred), Back(r, v, if k <= |r| then k else 0, pred)
  {
    && u != [] && k <= |r| && Broken(Front(u, r, k, pred), Back(r, v, k, pred))
    && LastOf(Kept(r[..k], Not(pred)), before) && newF == Kept(r[..k], Not(pred))[0]
    && LastOf(Front(u, r, k, pred), last)
  }

  ghost predicate LastOf(c: seq<Node>, n: Node)
  {
    c != [] && n == c[|c| - 1]
  }

  lemma {:induction false} KeptIn<T>(r: seq<T>, pred: T -> bool)
    ensures forall x <- Kept(r, pred) :: x in r
  {
    if r != [] {
      KeptIn(r[1..], pred);
    }
  }

  /** The nodes a turn writes to are nodes of the list. */
  lemma WithinList(u: seq<Node>, r: seq<Node>, v: seq<Node>, k: nat, pred: Node -> bool, last: Node, newF: Node,
                   before: Node)
    requires Midway(u, r, v, k, pred, last, newF, before)
    ensures (last in u || last in r) && before in r && newF in r
    ensures k < |r| ==> r[k] in r && var next := At(r[k + 1..] + v + Front(u, r, k, pred), 0);
        next in u || next in r || next in v
  {
    KeptIn(r[..k], pred);
    KeptIn(r[..k], Not(pred));
    assert forall x <- r[..k] :: x in r;
    var n, a := Kept(r[..k], Not(pred)), Front(u, r, k, pred);
    assert n[|n| - 1] in n && n[0] in n && a[|a| - 1] in a;
    if k < |r| {
      assert r[k] in r;
      var c := r[k + 1..] + v;
      if c != [] {
        assert c[0] in c;
      } else {
        assert (c + a)[0] == u[0] && u[0] in u;
      }
    }
  }

  /** The next node is put first or last. */
  method PartitionOne(cur: Node, last: Node, before: Node, yes: bool, ghost newF: Node, ghost pred: Node -> bool,
                      ghost u: seq<Node>, ghost r: seq<Node>, ghost v: seq<Node>, ghost k: nat)
    returns (next: Node, last': Node, before': Node)
    requires k < |r| && Midway(u, r, v, k, pred, last, newF, before) && cur == r[k] && yes == pred(cur)
    modifies u, r, v
    ensures Midway(u, r, v, k + 1, pred, last', newF, before') && next == Current(u, r, v, k + 1)
  {
    FrontBackNext(u, r, v, k, pred);
    WithinList(u, r, v, k, pred, last, newF, before);
    NextCurrent(u, r, v, k, pred);
    if yes {
      next := PassOver(last, cur, before, Front(u, r, k, pred), Kept(r[..k], Not(pred)), r[k + 1..] + v);
      last', before' := cur, before;
    } else {
      last', before' := last, cur;
      BackNext(u, r, v, k, pred);
      next := cur.next;
    }
  }

  lemma NextCurrent(u: seq<Node>, r: seq<Node>, v: seq<Node>, k: nat, pred: Node -> bool)
    requires k < |r| && u != []
    ensures At(r[k + 1..] + v + Front(u, r, k, pred), 0) == Current(u, r, v, k + 1)
  {
  }

  lemma BackNext(u: seq<Node>, r: seq<Node>, v: seq<Node>, k: nat, pred: Node -> bool)
    requires k < |r| && u != [] && Broken(Front(u, r, k, pred), Back(r, v, k, pred))
    ensures r[k].next == Current(u, r, v, k + 1)
  {
    var b, i := Back(r, v, k, pred), |Kept(r[..k], Not(pred))|;
    assert b[i] == r[k];
    if i + 1 < |b| {
      assert Linked(b[i], b[i + 1]);
    }
  }

  /** The main loop: from the first node that is put last. */
  method PartitionRest(start: Node, end: Node, last0: Node, newF: Node, n1: nat, n2: nat, pred: Node -> bool,
                       fails: Node -> bool,
                       ghost u: seq<Node>, ghost r: seq<Node>, ghost v: seq<Node>, ghost k0: nat)
    returns (threw: bool, num1: nat, num2: nat, ghost k: nat)
    requires Midway(u, r, v, k0, pred, last0, newF, newF) && start == Current(u, r, v, k0)
    requires end == At(u + v, |u|) && end !in r && n1 == |Kept(r[..k0], pred)| && n2 == |Kept(r[..k0], Not(pred))|
    modifies u, r, v
    ensures k0 <= k <= |r| && Ring(u + Partitioned(r, k, pred) + v) && forall j :: k0 <= j < k ==> !fails(r[j])
    ensures if threw then k < |r| && fails(r[k]) else k == |r|
    ensures num1 == |Kept(r[..k], pred)| && num2 == |Kept(r[..k], Not(pred))|
    ensures Kept(r[..k], Not(pred)) != [] && newF == Kept(r[..k], Not(pred))[0]
  {
    hide *;
    var cur, last, before := start, last0, newF;
    num1, num2, threw, k := n1, n2, false, k0;
    MidwayBounds(u, r, v, k, pred, last, newF, before);
    CurrentIs(u, r, v, k);
    while cur != end
      invariant k0 <= k <= |r| && Midway(u, r, v, k, pred, last, newF, before) && cur == Current(u, r, v, k)
      invariant (cur == end <==> k == |r|) && (k < |r| ==> cur == r[k])
      invariant num1 == |Kept(r[..k], pred)| && num2 == |Kept(r[..k], Not(pred))|
      invariant forall j :: k0 <= j < k ==> !fails(r[j])
      decreases |r| - k
    {
      if fails(cur) {
        threw := true;
        break;
      }
      Counts(r, k, pred);
      var yes := pred(cur);
      cur, last, before := PartitionOne(cur, last, before, yes, newF, pred, u, r, v, k);
      if yes {
        num1 := num1 + 1;
      } else {
        num2 := num2 + 1;
      }
      k := k + 1;
      CurrentIs(u, r, v, k);
    }
    FinishPartition(last, newF, before, pred, u, r, v, k);
  }

  method FinishPartition(last: Node, newF: Node, ghost before: Node, ghost pred: Node -> bool,
                         ghost u: seq<Node>, ghost r: seq<Node>, ghost v: seq<Node>, ghost k: nat)
    requires Midway(u, r, v, k, pred, last, newF, before) && k <= |r|
    modifies u, r, v
    ensures Ring(u + Partitioned(r, k, pred) + v)
    ensures Kept(r[..k], Not(pred)) != [] && newF == Kept(r[..k], Not(pred))[0]
  {
    WithinList(u, r, v, k, pred, last, newF, before);
    FrontBack(u, r, v, k, pred);
    Mend(last, newF, Front(u, r, k, pred), Back(r, v, k, pred));
  }

  lemma MidwayBounds(u: seq<Node>, r: seq<Node>, v: seq<Node>, k: nat, pred: Node -> bool, last: Node, newF: Node,
                     before: Node)
    requires Midway(u, r, v, k, pred, last, newF, before)
    ensures u != [] && k <= |r|
  {
  }

  lemma CurrentIs(u: seq<Node>, r: seq<Node>, v: seq<Node>, k: nat)
    requires k <= |r| && u != [] && At(u + v, |u|) !in r
    ensures Current(u, r, v, k) == At(u + v, |u|) <==> k == |r|
    ensures k < |r| ==> Current(u, r, v, k) == r[k]
  {
  }

  lemma Counts<T>(r: seq<T>, k: nat, pred: T -> bool)
    requires k < |r|
    ensures |Kept(r[..k + 1], pred)| == |Kept(r[..k], pred)| + if pred(r[k]) then 1 else 0
    ensures |Kept(r[..k + 1], Not(pred))| == |Kept(r[..k], Not(pred))| + if pred(r[k]) then 0 else 1
  {
    assert r[..k + 1] == r[..k] + [r[k]];
    KeptSnoc(r[..k], r[k], pred);
    KeptSnoc(r[..k], r[k], Not(pred));
  }

  // -------------------------------------------------------------- stable partition

  lemma {:induction false} KeptWhole<T>(r: seq<T>, pred: T -> bool)
    requires forall i :: 0 <= i < |r| ==> pred(r[i])
    ensures Kept(r, pred) == r && Kept(r, Not(pred)) == []
  {
    if r != [] {
      KeptWhole(r[1..], pred);
    }
  }

  /**
   Puts the nodes of the range that satisfy `pred` first.  When `pred` fails, the list is mended and the rest stays as
   it is.
   */
  method StablePartition(beg: Node, end: Node, pred: Node -> bool, fails: Node -> bool,
                         ghost u: seq<Node>, ghost r: seq<Node>, ghost v: seq<Node>)
    returns (threw: bool, num1: nat, num2: nat, newF: Node, ghost k: nat)
    requires Ring(u + r + v) && u != [] && beg == At(u + r + v, |u|) && end == At(u + v, |u|)
    modifies u, r, v
    ensures k <= |r| && Ring(u + Partitioned(r, k, pred) + v) && forall j :: 0 <= j < k ==> !fails(r[j])
    ensures if threw then k < |r| && fails(r[k]) else k == |r|
    ensures num1 == |Kept(r[..k], pred)| && num2 == |Kept(r[..k], Not(pred))|
    ensures newF == if num2 == 0 then end else Kept(r[..k], Not(pred))[0]
  {
    hide Partitioned, Kept, Distinct, Chained;
    RangeApart(u, r, v);
    RingLinks(u + r + v, if |u| < |u + r + v| then |u| else 0);
    var before: Node, cur := beg.prev, beg;
    newF, num1, num2, threw, k := end, 0, 0, false, 0;
    while cur != end
      invariant k <= |r| && Ring(u + r + v) && cur == Current(u, r, v, k) && before == (u + r)[|u| + k - 1]
      invariant forall j :: 0 <= j < k ==> !fails(r[j]) && pred(r[j])
      invariant num1 == k
      decreases |r| - k
    {
      if fails(cur) {
        threw := true;
        break;
      }
      RingLinks(u + r + v, |u| + k);
      if pred(cur) {
        num1 := num1 + 1;
        before := cur;
        cur := cur.next;
        k := k + 1;
      } else {
        var last := before;
        newF := cur;
        cur := cur.next;
        BeginRest(u, r, v, k, pred, last, newF);
        threw, num1, num2, k := PartitionRest(cur, end, last, newF, num1, 1, pred, fails, u, r, v, k + 1);
        return;
      }
    }
    NothingMoved(u, r, v, k, pred);
  }

  lemma NothingMoved(u: seq<Node>, r: seq<Node>, v: seq<Node>, k: nat, pred: Node -> bool)
    requires k <= |r| && forall j :: 0 <= j < k ==> pred(r[j])
    ensures u + Partitioned(r, k, pred) + v == u + r + v
    ensures |Kept(r[..k], pred)| == k && |Kept(r[..k], Not(pred))| == 0
  {
    KeptWhole(r[..k], pred);
    assert r[..k] + [] + r[k..] == r;
  }

  lemma RangeApart(u: seq<Node>, r: seq<Node>, v: seq<Node>)
    requires Ring(u + r + v) && u != []
    ensures At(u + v, |u|) !in r
  {
    DistinctParts(u + r, v);
    DistinctParts(u, r);
    DisjointJoin(u, r, v);
  }

  lemma BeginRest(u: seq<Node>, r: seq<Node>, v: seq<Node>, k: nat, pred: Node -> bool, last: Node, newF: Node)
    requires Ring(u + r + v) && u != [] && k < |r| && (forall j :: 0 <= j < k ==> pred(r[j])) && !pred(r[k])
    requires last == (u + r)[|u| + k - 1] && newF == r[k]
    ensures Midway(u, r, v, k + 1, pred, last, newF, newF)
    ensures |Kept(r[..k + 1], pred)| == k && |Kept(r[..k + 1], Not(pred))| == 1
  {
    BeginKept(u, r, v, k, pred);
    var a, b := u + r[..k], r[k..] + v;
    assert a + b == u + r + v;
    Break(a, b);
  }

  lemma BeginKept(u: seq<Node>, r: seq<Node>, v: seq<Node>, k: nat, pred: Node -> bool)
    requires k < |r| && (forall j :: 0 <= j < k ==> pred(r[j])) && !pred(r[k])
    ensures Kept(r[..k + 1], pred) == r[..k] && Kept(r[..k + 1], Not(pred)) == [r[k]]
    ensures Front(u, r, k + 1, pred) == u + r[..k] && Back(r, v, k + 1, pred) == r[k..] + v
  {
    KeptWhole(r[..k], pred);
    assert r[..k + 1] == r[..k] + [r[k]];
    KeptSnoc(r[..k], r[k], pred);
    KeptSnoc(r[..k], r[k], Not(pred));
    assert [r[k]] + r[k + 1..] == r[k..];
  }
}

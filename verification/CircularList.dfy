/** Circular doubly linked lists. */
module CircularList {
  import opened Ordering
  import opened Sequences

  class Node {
    const key: Key
    var prev: Node?
    var next: Node?

    constructor (key: Key)
      ensures this.key == key && prev == null && next == null
    {
      this.key := key;
      prev, next := null, null;
    }
  }

  ghost predicate Linked(x: Node, y: Node)
    reads x`next, y`prev
  {
    x.next == y && y.prev == x
  }

  ghost predicate Distinct(c: seq<Node>)
  {
    forall i, j :: 0 <= i < j < |c| ==> c[i] != c[j]
  }

  /** Every node of `c` is linked with the next, in both directions. */
  ghost predicate Chained(c: seq<Node>)
    reads c
  {
    forall i :: 0 <= i < |c| - 1 ==> Linked(c[i], c[i + 1])
  }

  /** The nodes of `c` are a circular list in this order. */
  ghost predicate Ring(c: seq<Node>)
    reads c
  {
    Distinct(c) && Chained(c) && (c != [] ==> Linked(c[|c| - 1], c[0]))
  }

  /** The node at `i`, where the one after the last is the first. */
  ghost function At(c: seq<Node>, i: nat): Node
    requires i <= |c| && c != []
  {
    if i < |c| then c[i] else c[0]
  }

  lemma RingLinks(c: seq<Node>, i: nat)
    requires Ring(c) && i < |c|
    ensures Linked(c[i], At(c, i + 1))
    ensures c[i].next != null && c[i].prev == c[if i == 0 then |c| - 1 else i - 1]
  {
    if i > 0 {
      assert Linked(c[i - 1], c[i]);
    }
  }

  /** A circular list has no beginning. */
  lemma RingTurned(c: seq<Node>, k: nat)
    requires Ring(c) && k <= |c|
    ensures Ring(Turned(c, k))
  {
    var d := Turned(c, k);
    forall i | 0 <= i < |d| ensures d[i] == c[if i + k < |c| then i + k else i + k - |c|] {
    }
    forall i | 0 <= i < |d| - 1 ensures Linked(d[i], d[i + 1]) {
      RingLinks(c, if i + k < |c| then i + k else i + k - |c|);
    }
    if c != [] {
      RingLinks(c, if k == 0 then |c| - 1 else k - 1);
    }
  }

  // ---------------------------------------------------------- nodes in and out

  method InitHeader(node: Node)
    modifies node
    ensures Ring([node])
  {
    node.next := node;
    node.prev := node;
  }

  /** Takes the node out that comes after `u`. */
  method Unlink(node: Node, ghost u: seq<Node>, ghost v: seq<Node>) returns (next: Node)
    requires Ring(u + [node] + v) && u != []
    modifies At(u, |u| - 1)`next, At(u + v, |u|)`prev
    ensures Ring(u + v) && next == At(u + v, |u|)
  {
    ghost var c, d := u + [node] + v, u + v;
    RingLinks(c, |u|);
    assert c[|u|] == node && c[0] == d[0];
    next := node.next;
    var prev: Node := node.prev;
    prev.next := next;
    next.prev := prev;
    forall i | 0 <= i < |d| ensures d[i] == c[if i < |u| then i else i + 1] {
    }
    forall i | 0 <= i < |d| - 1 ensures Linked(d[i], d[i + 1]) {
      if i != |u| - 1 {
        assert Linked(c[if i < |u| then i else i + 1], c[if i < |u| then i + 1 else i + 2]);
      }
    }
    if v != [] {
      assert Linked(c[|c| - 1], c[0]);
    }
  }

  /** Links a node in after the node at `i`. */
  method Join(prev: Node, node: Node, next: Node, ghost c: seq<Node>, ghost i: nat)
    requires Ring(c) && i < |c| && prev == c[i] && next == At(c, i + 1) && node !in c
    modifies prev`next, node, next`prev
    ensures Ring(c[..i + 1] + [node] + c[i + 1..])
  {
    node.prev := prev;
    node.next := next;
    next.prev := node;
    prev.next := node;
    ghost var d := c[..i + 1] + [node] + c[i + 1..];
    forall j | 0 <= j < |d| ensures d[j] == if j <= i then c[j] else if j == i + 1 then node else c[j - 1] {
    }
    forall j | 0 <= j < |d| - 1 ensures Linked(d[j], d[j + 1]) {
      if j != i && j != i + 1 {
        assert Linked(c[if j < i then j else j - 1], c[if j < i then j + 1 else j]);
      }
    }
    if i + 1 < |c| {
      assert Linked(c[|c| - 1], c[0]);
    }
  }

  method LinkBefore(next: Node, node: Node, ghost c: seq<Node>, ghost i: nat)
    requires Ring(c) && i < |c| && next == At(c, i + 1) && node !in c
    modifies At(c, i)`next, node, next`prev
    ensures Ring(c[..i + 1] + [node] + c[i + 1..])
  {
    RingLinks(c, i);
    Join(next.prev, node, next, c, i);
  }

  method LinkAfter(prev: Node, node: Node, ghost c: seq<Node>, ghost i: nat)
    requires Ring(c) && i < |c| && prev == c[i] && node !in c
    modifies prev`next, node, At(c, i + 1)`prev
    ensures Ring(c[..i + 1] + [node] + c[i + 1..])
  {
    RingLinks(c, i);
    Join(prev, node, prev.next, c, i);
  }

  // -------------------------------------------------------------------- rotation

  /** Takes the first node out. */
  method UnlinkFirst(p: Node, ghost s: seq<Node>)
    requires Ring([p] + s) && s != []
    modifies ([p] + s)
    ensures Ring(s) && p !in s
  {
    assert ([p] + s)[0] == p;
    RingTurned([p] + s, 1);
    assert Turned([p] + s, 1) == s + [p] + [];
    assert s[|s| - 1] in [p] + s && s[0] in [p] + s;
    var next := Unlink(p, s, []);
    assert s + [] == s;
  }

  /** Where `p` is put back, and what list that makes. */
  lemma PutBack(p: Node, s: seq<Node>, k: nat)
    requires 0 < k <= |s| && Ring(s[..k] + [p] + s[k..])
    ensures Ring([p] + Turned(s, k))
  {
    RingTurned(s[..k] + [p] + s[k..], k);
    assert Turned(s[..k] + [p] + s[k..], k) == [p] + Turned(s, k);
  }

  /** Moves `p` by `n` positions towards the end, one after the other. */
  method MoveBackwards(p: Node, n: nat, ghost s: seq<Node>)
    requires Ring([p] + s)
    modifies ([p] + s)
    ensures Ring([p] + RotatedBack(s, n))
  {
    hide Shift;
    if n == 0 {
      NoTurn(s, n);
      return;
    }
    RingLinks([p] + s, 0);
    var first: Node := p.next;
    if first == p.prev {
      NoTurn(s, n);
      return;
    }
    UnlinkFirst(p, s);
    first := StepOn(first, n, s);
    ghost var k := Shift(s, n);
    ghost var i := if k == 0 then |s| - 1 else k - 1;
    assert s[i] in [p] + s && first in [p] + s && p in [p] + s;
    LinkBefore(first, p, s, i);
    PutBack(p, s, i + 1);
    TurnedEnds(s);
  }

  lemma TurnedEnds<T>(s: seq<T>)
    ensures Turned(s, 0) == Turned(s, |s|)
  {
  }

  method StepOn(start: Node, n: nat, ghost s: seq<Node>) returns (first: Node)
    requires Ring(s) && s != [] && start == s[0]
    ensures first == s[Shift(s, n)]
  {
    hide Shift;
    first := start;
    ShiftSmall(s, 0);
    for i := 0 to n
      invariant first == s[Shift(s, i)]
    {
      ShiftNext(s, i);
      RingLinks(s, Shift(s, i));
      first := first.next;
    }
  }

  /** Moves `p` by `n` positions towards the beginning, one after the other. */
  method MoveForward(p: Node, n: nat, ghost s: seq<Node>)
    requires Ring([p] + s)
    modifies ([p] + s)
    ensures Ring([p] + RotatedForth(s, n))
  {
    hide Shift;
    if n == 0 {
      NoTurn(s, n);
      return;
    }
    RingLinks([p] + s, 0);
    var last: Node := p.prev;
    if last == p.next {
      NoTurn(s, n);
      return;
    }
    UnlinkFirst(p, s);
    last := StepBack(last, n, s);
    ghost var k := |s| - Shift(s, n);
    assert last in [p] + s && At(s, k) in [p] + s && p in [p] + s;
    LinkAfter(last, p, s, k - 1);
    PutBack(p, s, k);
  }

  method StepBack(start: Node, n: nat, ghost s: seq<Node>) returns (last: Node)
    requires Ring(s) && s != [] && start == s[|s| - 1]
    ensures last == s[|s| - 1 - Shift(s, n)]
  {
    hide Shift;
    last := start;
    ShiftSmall(s, 0);
    for i := 0 to n
      invariant last == s[|s| - 1 - Shift(s, i)]
    {
      ShiftNext(s, i);
      RingLinks(s, |s| - 1 - Shift(s, i));
      last := last.prev;
    }
  }

  // -------------------------------------------------------------------- transfer

  /** Moves the nodes from `b` to before `e` to the place before `p`. */
  method Transfer(p: Node, b: Node, e: Node, ghost pp: Node, ghost bp: Node, ghost ep: Node)
    requires p.prev == pp && b.prev == bp && e.prev == ep
    requires b != e && p != b && p != e ==> pp != bp && pp != ep && bp != ep
    modifies pp`next, bp`next, ep`next, p`prev, b`prev, e`prev
    ensures b != e && p != b && p != e ==> Linked(ep, p) && Linked(bp, e) && Linked(pp, b)
    ensures b == e || p == b || p == e ==> unchanged(pp, bp, ep, p, b, e)
  {
    if b != e && p != b && p != e {
      var prevP: Node, prevB: Node, prevE: Node := p.prev, b.prev, e.prev;
      prevE.next := p;
      p.prev := prevE;
      prevB.next := e;
      e.prev := prevB;
      prevP.next := b;
      b.prev := prevP;
    }
  }

  ghost predicate Disjoint(x: seq<Node>, y: seq<Node>)
  {
    forall i, j :: 0 <= i < |x| && 0 <= j < |y| ==> x[i] != y[j]
  }

  lemma DisjointFlip(x: seq<Node>, y: seq<Node>)
    requires Disjoint(x, y)
    ensures Disjoint(y, x)
  {
  }

  lemma DisjointJoin(x: seq<Node>, y: seq<Node>, z: seq<Node>)
    ensures Disjoint(x + y, z) <==> Disjoint(x, z) && Disjoint(y, z)
    ensures Disjoint(z, x + y) <==> Disjoint(z, x) && Disjoint(z, y)
  {
    var c := x + y;
    assert forall i :: 0 <= i < |x| ==> c[i] == x[i];
    assert forall i :: 0 <= i < |y| ==> c[|x| + i] == y[i];
    assert forall i :: 0 <= i < |c| ==> c[i] == if i < |x| then x[i] else y[i - |x|];
  }

  lemma DistinctParts(x: seq<Node>, y: seq<Node>)
    ensures Distinct(x + y) <==> Distinct(x) && Distinct(y) && Disjoint(x, y)
  {
    var c := x + y;
    assert forall i :: 0 <= i < |x| ==> c[i] == x[i];
    assert forall i :: 0 <= i < |y| ==> c[|x| + i] == y[i];
    assert forall i :: 0 <= i < |c| ==> c[i] == if i < |x| then x[i] else y[i - |x|];
  }

  /** What a range of nodes between two others looks like from outside. */
  lemma Between(x: seq<Node>, y: seq<Node>, z: seq<Node>)
    requires Ring(x + y + z) && x != [] && y != []
    ensures Linked(x[|x| - 1], y[0]) && Linked(y[|y| - 1], At(x + z, |x|))
    ensures Chained(x) && Chained(y) && Chained(z) && Chained(Closing(x, z))
    ensures Distinct(x) && Distinct(y) && Distinct(z) && Disjoint(x, y) && Disjoint(x, z) && Disjoint(y, z)
  {
    RingParts(x + y, z);
    ChainedParts(x, y);
    DistinctParts(x, y);
    DisjointJoin(x, y, z);
  }

  /** Two chains make one when the last of the first is linked with the first of the second. */
  lemma ChainedJoin(x: seq<Node>, y: seq<Node>)
    requires Chained(x) && Chained(y) && (x != [] && y != [] ==> Linked(x[|x| - 1], y[0]))
    ensures Chained(x + y)
  {
    var c := x + y;
    forall i | 0 <= i < |c| - 1 ensures Linked(c[i], c[i + 1]) {
      if i >= |x| {
        assert Linked(y[i - |x|], y[i - |x| + 1]);
      } else if i < |x| - 1 {
        assert Linked(x[i], x[i + 1]);
      }
    }
  }

  lemma ChainedParts(x: seq<Node>, y: seq<Node>)
    requires Chained(x + y)
    ensures Chained(x) && Chained(y) && (x != [] && y != [] ==> Linked(x[|x| - 1], y[0]))
  {
    var c := x + y;
    forall i | 0 <= i < |x| - 1 ensures Linked(x[i], x[i + 1]) {
      assert Linked(c[i], c[i + 1]);
    }
    forall i | 0 <= i < |y| - 1 ensures Linked(y[i], y[i + 1]) {
      assert Linked(c[|x| + i], c[|x| + i + 1]);
    }
    if x != [] && y != [] {
      assert Linked(c[|x| - 1], c[|x|]);
    }
  }

  /** The links within `s` are none of those. */
  ghost predicate Inside(s: seq<Node>, x: Node, y: Node)
  {
    (forall i :: 0 <= i < |s| - 1 ==> s[i] != x) && forall i :: 1 <= i < |s| ==> s[i] != y
  }

  /** After relinking three pairs of nodes, a chain that none of them is within is still one. */
  method Relink(p: Node, b: Node, e: Node, ghost pp: Node, ghost bp: Node, ghost ep: Node, ghost ss: seq<seq<Node>>)
    requires p.prev == pp && b.prev == bp && e.prev == ep && b != e && p != b && p != e && pp != bp && pp != ep
        && bp != ep
    requires forall k :: 0 <= k < |ss| ==>
        Chained(ss[k]) && Inside(ss[k], pp, p) && Inside(ss[k], bp, b) && Inside(ss[k], ep, e)
    modifies pp`next, bp`next, ep`next, p`prev, b`prev, e`prev
    ensures Linked(ep, p) && Linked(bp, e) && Linked(pp, b)
    ensures forall k :: 0 <= k < |ss| ==> Chained(ss[k])
  {
    Transfer(p, b, e, pp, bp, ep);
    forall k, i | 0 <= k < |ss| && 0 <= i < |ss[k]| - 1 ensures Linked(ss[k][i], ss[k][i + 1]) {
    }
  }

  /** The link from the end of a list of two parts back to its beginning, unless the second part is empty. */
  ghost function Closing(x: seq<Node>, y: seq<Node>): (c: seq<Node>)
    requires x != []
  {
    if y == [] then [] else [y[|y| - 1], x[0]]
  }

  /** A list of two parts, of chains and links. */
  lemma RingParts(x: seq<Node>, y: seq<Node>)
    requires Ring(x + y) && x != []
    ensures Chained(x) && Chained(y) && Chained(Closing(x, y)) && Linked(x[|x| - 1], At(x + y, |x|))
    ensures Distinct(x) && Distinct(y) && Disjoint(x, y)
  {
    ChainedParts(x, y);
    DistinctParts(x, y);
    RingLinks(x + y, |x| - 1);
  }

  lemma RingOfParts(x: seq<Node>, y: seq<Node>)
    requires x != [] && Chained(x) && Chained(y) && Chained(Closing(x, y)) && Linked(x[|x| - 1], At(x + y, |x|))
    requires Distinct(x) && Distinct(y) && Disjoint(x, y)
    ensures Ring(x + y)
  {
    DistinctParts(x, y);
    ChainedJoin(x, y);
    if y != [] {
      assert Linked(Closing(x, y)[0], Closing(x, y)[1]);
    }
  }

  /** The links that a transfer leaves alone. */
  lemma TransferInside(x: seq<Node>, y: seq<Node>, u: seq<Node>, r: seq<Node>, v: seq<Node>)
    requires x != [] && u != [] && r != [] && Apart5(x, y, u, r, v)
    ensures forall k :: 0 <= k < 7 ==>
      var s := [x, y, u, r, v, Closing(x, y), Closing(u, v)][k];
      Inside(s, x[|x| - 1], At(x + y, |x|)) && Inside(s, u[|u| - 1], r[0]) && Inside(s, r[|r| - 1], At(u + v, |u|))
  {
    var p, b, e := At(x + y, |x|), r[0], At(u + v, |u|);
    assert p == if y == [] then x[0] else y[0];
    assert e == if v == [] then u[0] else v[0];
  }

  /** Moves the nodes `r` from between `u` and `v` to between `x` and `y` of another list. */
  method TransferBetween(p: Node, b: Node, e: Node, ghost x: seq<Node>, ghost y: seq<Node>,
                         ghost u: seq<Node>, ghost r: seq<Node>, ghost v: seq<Node>)
    requires Ring(x + y) && x != [] && Ring(u + r + v) && u != [] && r != []
    requires Disjoint(x + y, u + r + v)
    requires p == At(x + y, |x|) && b == r[0] && e == At(u + v, |u|)
    modifies At(x, |x| - 1), At(u, |u| - 1), At(r, |r| - 1), p, b, e
    ensures Ring(x + r + y) && Ring(u + v)
  {
    ghost var pp, bp, ep: Node := x[|x| - 1], u[|u| - 1], r[|r| - 1];
    ghost var ss: seq<seq<Node>> := [x, y, u, r, v, Closing(x, y), Closing(u, v)];
    BetweenParts(x, y, u, r, v);
    Relink(p, b, e, pp, bp, ep, ss);
    assert ss[0] == x && ss[1] == y && ss[2] == u && ss[3] == r && ss[4] == v && ss[5] == Closing(x, y)
        && ss[6] == Closing(u, v);
    BetweenDone(x, y, u, r, v);
  }

  /** Before the transfer. */
  lemma BetweenParts(x: seq<Node>, y: seq<Node>, u: seq<Node>, r: seq<Node>, v: seq<Node>)
    requires Ring(x + y) && x != [] && Ring(u + r + v) && u != [] && r != [] && Disjoint(x + y, u + r + v)
    ensures Apart5(x, y, u, r, v)
    ensures Linked(x[|x| - 1], At(x + y, |x|)) && Linked(u[|u| - 1], r[0]) && Linked(r[|r| - 1], At(u + v, |u|))
    ensures x[|x| - 1] != u[|u| - 1] && x[|x| - 1] != r[|r| - 1] && u[|u| - 1] != r[|r| - 1]
    ensures At(x + y, |x|) != r[0] && At(x + y, |x|) != At(u + v, |u|) && r[0] != At(u + v, |u|)
    ensures forall k :: 0 <= k < 7 ==>
      var s := [x, y, u, r, v, Closing(x, y), Closing(u, v)][k];
      Chained(s) && Inside(s, x[|x| - 1], At(x + y, |x|)) && Inside(s, u[|u| - 1], r[0])
          && Inside(s, r[|r| - 1], At(u + v, |u|))
  {
    RingParts(x, y);
    Between(u, r, v);
    DisjointJoin(x, y, u + r + v);
    DisjointJoin(u + r, v, x);
    DisjointJoin(u, r, x);
    DisjointJoin(u + r, v, y);
    DisjointJoin(u, r, y);
    TransferInside(x, y, u, r, v);
  }

  ghost predicate Apart5(x: seq<Node>, y: seq<Node>, u: seq<Node>, r: seq<Node>, v: seq<Node>)
  {
    && Distinct(x) && Distinct(y) && Distinct(u) && Distinct(r) && Distinct(v)
    && Disjoint(x, y) && Disjoint(u, r) && Disjoint(u, v) && Disjoint(r, v)
    && Disjoint(x, u) && Disjoint(x, r) && Disjoint(x, v) && Disjoint(y, u) && Disjoint(y, r) && Disjoint(y, v)
  }

  /** After it. */
  lemma BetweenDone(x: seq<Node>, y: seq<Node>, u: seq<Node>, r: seq<Node>, v: seq<Node>)
    requires x != [] && u != [] && r != [] && Apart5(x, y, u, r, v)
    requires Chained(x) && Chained(y) && Chained(u) && Chained(r) && Chained(v) && Chained(Closing(x, y))
        && Chained(Closing(u, v))
    requires Linked(x[|x| - 1], r[0]) && Linked(r[|r| - 1], At(x + y, |x|)) && Linked(u[|u| - 1], At(u + v, |u|))
    ensures Ring(x + r + y) && Ring(u + v)
  {
    ChainedJoin(x, r);
    DistinctParts(x, r);
    DisjointJoin(x, r, y);
    RingOfParts(x + r, y);
    RingOfParts(u, v);
  }

  /** Moves one node to another list. */
  method TransferOne(p: Node, i: Node, ghost x: seq<Node>, ghost y: seq<Node>, ghost u: seq<Node>, ghost v: seq<Node>)
    requires Ring(x + y) && x != [] && Ring(u + [i] + v) && u != [] && Disjoint(x + y, u + [i] + v)
    requires p == At(x + y, |x|)
    modifies At(x, |x| - 1), At(u, |u| - 1), i, p, At(u + v, |u|)
    ensures Ring(x + [i] + y) && Ring(u + v)
  {
    ghost var pp, ip: Node, ss: seq<seq<Node>> := x[|x| - 1], u[|u| - 1],
        [x, y, u, [i], v, Closing(x, y), Closing(u, v)];
    BetweenParts(x, y, u, [i], v);
    var n: Node := i.next;
    if n != p && i != p {
      var prevP: Node, prevI: Node := p.prev, i.prev;
      prevP.next := i;
      i.prev := prevP;
      i.next := p;
      p.prev := i;
      n.prev := prevI;
      prevI.next := n;
    }
    assert forall k :: 0 <= k < 7 ==> Chained(ss[k]);
    assert ss[0] == x && ss[1] == y && ss[2] == u && ss[3] == [i] && ss[4] == v && ss[5] == Closing(x, y)
        && ss[6] == Closing(u, v);
    BetweenDone(x, y, u, [i], v);
  }

  /** Moves the nodes `z` of a list to before the nodes `y`. */
  method TransferWithin(p: Node, b: Node, e: Node, ghost x: seq<Node>, ghost y: seq<Node>, ghost z: seq<Node>,
                        ghost t: seq<Node>)
    requires Ring(x + y + z + t) && x != [] && y != [] && z != []
    requires p == y[0] && b == z[0] && e == At(x + t, |x|)
    modifies At(x, |x| - 1), At(y, |y| - 1), At(z, |z| - 1), p, b, e
    ensures Ring(x + z + y + t)
  {
    ghost var pp, bp, ep: Node := x[|x| - 1], y[|y| - 1], z[|z| - 1];
    ghost var ss: seq<seq<Node>> := [x, y, z, t, Closing(x, t)];
    FourParts(x, y, z, t);
    Relink(p, b, e, pp, bp, ep, ss);
    assert ss[0] == x && ss[1] == y && ss[2] == z && ss[3] == t && ss[4] == Closing(x, t);
    ChainedJoin(x, z);
    ChainedJoin(x + z, y);
    DistinctParts(x, z);
    DistinctParts(x + z, y);
    DisjointJoin(x, z, y);
    DisjointJoin(x + z, y, t);
    DisjointJoin(x, z, t);
    RingOfParts(x + z + y, t);
  }

  lemma FourParts(x: seq<Node>, y: seq<Node>, z: seq<Node>, t: seq<Node>)
    requires Ring(x + y + z + t) && x != [] && y != [] && z != []
    ensures Chained(x) && Chained(y) && Chained(z) && Chained(t) && Chained(Closing(x, t))
    ensures Linked(x[|x| - 1], y[0]) && Linked(y[|y| - 1], z[0]) && Linked(z[|z| - 1], At(x + t, |x|))
    ensures Distinct(x) && Distinct(y) && Distinct(z) && Distinct(t)
    ensures Disjoint(x, y) && Disjoint(x, z) && Disjoint(x, t) && Disjoint(y, z) && Disjoint(y, t) && Disjoint(z, t)
    ensures Disjoint(z, y)
    ensures forall k :: 0 <= k < 5 ==>
      var s := [x, y, z, t, Closing(x, t)][k];
      Inside(s, x[|x| - 1], y[0]) && Inside(s, y[|y| - 1], z[0]) && Inside(s, z[|z| - 1], At(x + t, |x|))
  {
    Between(x + y, z, t);
    ChainedParts(x, y);
    DistinctParts(x, y);
    DisjointJoin(x, y, z);
    DisjointJoin(x, y, t);
    assert At(x + t, |x|) == if t == [] then x[0] else t[0];
  }

  // --------------------------------------------------------------------- reversal

  /** The list when the first `k` nodes have been turned around. */
  ghost function PartlyReversed(p: Node, s: seq<Node>, k: nat): seq<Node>
    requires k <= |s|
  {
    [p] + Reversed(s[..k]) + s[k..]
  }

  /** Reverses the order of the nodes after `p`. */
  method Reverse(p: Node, ghost s: seq<Node>)
    requires Ring([p] + s)
    modifies [p] + s
    ensures Ring([p] + Reversed(s))
  {
    RingLinks([p] + s, 0);
    var f: Node := p.next;
    ghost var k := if s == [] then 0 else 1;
    ReversalBegins(p, s);
    assert forall j :: 0 <= j < |s| ==> s[j] != p by {
      DistinctParts([p], s);
      assert [p][0] == p;
    }
    if s != [] {
      RingLinks([p] + s, 1);
    }
    var i: Node := f.next;
    while i != p
      invariant k <= |s| && (k == 0 ==> s == []) && Ring(PartlyReversed(p, s, k))
      invariant f == (if k == 0 then p else s[k - 1]) && i == if k < |s| then s[k] else p
      decreases |s| - k
    {
      var n := i;
      ReversalNext(p, s, k);
      i := i.next;
      ReverseOne(p, f, n, i, s, k);
      f := n;
      k := k + 1;
    }
    assert s[..k] == s && s[k..] == [];
    assert PartlyReversed(p, s, k) == [p] + Reversed(s);
  }

  lemma ReversalBegins(p: Node, s: seq<Node>)
    ensures s == [] ==> PartlyReversed(p, s, 0) == [p] + s
    ensures s != [] ==> PartlyReversed(p, s, 1) == [p] + s
  {
    if s != [] {
      ReversedAt(s[..1], 0);
    }
  }

  lemma ReversalNext(p: Node, s: seq<Node>, k: nat)
    requires k < |s| && Ring(PartlyReversed(p, s, k))
    ensures s[k].next == if k + 1 < |s| then s[k + 1] else p
  {
    RingLinks(PartlyReversed(p, s, k), k + 1);
  }

  method ReverseOne(p: Node, f: Node, n: Node, i: Node, ghost s: seq<Node>, ghost k: nat)
    requires 0 < k < |s| && f == s[k - 1] && n == s[k] && Ring(PartlyReversed(p, s, k))
    requires i == if k + 1 < |s| then s[k + 1] else p
    modifies [p] + s
    ensures Ring(PartlyReversed(p, s, k + 1))
  {
    ghost var x, y, z, t := [p], Reversed(s[..k]), [s[k]], s[k + 1..];
    ReversedAt(s[..k], 0);
    ReversedAt(s[..k], k - 1);
    assert s[..k + 1] == s[..k] + [s[k]];
    ReversedSnoc(s[..k], s[k]);
    assert s[k..] == z + t;
    Regroup(x + y, z, t);
    Regroup(x, z, y);
    assert p in [p] + s && f in [p] + s && n in [p] + s && i in [p] + s && s[0] in [p] + s;
    TransferWithin(f, n, i, x, y, z, t);
  }

  // ------------------------------------------------------------------- swapping

  method SwapPrev(x: Node, y: Node)
    modifies x`prev, y`prev
    ensures x.prev == old(y.prev) && y.prev == old(x.prev)
  {
    var temp := x.prev;
    x.prev := y.prev;
    y.prev := temp;
  }

  method SwapNext(x: Node, y: Node)
    modifies x`next, y`next
    ensures x.next == old(y.next) && y.next == old(x.next)
  {
    var temp := x.next;
    x.next := y.next;
    y.next := temp;
  }

  /** The nodes `x` stand between `a` and `b`. */
  ghost predicate Around(a: Node, x: seq<Node>, b: Node)
    reads a, x, b
  {
    Chained(x) && if x == [] then Linked(a, b) else Linked(a, x[0]) && Linked(x[|x| - 1], b)
  }

  /** All these nodes are different ones. */
  ghost predicate AllDifferent(a: Node, b: Node, x: seq<Node>, y: seq<Node>)
  {
    Distinct([a] + x) && Distinct([b] + y) && Disjoint([a] + x, [b] + y)
  }

  lemma AllDifferentParts(a: Node, b: Node, x: seq<Node>, y: seq<Node>)
    ensures AllDifferent(a, b, x, y) <==>
      && a != b && Distinct(x) && Distinct(y) && Disjoint(x, y) && Disjoint([a], x) && Disjoint([a], y)
          && Disjoint([b], x) && Disjoint([b], y)
    ensures AllDifferent(a, b, x, y) <==> Distinct([a] + x + [b] + y)
  {
    DistinctParts([a], x);
    DistinctParts([b], y);
    DisjointJoin([a], x, [b] + y);
    DisjointJoin([b], y, [a]);
    DisjointJoin([b], y, x);
    assert Disjoint([a], [b]) <==> a != b by {
      assert [a][0] == a && [b][0] == b;
    }
    DistinctParts([a] + x, [b] + y);
    assert [a] + x + [b] + y == [a] + x + ([b] + y);
  }

  lemma RingAround(a: Node, x: seq<Node>)
    ensures Ring([a] + x) <==> Distinct([a] + x) && Around(a, x, a)
  {
    if Ring([a] + x) {
      ChainedParts([a], x);
    }
    if Around(a, x, a) {
      ChainedJoin([a], x);
    }
  }

  lemma RingAroundBoth(a: Node, b: Node, x: seq<Node>, y: seq<Node>)
    ensures Ring([a] + x + [b] + y) <==> Distinct([a] + x + [b] + y) && Around(a, x, b) && Around(b, y, a)
  {
    assert [a] + x + [b] + y == [a] + x + ([b] + y);
    if Ring([a] + x + [b] + y) {
      ChainedParts([a] + x, [b] + y);
      ChainedParts([a], x);
      ChainedParts([b], y);
    }
    if Around(a, x, b) && Around(b, y, a) {
      ChainedJoin([a], x);
      ChainedJoin([b], y);
      ChainedJoin([a] + x, [b] + y);
    }
  }

  /**
   `n` stands in front of `x` in a list of its own; a node without links is in no list, and nothing comes after it.
   */
  ghost predicate InPlace(n: Node, x: seq<Node>, unused: bool)
    reads n, x
  {
    if unused then x == [] && n.next == null && n.prev == null else Ring([n] + x)
  }

  /** Each of the two nodes comes to stand where the other one was: in one list, or each in its own, or in none. */
  method SwapNodes(a: Node, b: Node, ghost x: seq<Node>, ghost y: seq<Node>, ghost same: bool, ghost ua: bool,
                   ghost ub: bool)
    requires a != b ==>
      if same then Ring([a] + x + [b] + y)
      else InPlace(a, x, ua) && InPlace(b, y, ub) && Disjoint([a] + x, [b] + y)
    modifies a, b, x, y
    ensures a != b ==> if same then Ring([b] + x + [a] + y) else InPlace(b, x, ua) && InPlace(a, y, ub)
    ensures a == b ==> unchanged(a, x, y)
  {
    if b == a {
      return;
    }
    PlaceKnown(a, b, x, y, same, ua, ub);
    var thisInited, otherInited := a.next == null, b.next == null;
    if thisInited {
      InitHeader(a);
    }
    if otherInited {
      InitHeader(b);
    }
    SwapInLists(a, b, x, y, same);
    if thisInited {
      Init(b);
    }
    if otherInited {
      Init(a);
    }
  }

  lemma PlaceKnown(a: Node, b: Node, x: seq<Node>, y: seq<Node>, same: bool, ua: bool, ub: bool)
    requires a != b
    requires if same then Ring([a] + x + [b] + y)
        else InPlace(a, x, ua) && InPlace(b, y, ub) && Disjoint([a] + x, [b] + y)
    ensures a.next == null <==> !same && ua
    ensures b.next == null <==> !same && ub
    ensures forall i :: 0 <= i < |x| ==> x[i] != a && x[i] != b
    ensures forall i :: 0 <= i < |y| ==> y[i] != a && y[i] != b
  {
    if same {
      RingAroundBoth(a, b, x, y);
      AllDifferentParts(a, b, x, y);
    } else {
      if !ua {
        RingAround(a, x);
      }
      if !ub {
        RingAround(b, y);
      }
      AllDifferentParts(a, b, x, y);
    }
    assert [a][0] == a && [b][0] == b;
  }

  method Init(node: Node)
    modifies node
    ensures node.next == null && node.prev == null
  {
    node.next := null;
    node.prev := null;
  }

  method SwapInLists(a: Node, b: Node, ghost x: seq<Node>, ghost y: seq<Node>, ghost same: bool)
    requires if same then Ring([a] + x + [b] + y) else Ring([a] + x) && Ring([b] + y) && Disjoint([a] + x, [b] + y)
    modifies a, b, x, y
    ensures if same then Ring([b] + x + [a] + y) else Ring([b] + x) && Ring([a] + y)
  {
    RingAroundBoth(a, b, x, y);
    RingAround(a, x);
    RingAround(b, y);
    AllDifferentParts(a, b, x, y);
    AllDifferentParts(b, a, x, y);
    SwapLinks(a, b, x, y, same);
    RingAroundBoth(b, a, x, y);
    RingAround(b, x);
    RingAround(a, y);
  }

  method SwapLinks(a: Node, b: Node, ghost x: seq<Node>, ghost y: seq<Node>, ghost same: bool)
    requires AllDifferent(a, b, x, y) && Around(a, x, if same then b else a) && Around(b, y, if same then a else b)
    modifies a, b, x, y
    ensures Around(b, x, if same then a else b) && Around(a, y, if same then b else a)
  {
    AllDifferentParts(a, b, x, y);
    assert [a][0] == a && [b][0] == b;
    var nextA: Node, prevA: Node, nextB: Node, prevB: Node := a.next, a.prev, b.next, b.prev;
    SwapPrev(nextA, nextB);
    SwapNext(prevA, prevB);
    SwapNext(a, b);
    SwapPrev(a, b);
  }
}

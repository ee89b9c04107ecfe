/** Lists with a stored size: splicing, removal of what satisfies a predicate, merging and sorting. */
module Lists {
  import opened Ordering
  import opened CircularList
  import opened Division
  import opened ListPartition
  import opened MergeSort

  class List {
    /** The node that stands for the end of the list.  Its key is never looked at. */
    const root: Node
    var size: nat

    constructor (key: Key)
      ensures fresh(root) && Holds([])
    {
      root := new Node(key);
      size := 0;
      new;
      InitHeader(root);
    }

    /** The list is `s`. */
    ghost predicate Holds(s: seq<Node>)
      reads this, root, s
    {
      Ring([root] + s) && size == |s|
    }

    method Empty(ghost s: seq<Node>) returns (e: bool)
      requires Holds(s)
      ensures e <==> s == []
    {
      RingLinks([root] + s, 0);
      if s != [] {
        assert ([root] + s)[1] != ([root] + s)[0];
      }
      e := root.next == null || root.next == root;
    }
  }

  /** The first node of a list, or its end. */
  ghost function First(l: List, s: seq<Node>): Node
  {
    if s == [] then l.root else s[0]
  }

  lemma RootNext(l: List, s: seq<Node>)
    requires l.Holds(s)
    ensures l.root.next == First(l, s) && l.root !in s
    ensures s != [] ==> s[0].next == First(l, s[1..])
  {
    var c := [l.root] + s;
    RingLinks(c, 0);
    if s != [] {
      RingLinks(c, 1);
    }
    forall i | 0 <= i < |s| ensures s[i] != l.root {
      assert c[i + 1] != c[0];
    }
  }

  // -------------------------------------------------------------------- splicing

  /** Two different lists with no node in common, and all nodes from `all`. */
  ghost predicate TwoLists(l: List, s: seq<Node>, x: List, t: seq<Node>, all: set<Node>)
    reads l, l.root, s, x, x.root, t
  {
    && l != x && l.Holds(s) && x.Holds(t) && Disjoint([l.root] + s, [x.root] + t)
    && (forall n <- [l.root] + s :: n in all) && forall n <- [x.root] + t :: n in all
  }

  /** Moving nodes keeps two lists apart. */
  lemma MoveApart(a: seq<Node>, b: seq<Node>, x: seq<Node>, r: seq<Node>, v: seq<Node>)
    requires Disjoint(a + b, x + (r + v)) && Distinct(x + (r + v))
    ensures Disjoint(a + r + b, x + v) && x + (r + v) == x + r + v
  {
    assert x + (r + v) == x + r + v;
    DistinctParts(x + r, v);
    DistinctParts(x, r);
    DisjointJoin(a, b, x + r + v);
    DisjointJoin(x + r, v, a);
    DisjointJoin(x, r, a);
    DisjointJoin(x + r, v, b);
    DisjointJoin(x, r, b);
    DisjointJoin(a + r, b, x + v);
    DisjointJoin(a, r, x + v);
    DisjointFlip(x, r);
    DisjointJoin(x, r, v);
    DisjointJoin(x, v, a);
    DisjointJoin(x, v, r);
    DisjointJoin(x, v, b);
  }

  /** Moves the nodes `r` of a list to before the node `p` of another. */
  method Splice(l: List, p: Node, x: List, f: Node, e: Node, n: nat, ghost a: seq<Node>, ghost b: seq<Node>,
                ghost u: seq<Node>, ghost r: seq<Node>, ghost v: seq<Node>, ghost all: set<Node>)
    requires TwoLists(l, a + b, x, u + r + v, all) && n == |r|
    requires p == First(l, b) && f == First(x, r + v) && e == First(x, v)
    modifies l`size, x`size, all
    ensures TwoLists(l, a + r + b, x, u + v, all)
  {
    hide Ring, Disjoint, TwoLists, First;
    if n != 0 {
      ghost var h, g := [l.root] + a, [x.root] + u;
      SpliceReady(l, a, b, x, u, r, v, all);
      SpliceNodes(l, a, b, x, u, r, v, all);
      TransferBetween(p, f, e, h, b, g, r, v);
      Resize(l, x, n);
      SpliceDone(l, a, b, x, u, r, v, all);
    } else {
      assert a + r + b == a + b && u + r + v == u + v;
    }
  }

  method Resize(l: List, x: List, n: nat)
    requires l != x && x.size >= n
    modifies l`size, x`size
    ensures l.size == old(l.size) + n && x.size == old(x.size) - n
  {
    l.size := l.size + n;
    x.size := x.size - n;
  }

  lemma SpliceReady(l: List, a: seq<Node>, b: seq<Node>, x: List, u: seq<Node>, r: seq<Node>, v: seq<Node>,
                    all: set<Node>)
    requires TwoLists(l, a + b, x, u + r + v, all) && r != []
    ensures var h, g := [l.root] + a, [x.root] + u;
      Ring(h + b) && Ring(g + r + v) && Disjoint(h + b, g + r + v) && Disjoint(h + r + b, g + v)
    ensures l != x && l.size == |a| + |b| && x.size == |u| + |r| + |v| && First(x, r + v) == r[0]
    ensures (forall n <- [l.root] + (a + b) :: n in all) && forall n <- [x.root] + (u + r + v) :: n in all
  {
    hide Chained, Linked;
    var h, g := [l.root] + a, [x.root] + u;
    assert h + b == [l.root] + (a + b) && g + r + v == [x.root] + (u + r + v) == g + (r + v);
    MoveApart(h, b, g, r, v);
  }

  lemma SpliceDone(l: List, a: seq<Node>, b: seq<Node>, x: List, u: seq<Node>, r: seq<Node>, v: seq<Node>,
                   all: set<Node>)
    requires var h, g := [l.root] + a, [x.root] + u; Ring(h + r + b) && Ring(g + v) && Disjoint(h + r + b, g + v)
    requires l != x && l.size == |a| + |r| + |b| && x.size == |u| + |v|
    requires (forall n <- [l.root] + (a + b) :: n in all) && forall n <- [x.root] + (u + r + v) :: n in all
    ensures TwoLists(l, a + r + b, x, u + v, all)
  {
    hide Ring, Disjoint;
    var h, g := [l.root] + a, [x.root] + u;
    assert h + r + b == [l.root] + (a + r + b) && g + v == [x.root] + (u + v);
    forall n <- [l.root] + (a + r + b) ensures n in all {
      assert n in [l.root] + (a + b) || n in [x.root] + (u + r + v);
    }
    forall n <- [x.root] + (u + v) ensures n in all {
      assert n in [x.root] + (u + r + v);
    }
  }

  /** The nodes that a splice writes to. */
  lemma SpliceNodes(l: List, a: seq<Node>, b: seq<Node>, x: List, u: seq<Node>, r: seq<Node>, v: seq<Node>,
                    all: set<Node>)
    requires TwoLists(l, a + b, x, u + r + v, all) && r != []
    ensures var h, g := [l.root] + a, [x.root] + u;
      && h[|h| - 1] in all && g[|g| - 1] in all && r[|r| - 1] in all && r[0] in all && First(l, b) in all
          && First(x, v) in all
      && At(h + b, |h|) == First(l, b) && At(g + v, |g|) == First(x, v)
  {
    var h, g, c, d := [l.root] + a, [x.root] + u, [l.root] + (a + b), [x.root] + (u + r + v);
    assert c[0] in c && d[0] in d && c[|a|] in c && d[|u|] in d && d[|u| + 1] in d && d[|u| + |r|] in d;
    assert c[|a|] == h[|h| - 1] && d[|u|] == g[|g| - 1] && d[|u| + 1] == r[0] && d[|u| + |r|] == r[|r| - 1];
    if b != [] {
      assert c[|a| + 1] in c;
    }
    if v != [] {
      assert d[|u| + |r| + 1] in d;
    }
  }

  // -------------------------------------------------------------------- merging

  /** Where the merge stands: `done` is final, and merging what is left gives the rest. */
  ghost predicate MergeAt(l: List, done: seq<Node>, rest: seq<Node>, x: List, t: seq<Node>, all: set<Node>,
                          m: seq<Node>, p: Comparator)
    reads l, l.root, done, rest, x, x.root, t
  {
    TwoLists(l, done + rest, x, t, all) && m == done + Merge(rest, t, p)
  }

  /** Elements of the first list that the first of the second does not go in front of. */
  method SkipLess(l: List, x: List, start: Node, ix: Node, p: Comparator, ghost done0: seq<Node>,
                  ghost rest0: seq<Node>, ghost t: seq<Node>,
                  ghost all: set<Node>, ghost m: seq<Node>)
    returns (b: Node, ghost done: seq<Node>, ghost rest: seq<Node>)
    requires MergeAt(l, done0, rest0, x, t, all, m, p) && t != [] && start == First(l, rest0) && ix == t[0]
    ensures MergeAt(l, done, rest, x, t, all, m, p) && b == First(l, rest) && (rest != [] ==> p(t[0].key, rest[0].key))
    ensures done + rest == done0 + rest0 && |rest| <= |rest0|
  {
    b, done, rest := start, done0, rest0;
    FirstIsEnd(l, done, rest);
    while b != l.root && !p(ix.key, b.key)
      invariant MergeAt(l, done, rest, x, t, all, m, p) && b == First(l, rest) && done + rest == done0 + rest0
      invariant (b == l.root <==> rest == []) && |rest| <= |rest0|
      decreases |rest|
    {
      NodeNext(l, done, rest);
      b := b.next;
      assert done + rest == (done + [rest[0]]) + rest[1..];
      assert done + ([rest[0]] + Merge(rest[1..], t, p)) == (done + [rest[0]]) + Merge(rest[1..], t, p);
      done, rest := done + [rest[0]], rest[1..];
      FirstIsEnd(l, done, rest);
    }
  }

  lemma FirstIsEnd(l: List, done: seq<Node>, rest: seq<Node>)
    requires l.Holds(done + rest)
    ensures First(l, rest) == l.root <==> rest == []
  {
    var c := [l.root] + (done + rest);
    if rest != [] {
      assert c[|done| + 1] != c[0];
    }
  }

  lemma NodeNext(l: List, done: seq<Node>, rest: seq<Node>)
    requires l.Holds(done + rest) && rest != []
    ensures rest[0].next == First(l, rest[1..])
  {
    var c := [l.root] + (done + rest);
    RingLinks(c, |done| + 1);
  }

  lemma RunNext(x: List, t: seq<Node>, n: nat)
    requires x.Holds(t) && n <= |t|
    ensures First(x, t[n..]) == if n < |t| then t[n] else x.root
    ensures First(x, t[n..]) == x.root <==> n == |t|
    ensures n < |t| ==> t[n].next == First(x, t[n + 1..])
  {
    var c := [x.root] + t;
    if n < |t| {
      assert c[n + 1] != c[0];
      RingLinks(c, n + 1);
    }
  }

  /** The elements of the second list that go in front of the next one of the first. */
  method CountLess(x: List, b: Node, start: Node, p: Comparator, ghost t: seq<Node>) returns (ix: Node, n: nat)
    requires x.Holds(t) && t != [] && start == t[0] && p(t[0].key, b.key)
    ensures 0 < n <= |t| && ix == First(x, t[n..]) && forall i :: 0 <= i < n ==> p(t[i].key, b.key)
  {
    hide List.Holds, First;
    RunNext(x, t, 0);
    ix, n := start.next, 1;
    RunNext(x, t, 1);
    while ix != x.root && p(ix.key, b.key)
      invariant 0 < n <= |t| && ix == First(x, t[n..]) && (ix == x.root <==> n == |t|) && (n < |t| ==> ix == t[n])
      invariant forall i :: 0 <= i < n ==> p(t[i].key, b.key)
      decreases |t| - n
    {
      RunNext(x, t, n);
      ix := ix.next;
      n := n + 1;
      RunNext(x, t, n);
    }
  }

  /** A run of elements that go in front of the next one of the first list. */
  lemma {:induction false} MergeChunk(rest: seq<Node>, t: seq<Node>, n: nat, p: Comparator)
    requires rest != [] && n <= |t| && forall i :: 0 <= i < n ==> p(t[i].key, rest[0].key)
    ensures Merge(rest, t, p) == t[..n] + Merge(rest, t[n..], p)
  {
    if n > 0 {
      var u := t[1..];
      MergeChunk(rest, u, n - 1, p);
      assert u[n - 1..] == t[n..];
      var m := Merge(rest, t[n..], p);
      assert [t[0]] + (u[..n - 1] + m) == t[..n] + m;
    } else {
      assert t[0..] == t;
    }
  }

  lemma BothHold(l: List, s: seq<Node>, x: List, t: seq<Node>, all: set<Node>)
    requires TwoLists(l, s, x, t, all)
    ensures l.Holds(s) && x.Holds(t)
  {
    hide Ring, Disjoint;
  }

  /** Moves a run of elements of the second list. */
  method MergeRun(l: List, x: List, b: Node, ix: Node, n: nat, p: Comparator, ghost done: seq<Node>,
                  ghost rest: seq<Node>, ghost t: seq<Node>,
                  ghost all: set<Node>, ghost m: seq<Node>)
    requires MergeAt(l, done, rest, x, t, all, m, p) && rest != [] && b == rest[0]
    requires 0 < n <= |t| && ix == First(x, t[n..]) && forall i :: 0 <= i < n ==> p(t[i].key, b.key)
    modifies l`size, x`size, all
    ensures MergeAt(l, done + t[..n], rest, x, t[n..], all, m, p)
  {
    hide TwoLists, Merge, Ring;
    MergeChunk(rest, t, n, p);
    assert t[..n] + t[n..] == t;
    BothHold(l, done + rest, x, t, all);
    assert done + (t[..n] + Merge(rest, t[n..], p)) == (done + t[..n]) + Merge(rest, t[n..], p);
    RootNext(x, t);
    SpliceFront(l, b, x, x.root.next, ix, n, done, rest, t[..n], t[n..], all);
  }

  /** Moves the first nodes of a list. */
  method SpliceFront(l: List, p: Node, x: List, f: Node, e: Node, n: nat, ghost a: seq<Node>, ghost b: seq<Node>,
                     ghost r: seq<Node>, ghost v: seq<Node>, ghost all: set<Node>)
    requires TwoLists(l, a + b, x, r + v, all) && n == |r|
    requires p == First(l, b) && f == First(x, r + v) && e == First(x, v)
    modifies l`size, x`size, all
    ensures TwoLists(l, a + r + b, x, v, all)
  {
    hide *;
    ghost var none: seq<Node> := [];
    assert none + r + v == r + v && none + v == v;
    Splice(l, p, x, f, e, n, a, b, none, r, v, all);
  }

  /** Moves all elements of the second list into the first; of equivalent elements those of the first come first. */
  method MergeLists(l: List, x: List, p: Comparator, ghost a: seq<Node>, ghost t0: seq<Node>, ghost all: set<Node>)
    requires TwoLists(l, a, x, t0, all)
    modifies l`size, x`size, all
    ensures TwoLists(l, Merge(a, t0, p), x, [], all)
  {
    hide Ring, Merge, Disjoint;
    ghost var done, rest, t, m := [], a, t0, Merge(a, t0, p);
    assert [] + a == a && [] + m == m;
    RootNext(l, a);
    var b: Node := l.root.next;
    var empty := x.Empty(t);
    while !empty
      invariant MergeAt(l, done, rest, x, t, all, m, p) && b == First(l, rest) && (empty <==> t == [])
      decreases |t|
    {
      b, done, rest, t := MergeSome(l, x, b, p, done, rest, t, all, m);
      empty := x.Empty(t);
    }
    MergeNone(rest, p);
  }

  lemma MergeNone(rest: seq<Node>, p: Comparator)
    ensures Merge(rest, [], p) == rest
  {
  }

  /** One turn: a run of the second list goes to its place, or all of it to the end. */
  method MergeSome(l: List, x: List, start: Node, p: Comparator, ghost done0: seq<Node>, ghost rest0: seq<Node>,
                   ghost t0: seq<Node>,
                   ghost all: set<Node>, ghost m: seq<Node>)
    returns (b: Node, ghost done: seq<Node>, ghost rest: seq<Node>, ghost t: seq<Node>)
    requires MergeAt(l, done0, rest0, x, t0, all, m, p) && start == First(l, rest0) && t0 != []
    modifies l`size, x`size, all
    ensures MergeAt(l, done, rest, x, t, all, m, p) && b == First(l, rest) && |t| < |t0|
  {
    hide Ring, Disjoint;
    RootNext(x, t0);
    var ix: Node := x.root.next;
    b, done, rest := SkipLess(l, x, start, ix, p, done0, rest0, t0, all, m);
    FirstIsEnd(l, done, rest);
    if b == l.root {
      assert done + rest == done;
      MergeTail(l, x, done, t0, all);
      done, t := done + t0, [];
      assert done + [] == done;
    } else {
      var n;
      ix, n := CountLess(x, b, ix, p, t0);
      MergeRun(l, x, b, ix, n, p, done, rest, t0, all, m);
      done, t := done + t0[..n], t0[n..];
    }
  }

  /** Moves all that is left to the end. */
  method MergeTail(l: List, x: List, ghost done: seq<Node>, ghost t: seq<Node>, ghost all: set<Node>)
    requires TwoLists(l, done, x, t, all)
    modifies l`size, x`size, all
    ensures TwoLists(l, done + t, x, [], all)
  {
    var empty := x.Empty(t);
    if !empty {
      RootNext(x, t);
      assert done + [] == done && t + [] == t && done + t + [] == done + t;
      SpliceFront(l, l.root, x, x.root.next, x.root, x.size, done, [], t, [], all);
    } else {
      assert done + t == done;
    }
  }

  /** The two lists exchange their contents. */
  method Swap(l: List, x: List, ghost s: seq<Node>, ghost t: seq<Node>, ghost all: set<Node>)
    requires TwoLists(l, s, x, t, all)
    modifies l`size, x`size, all
    ensures TwoLists(l, t, x, s, all)
  {
    ghost var a, b := [l.root], [x.root];
    assert l.root in a + s && x.root in b + t;
    assert forall n <- s :: n in a + s;
    assert forall n <- t :: n in b + t;
    DistinctParts(a, s);
    DistinctParts(b, t);
    DisjointJoin(a, s, b + t);
    DisjointJoin(b, t, a);
    DisjointJoin(b, t, s);
    DisjointFlip(a, s);
    DisjointFlip(s, t);
    DisjointFlip(a, t);
    DisjointFlip(s, b);
    DisjointFlip(b, t);
    DisjointFlip(a, b);
    SwapNodes(l.root, x.root, s, t, false, false, false);
    l.size, x.size := x.size, l.size;
    DisjointJoin(a, t, b + s);
    DisjointJoin(b, s, a);
    DisjointJoin(b, s, t);
  }

  // ----------------------------------------------------------- many lists at once

  /** The nodes of list `i`, with its end. */
  ghost function RingOf(ls: seq<List>, cs: Slots, i: nat): seq<Node>
    requires i < |ls| == |cs|
  {
    [ls[i].root] + cs[i]
  }

  ghost predicate Within(c: seq<Node>, all: set<Node>)
  {
    forall n <- c :: n in all
  }

  /** The lists are different ones and have no nodes in common. */
  ghost predicate AllApart(ls: seq<List>, cs: Slots)
    requires |ls| == |cs|
  {
    forall i, j :: 0 <= i < |ls| && 0 <= j < |ls| && i != j ==>
        ls[i] != ls[j] && Disjoint(RingOf(ls, cs, i), RingOf(ls, cs, j))
  }

  /** The contents of the lists `ls` are `cs`. */
  ghost predicate Family(ls: seq<List>, cs: Slots, all: set<Node>)
    reads ls, all
  {
    && |ls| == |cs| && AllApart(ls, cs)
    && forall i :: 0 <= i < |ls| ==> Within(RingOf(ls, cs, i), all) && Holding(ls[i], cs[i], all)
  }

  ghost predicate Holding(l: List, s: seq<Node>, all: set<Node>)
    requires Within([l.root] + s, all)
    reads l, all
  {
    assert l.root in [l.root] + s && forall n <- s :: n in [l.root] + s;
    l.Holds(s)
  }

  /** The nodes of two lists of the family. */
  ghost function Both(a: seq<Node>, b: seq<Node>): set<Node>
  {
    (set n | n in a) + (set n | n in b)
  }

  lemma FamilyTwo(ls: seq<List>, cs: Slots, all: set<Node>, i: nat, j: nat)
    requires Family(ls, cs, all) && i < |ls| && j < |ls| && i != j
    ensures TwoLists(ls[i], cs[i], ls[j], cs[j], Both(RingOf(ls, cs, i), RingOf(ls, cs, j)))
    ensures Both(RingOf(ls, cs, i), RingOf(ls, cs, j)) <= all
  {
    assert Holding(ls[i], cs[i], all) && Holding(ls[j], cs[j], all);
  }

  /** The other lists do not notice what happens to two of them. */
  ghost predicate Others(ls: seq<List>, cs: Slots, i: nat, j: nat, both: set<Node>)
    requires |ls| == |cs|
  {
    forall k :: 0 <= k < |ls| && k != i && k != j ==> forall m ::
        0 <= m < |RingOf(ls, cs, k)| ==> RingOf(ls, cs, k)[m] !in both
  }

  lemma OthersApart(ls: seq<List>, cs: Slots, i: nat, j: nat)
    requires |ls| == |cs| && AllApart(ls, cs) && i < |ls| && j < |ls|
    ensures Others(ls, cs, i, j, Both(RingOf(ls, cs, i), RingOf(ls, cs, j)))
  {
    forall k, m | 0 <= k < |ls| && k != i && k != j && 0 <= m < |RingOf(ls, cs, k)|
      ensures RingOf(ls, cs, k)[m] !in Both(RingOf(ls, cs, i), RingOf(ls, cs, j))
    {
      assert Disjoint(RingOf(ls, cs, k), RingOf(ls, cs, i)) && Disjoint(RingOf(ls, cs, k), RingOf(ls, cs, j));
    }
  }

  /** New contents of two lists, made of their old nodes. */
  lemma ApartAgain(ls: seq<List>, cs: Slots, i: nat, c: seq<Node>, j: nat, d: seq<Node>, both: set<Node>)
    requires |ls| == |cs| && AllApart(ls, cs) && i < |ls| && j < |ls| && i != j && Others(ls, cs, i, j, both)
    requires Within([ls[i].root] + c, both) && Within([ls[j].root] + d, both)
        && Disjoint([ls[i].root] + c, [ls[j].root] + d)
    ensures AllApart(ls, cs[i := c][j := d])
  {
    var cs' := cs[i := c][j := d];
    forall k, m | 0 <= k < |ls| && 0 <= m < |ls| && k != m ensures ls[k] != ls[m]
        && Disjoint(RingOf(ls, cs', k), RingOf(ls, cs', m)) {
      ApartPair(ls, cs, i, c, j, d, both, k, m);
    }
  }

  lemma ApartPair(ls: seq<List>, cs: Slots, i: nat, c: seq<Node>, j: nat, d: seq<Node>, both: set<Node>, k: nat, m: nat)
    requires |ls| == |cs| && AllApart(ls, cs) && i < |ls| && j < |ls| && i != j && Others(ls, cs, i, j, both)
    requires Within([ls[i].root] + c, both) && Within([ls[j].root] + d, both)
        && Disjoint([ls[i].root] + c, [ls[j].root] + d)
    requires k < |ls| && m < |ls| && k != m
    ensures var cs' := cs[i := c][j := d]; Disjoint(RingOf(ls, cs', k), RingOf(ls, cs', m))
  {
    var cs' := cs[i := c][j := d];
    if k == i && m == j {
    } else if k == j && m == i {
      DisjointFlip([ls[i].root] + c, [ls[j].root] + d);
    } else if k != i && k != j && m != i && m != j {
      assert Disjoint(RingOf(ls, cs, k), RingOf(ls, cs, m));
    } else if k == i || k == j {
      OneAside(RingOf(ls, cs', k), RingOf(ls, cs, m), both);
      DisjointFlip(RingOf(ls, cs, m), RingOf(ls, cs', k));
    } else {
      OneAside(RingOf(ls, cs', m), RingOf(ls, cs, k), both);
    }
  }

  lemma OneAside(a: seq<Node>, b: seq<Node>, both: set<Node>)
    requires Within(a, both) && forall m :: 0 <= m < |b| ==> b[m] !in both
    ensures Disjoint(b, a)
  {
  }

  lemma OtherHolds(ls: seq<List>, cs: Slots, all: set<Node>, i: nat, j: nat, both: set<Node>, k: nat)
    requires Family(ls, cs, all) && Others(ls, cs, i, j, both) && k < |ls| && k != i && k != j && i < |ls| && j < |ls|
    ensures ls[k].Holds(cs[k]) && ls[k].root !in both && (forall n <- cs[k] :: n !in both) && ls[k] != ls[i]
        && ls[k] != ls[j]
  {
    var c := RingOf(ls, cs, k);
    assert Holding(ls[k], cs[k], all);
    assert c[0] == ls[k].root;
    forall n | n in cs[k] ensures n !in both {
      var m :| 0 <= m < |cs[k]| && cs[k][m] == n;
      assert c[m + 1] == n;
    }
  }

  lemma FamilyAgain(ls: seq<List>, cs: Slots, all: set<Node>, i: nat, c: seq<Node>, j: nat, d: seq<Node>,
                    both: set<Node>)
    requires |ls| == |cs| && AllApart(ls, cs) && i < |ls| && j < |ls| && i != j && Others(ls, cs, i, j, both)
        && both <= all
    requires TwoLists(ls[i], c, ls[j], d, both)
    requires forall k :: 0 <= k < |ls| && k != i && k != j ==> ls[k].Holds(cs[k]) && Within(RingOf(ls, cs, k), all)
    ensures Family(ls, cs[i := c][j := d], all)
  {
    ApartAgain(ls, cs, i, c, j, d, both);
    var cs' := cs[i := c][j := d];
    forall k | 0 <= k < |ls| ensures Within(RingOf(ls, cs', k), all) && ls[k].Holds(cs'[k]) {
      if k != i && k != j {
        assert RingOf(ls, cs', k) == RingOf(ls, cs, k);
      }
    }
  }

  /** Before something is done to two lists of a family. */
  lemma FamilyOpens(ls: seq<List>, cs: Slots, all: set<Node>, i: nat, j: nat)
    requires Family(ls, cs, all) && i < |ls| && j < |ls| && i != j
    ensures var both := Both(RingOf(ls, cs, i), RingOf(ls, cs, j));
      && TwoLists(ls[i], cs[i], ls[j], cs[j], both) && both <= all && Others(ls, cs, i, j, both) && AllApart(ls, cs)
      && forall k :: 0 <= k < |ls| && k != i && k != j ==>
           && Within(RingOf(ls, cs, k), all) && ls[k].Holds(cs[k])
           && ls[k].root !in both && (forall n <- cs[k] :: n !in both) && ls[k] != ls[i] && ls[k] != ls[j]
  {
    var both := Both(RingOf(ls, cs, i), RingOf(ls, cs, j));
    FamilyTwo(ls, cs, all, i, j);
    OthersApart(ls, cs, i, j);
    forall k | 0 <= k < |ls| && k != i && k != j
      ensures ls[k].Holds(cs[k]) && ls[k].root !in both && (forall n <- cs[k] :: n !in both) && ls[k] != ls[i]
          && ls[k] != ls[j]
    {
      OtherHolds(ls, cs, all, i, j, both, k);
    }
  }

  /** Merges one list of the family into another. */
  method MergeSlots(l: List, x: List, p: Comparator, ghost ls: seq<List>, ghost cs: Slots, ghost all: set<Node>,
                    ghost i: nat, ghost j: nat)
    requires Family(ls, cs, all) && |ls| == |cs| && i < |ls| && j < |ls| && i != j && l == ls[i] && x == ls[j]
    modifies ls, all
    ensures Family(ls, cs[i := Merge(cs[i], cs[j], p)][j := []], all)
  {
    hide *;
    ghost var both := Both(RingOf(ls, cs, i), RingOf(ls, cs, j));
    FamilyOpens(ls, cs, all, i, j);
    MergeLists(l, x, p, cs[i], cs[j], both);
    FamilyAgain(ls, cs, all, i, Merge(cs[i], cs[j], p), j, [], both);
  }

  /** Two lists of the family exchange their contents. */
  method SwapSlots(l: List, x: List, ghost ls: seq<List>, ghost cs: Slots, ghost all: set<Node>, ghost i: nat,
                   ghost j: nat)
    requires Family(ls, cs, all) && |ls| == |cs| && i < |ls| && j < |ls| && i != j && l == ls[i] && x == ls[j]
    modifies ls, all
    ensures Family(ls, cs[i := cs[j]][j := cs[i]], all)
  {
    hide *;
    ghost var both := Both(RingOf(ls, cs, i), RingOf(ls, cs, j));
    FamilyOpens(ls, cs, all, i, j);
    Swap(l, x, cs[i], cs[j], both);
    FamilyAgain(ls, cs, all, i, cs[j], j, cs[i], both);
  }

  /** The first element of one list goes to another, empty one. */
  method TakeFirst(l: List, x: List, ghost ls: seq<List>, ghost cs: Slots, ghost all: set<Node>, ghost i: nat,
                   ghost j: nat)
    requires Family(ls, cs, all) && |ls| == |cs| && i < |ls| && j < |ls| && i != j && l == ls[i] && x == ls[j]
        && cs[i] == [] && cs[j] != []
    modifies ls, all
    ensures Family(ls, cs[i := [cs[j][0]]][j := cs[j][1..]], all)
  {
    hide *;
    ghost var both := Both(RingOf(ls, cs, i), RingOf(ls, cs, j));
    FamilyOpens(ls, cs, all, i, j);
    SpliceFirst(l, x, cs[j], both);
    FamilyAgain(ls, cs, all, i, [cs[j][0]], j, cs[j][1..], both);
  }

  /** Moves the first element of a list to the front of an empty one. */
  method SpliceFirst(l: List, x: List, ghost t: seq<Node>, ghost all: set<Node>)
    requires TwoLists(l, [], x, t, all) && t != []
    modifies l`size, x`size, all
    ensures TwoLists(l, [t[0]], x, t[1..], all)
  {
    RootNext(l, []);
    RootNext(x, t);
    ghost var a, g, v := [l.root], [x.root], t[1..];
    assert [t[0]] + v == t && a + [] == a && g + ([t[0]] + v) == g + [t[0]] + v == [x.root] + t;
    MoveApart(a, [], g, [t[0]], v);
    ghost var none: seq<Node> := [];
    assert none + [t[0]] + v == t && g + none == g;
    SpliceNodes(l, none, none, x, none, [t[0]], v, all);
    var p: Node, i: Node := l.root.next, x.root.next;
    TransferOne(p, i, a, [], g, v);
    assert a + [t[0]] + [] == [l.root] + [t[0]];
    x.size := x.size - 1;
    l.size := l.size + 1;
  }

  // -------------------------------------------------------------------- sorting

  const SLOTS: nat := 64

  /** What the list to be sorted, the carry and the slots hold. */
  ghost function Layout(rest: seq<Node>, car: seq<Node>, slots: Slots): (cs: Slots)
    requires |slots| <= SLOTS
    ensures |cs| == SLOTS + 2 && cs[0] == rest && cs[1] == car
    ensures forall i :: 0 <= i < SLOTS ==> cs[i + 2] == if i < |slots| then slots[i] else []
  {
    [rest, car] + slots + seq(SLOTS - |slots|, _ => [])
  }

  /** The list, the carry and the slots. */
  ghost predicate Roster(ls: seq<List>, l: List, carry: List, counter: array<List>)
    reads counter
  {
    counter.Length == SLOTS && ls == [l, carry] + counter[..]
  }

  lemma RosterAt(ls: seq<List>, l: List, carry: List, counter: array<List>)
    requires Roster(ls, l, carry, counter)
    ensures counter.Length == SLOTS && |ls| == SLOTS + 2 && ls[0] == l && ls[1] == carry
    ensures forall i :: 0 <= i < SLOTS ==> ls[i + 2] == counter[i]
  {
  }

  lemma FamilyHolds(ls: seq<List>, cs: Slots, all: set<Node>, i: nat)
    requires Family(ls, cs, all) && i < |ls|
    ensures |ls| == |cs| && ls[i].Holds(cs[i])
  {
    assert Holding(ls[i], cs[i], all);
  }

  lemma SameLayout(cs: Slots, rest: seq<Node>, car: seq<Node>, slots: Slots)
    requires |slots| <= SLOTS && |cs| == SLOTS + 2 && cs[0] == rest && cs[1] == car
    requires forall i :: 0 <= i < SLOTS ==> cs[i + 2] == if i < |slots| then slots[i] else []
    ensures cs == Layout(rest, car, slots)
  {
    var d := Layout(rest, car, slots);
    forall i | 0 <= i < |cs| ensures cs[i] == d[i] {
      if i >= 2 {
        var j := i - 2;
        assert j + 2 == i && cs[j + 2] == d[j + 2];
      }
    }
    assert cs == d;
  }

  /** A slot in use is merged with the carry, and the result is the new carry. */
  method CarryOne(carry: List, slot: List, p: Comparator, ghost ls: seq<List>, ghost all: set<Node>, ghost i: nat,
                  ghost rest: seq<Node>, ghost car: seq<Node>, ghost slots: Slots)
    requires i < |slots| <= SLOTS && |ls| == SLOTS + 2 && Family(ls, Layout(rest, car, slots), all)
    requires carry == ls[1] && slot == ls[i + 2]
    modifies ls, all
    ensures Family(ls, Layout(rest, Merge(slots[i], car, p), slots[i := []]), all)
  {
    hide Family;
    ghost var cs := Layout(rest, car, slots);
    ghost var m := Merge(slots[i], car, p);
    MergeSlots(slot, carry, p, ls, cs, all, i + 2, 1);
    ghost var cs1 := cs[i + 2 := m][1 := []];
    SwapSlots(carry, slot, ls, cs1, all, 1, i + 2);
    SameLayout(cs1[1 := m][i + 2 := []], rest, m, slots[i := []]);
  }

  /** An empty slot takes the carry. */
  method CarryEnds(carry: List, slot: List, ghost ls: seq<List>, ghost all: set<Node>, ghost i: nat,
                   ghost rest: seq<Node>, ghost car: seq<Node>, ghost slots: Slots)
    requires i <= |slots| <= SLOTS && i < SLOTS && (i < |slots| ==> slots[i] == [])
    requires |ls| == SLOTS + 2 && Family(ls, Layout(rest, car, slots), all) && carry == ls[1] && slot == ls[i + 2]
    modifies ls, all
    ensures Family(ls, Layout(rest, [], if i == |slots| then slots + [car] else slots[i := car]), all)
  {
    hide Family;
    ghost var cs := Layout(rest, car, slots);
    SwapSlots(carry, slot, ls, cs, all, 1, i + 2);
    assert cs[i + 2] == [];
    SameLayout(cs[1 := []][i + 2 := car], rest, [], if i == |slots| then slots + [car] else slots[i := car]);
  }

  lemma CarryStep(slots: Slots, car: seq<Node>, i: nat, p: Comparator)
    requires i < |slots| && slots[i] != []
    ensures CarryIn(slots, car, i, p) == CarryIn(slots[i := []], Merge(slots[i], car, p), i + 1, p)
  {
  }

  lemma CarryStop(slots: Slots, car: seq<Node>, i: nat, p: Comparator)
    requires i <= |slots| && (i < |slots| ==> slots[i] == [])
    ensures CarryIn(slots, car, i, p) == if i == |slots| then slots + [car] else slots[i := car]
  {
  }

  /** The carry goes from slot to slot until it meets an empty one; never beyond the last of them. */
  method CarryAll(l: List, carry: List, counter: array<List>, fill: nat, p: Comparator, ghost ls: seq<List>,
                  ghost all: set<Node>,
                  ghost rest: seq<Node>, ghost car0: seq<Node>, ghost slots0: Slots)
    returns (fill': nat)
    requires Roster(ls, l, carry, counter) && fill == |slots0| && |slots0| <= SLOTS
        && |CarryIn(slots0, car0, 0, p)| <= SLOTS
    requires Family(ls, Layout(rest, car0, slots0), all)
    modifies ls, all
    ensures fill' == |CarryIn(slots0, car0, 0, p)| && Family(ls, Layout(rest, [], CarryIn(slots0, car0, 0, p)), all)
  {
    hide Family, Layout, Merge, CarryIn, List.Holds;
    ghost var car, slots := car0, slots0;
    RosterAt(ls, l, carry, counter);
    var i := 0;
    while true
      invariant i <= fill == |slots| <= SLOTS && CarryIn(slots, car, i, p) == CarryIn(slots0, car0, 0, p)
      invariant Family(ls, Layout(rest, car, slots), all)
      decreases fill - i
    {
      if i < fill {
        FamilyHolds(ls, Layout(rest, car, slots), all, i + 2);
        var empty := counter[i].Empty(slots[i]);
        if empty {
          break;
        }
      } else {
        break;
      }
      CarryStep(slots, car, i, p);
      CarryOne(carry, counter[i], p, ls, all, i, rest, car, slots);
      car, slots := Merge(slots[i], car, p), slots[i := []];
      i := i + 1;
    }
    CarryStop(slots, car, i, p);
    CarryEnds(carry, counter[i], ls, all, i, rest, car, slots);
    fill' := if i == fill then fill + 1 else fill;
  }

  lemma FirstTaken(cs: Slots, s: seq<Node>, k: nat, slots: Slots)
    requires k < |s| && |slots| <= SLOTS && cs == Layout(s[k..], [], slots)
    ensures cs[0] == s[k..] && cs[0][0] == s[k] && cs[0][1..] == s[k + 1..] && cs[1] == []
    ensures cs[1 := [s[k]]][0 := s[k + 1..]] == Layout(s[k + 1..], [s[k]], slots)
  {
    hide Layout;
    var cs' := cs[1 := [s[k]]][0 := s[k + 1..]];
    forall i | 0 <= i < SLOTS ensures cs'[i + 2] == if i < |slots| then slots[i] else [] {
      LayoutAt(s[k..], [], slots, i);
    }
    SameLayout(cs', s[k + 1..], [s[k]], slots);
  }

  lemma CountedSlots(s: seq<Node>, k: nat, p: Comparator)
    requires k <= |s|
    ensures Counted(s, k, p) == if k == 0 then [] else CarryIn(Counted(s, k - 1, p), [s[k - 1]], 0, p)
  {
  }

  /** Takes the first element from the list, and carries it into the slots. */
  method CountOne(l: List, carry: List, counter: array<List>, fill: nat, p: Comparator, ghost s: seq<Node>,
                  ghost k: nat,
                  ghost ls: seq<List>, ghost all: set<Node>, ghost slots: Slots)
    returns (fill': nat)
    requires Roster(ls, l, carry, counter) && k < |s| < Pow2(SLOTS) && slots == Counted(s, k, p)
        && fill == |slots| <= SLOTS
    requires Family(ls, Layout(s[k..], [], slots), all)
    modifies ls, all
    ensures fill' == |Counted(s, k + 1, p)| <= SLOTS && Family(ls, Layout(s[k + 1..], [], Counted(s, k + 1, p)), all)
  {
    hide Family, Layout, Counted, CarryIn, Pow2, Roster;
    ghost var cs := Layout(s[k..], [], slots);
    RosterAt(ls, l, carry, counter);
    CountedSlots(s, k + 1, p);
    FirstTaken(cs, s, k, slots);
    TakeFirst(carry, l, ls, cs, all, 1, 0);
    SlotsSuffice(s, k + 1, p);
    fill' := CarryAll(l, carry, counter, fill, p, ls, all, s[k + 1..], [s[k]], slots);
  }

  /** Takes the elements from the list one by one, and counts them into the slots. */
  method CountIn(l: List, carry: List, counter: array<List>, p: Comparator, ghost s: seq<Node>, ghost ls: seq<List>,
                 ghost all: set<Node>)
    returns (fill: nat)
    requires Roster(ls, l, carry, counter) && |s| < Pow2(SLOTS) && Family(ls, Layout(s, [], []), all)
    modifies ls, all
    ensures fill == |Counted(s, |s|, p)| && fill <= SLOTS && Family(ls, Layout([], [], Counted(s, |s|, p)), all)
  {
    hide Family, CarryIn, Pow2, Layout, Counted, List.Holds;
    fill := 0;
    CountedSlots(s, 0, p);
    ghost var k, slots := 0, [];
    assert s[0..] == s;
    RosterAt(ls, l, carry, counter);
    FamilyHolds(ls, Layout(s, [], []), all, 0);
    var empty := l.Empty(s);
    while !empty
      invariant k <= |s| && slots == Counted(s, k, p) && fill == |slots| && |slots| <= SLOTS && (empty <==> k == |s|)
      invariant Family(ls, Layout(s[k..], [], slots), all)
      decreases |s| - k
    {
      fill := CountOne(l, carry, counter, fill, p, s, k, ls, all, slots);
      k := k + 1;
      slots := Counted(s, k, p);
      FamilyHolds(ls, Layout(s[k..], [], slots), all, 0);
      empty := l.Empty(s[k..]);
    }
    assert s[k..] == [];
  }

  /** The slots when those up to `i` have been merged into slot `i`. */
  ghost function Folded(slots: Slots, i: nat, p: Comparator): (r: Slots)
    requires i < |slots|
    ensures |r| == |slots|
    ensures forall j :: 0 <= j < |slots| ==> r[j] == if j < i then [] else if j == i then Collapsed(slots, i, p)
        else slots[j]
  {
    seq(|slots|, j requires 0 <= j < |slots| => if j < i then [] else if j == i then Collapsed(slots, i, p)
        else slots[j])
  }

  method FoldOne(slot: List, below: List, p: Comparator, ghost ls: seq<List>, ghost all: set<Node>, ghost i: nat,
                 ghost slots: Slots)
    requires 0 < i < |slots| <= SLOTS && |ls| == SLOTS + 2 && Family(ls, Layout([], [], Folded(slots, i - 1, p)), all)
    requires slot == ls[i + 2] && below == ls[i + 1]
    modifies ls, all
    ensures Family(ls, Layout([], [], Folded(slots, i, p)), all)
  {
    hide Family, Layout, Merge;
    ghost var cs := Layout([], [], Folded(slots, i - 1, p));
    assert cs[(i - 1) + 2] == Folded(slots, i - 1, p)[i - 1];
    MergeSlots(slot, below, p, ls, cs, all, i + 2, i + 1);
    assert cs[i + 2] == slots[i] && cs[i + 1] == Collapsed(slots, i - 1, p);
    FoldLayout(cs, i, slots, p);
  }

  lemma LayoutAt(rest: seq<Node>, car: seq<Node>, slots: Slots, i: nat)
    requires |slots| <= SLOTS && i < SLOTS
    ensures Layout(rest, car, slots)[i + 2] == if i < |slots| then slots[i] else []
  {
  }

  lemma FoldedAt(slots: Slots, i: nat, p: Comparator, j: nat)
    requires 0 < i < |slots|
    ensures j < |slots| && j != i && j != i - 1 ==> Folded(slots, i, p)[j] == Folded(slots, i - 1, p)[j]
    ensures Folded(slots, i, p)[i - 1] == [] && Folded(slots, i - 1, p)[i] == slots[i]
    ensures Folded(slots, i, p)[i] == Merge(slots[i], Folded(slots, i - 1, p)[i - 1], p)
  {
    hide Merge;
  }

  lemma FoldLayout(cs: Slots, i: nat, slots: Slots, p: Comparator)
    requires 0 < i < |slots| <= SLOTS && cs == Layout([], [], Folded(slots, i - 1, p))
    ensures cs[i + 2 := Merge(slots[i], cs[i + 1], p)][i + 1 := []] == Layout([], [], Folded(slots, i, p))
  {
    hide Layout, Folded, Merge;
    var cs' := cs[i + 2 := Merge(slots[i], cs[i + 1], p)][i + 1 := []];
    LayoutAt([], [], Folded(slots, i - 1, p), i - 1);
    var folded := Folded(slots, i, p);
    forall j | 0 <= j < SLOTS ensures cs'[j + 2] == if j < |folded| then folded[j] else [] {
      LayoutAt([], [], Folded(slots, i - 1, p), j);
      FoldedAt(slots, i, p, j);
    }
    SameLayout(cs', [], [], folded);
  }

  lemma FoldedFirst(slots: Slots, p: Comparator)
    requires slots != []
    ensures Folded(slots, 0, p) == slots
  {
  }

  lemma FoldedLast(cs: Slots, slots: Slots, p: Comparator)
    requires 0 < |slots| <= SLOTS && cs == Layout([], [], Folded(slots, |slots| - 1, p))
    ensures |cs| == SLOTS + 2 && cs[|slots| + 1] == Collapsed(slots, |slots| - 1, p) && cs[0] == []
  {
    hide Layout;
    assert cs[(|slots| - 1) + 2] == Folded(slots, |slots| - 1, p)[|slots| - 1];
  }

  /** Merges every slot into the next, and puts the result back into the list. */
  method FoldAll(l: List, carry: List, counter: array<List>, fill: nat, p: Comparator, ghost ls: seq<List>,
                 ghost all: set<Node>, ghost slots: Slots)
    requires Roster(ls, l, carry, counter) && 0 < fill == |slots| && |slots| <= SLOTS
        && Family(ls, Layout([], [], slots), all)
    modifies ls, all
    ensures l.Holds(Collapsed(slots, fill - 1, p))
  {
    hide Family, Layout, Merge, Folded, Collapsed, List.Holds, Roster;
    RosterAt(ls, l, carry, counter);
    FoldedFirst(slots, p);
    for i := 1 to fill
      invariant Family(ls, Layout([], [], Folded(slots, i - 1, p)), all)
    {
      assert ls[(i - 1) + 2] == counter[i - 1];
      FoldOne(counter[i], counter[i - 1], p, ls, all, i, slots);
    }
    ghost var cs, r := Layout([], [], Folded(slots, fill - 1, p)), Collapsed(slots, fill - 1, p);
    FoldedLast(cs, slots, p);
    SwapSlots(l, counter[fill - 1], ls, cs, all, 0, fill + 1);
    FamilyHolds(ls, cs[0 := r][fill + 1 := []], all, 0);
  }

  /** A new list joins the family. */
  method AddList(key: Key, ghost ls: seq<List>, ghost cs: Slots, ghost all: set<Node>) returns (x: List)
    requires Family(ls, cs, all)
    ensures fresh(x) && fresh(x.root) && Family(ls + [x], cs + [[]], all + {x.root})
  {
    forall i | 0 <= i < |ls| ensures ls[i].Holds(cs[i]) && Within(RingOf(ls, cs, i), all) {
      FamilyHolds(ls, cs, all, i);
    }
    x := new List(key);
    ghost var ls', cs', all' := ls + [x], cs + [[]], all + {x.root};
    forall i | 0 <= i < |ls'| ensures Within(RingOf(ls', cs', i), all') && ls'[i].Holds(cs'[i]) {
      if i < |ls| {
        assert RingOf(ls', cs', i) == RingOf(ls, cs, i);
      }
    }
    AddApart(ls, cs, all, x);
  }

  lemma AddApart(ls: seq<List>, cs: Slots, all: set<Node>, x: List)
    requires |ls| == |cs| && AllApart(ls, cs) && x !in ls && x.root !in all
    requires forall i :: 0 <= i < |ls| ==> Within(RingOf(ls, cs, i), all)
    ensures AllApart(ls + [x], cs + [[]])
  {
    var ls', cs' := ls + [x], cs + [[]];
    forall i, j | 0 <= i < |ls'| && 0 <= j < |ls'| && i != j
      ensures ls'[i] != ls'[j] && Disjoint(RingOf(ls', cs', i), RingOf(ls', cs', j))
    {
      if i < |ls| {
        assert RingOf(ls', cs', i) == RingOf(ls, cs, i);
      }
      if j < |ls| {
        assert RingOf(ls', cs', j) == RingOf(ls, cs, j);
      }
    }
  }

  /** Sorts the list; of equivalent elements those that came first come first. */
  method Sort(l: List, p: Comparator, ghost s: seq<Node>)
    requires l.Holds(s) && |s| < Pow2(SLOTS)
    modifies l, l.root, s
    ensures l.Holds(SortResult(s, p))
    ensures StrictWeakOrder(p) ==> Sorted(SortResult(s, p), p) && Stable(SortResult(s, p), s, p)
  {
    hide Pow2, Sorted, Stable, SortResult, StrictWeakOrder;
    if StrictWeakOrder(p) {
      SortIsStable(s, p);
    }
    RingLinks([l.root] + s, 0);
    if l.root.next != l.root.prev {
      CountedSome(s, p);
      SortLong(l, p, s);
    } else {
      SortShort(l, s, p);
    }
  }

  lemma CountedSome(s: seq<Node>, p: Comparator)
    ensures s != [] ==> Counted(s, |s|, p) != []
  {
    CountedBinary(s, |s|, p);
  }

  lemma SortShort(l: List, s: seq<Node>, p: Comparator)
    requires l.Holds(s) && l.root.next == l.root.prev
    ensures SortResult(s, p) == s
  {
    var c := [l.root] + s;
    RingLinks(c, 0);
    assert |s| <= 1;
    if |s| == 1 {
      assert Counted(s, 0, p) == [];
      assert Counted(s, 1, p) == [] + [[s[0]]];
    }
  }

  /** The list on its own is a family. */
  lemma FamilyOfOne(l: List, s: seq<Node>)
    requires l.Holds(s)
    ensures Family([l], [s], set n | n in [l.root] + s)
  {
    var all := set n | n in [l.root] + s;
    assert RingOf([l], [s], 0) == [l.root] + s;
    assert Holding(l, s, all);
  }

  method SortLong(l: List, p: Comparator, ghost s: seq<Node>)
    requires l.Holds(s) && |s| < Pow2(SLOTS) && Counted(s, |s|, p) != []
    modifies l, l.root, s
    ensures l.Holds(SortResult(s, p))
  {
    hide Pow2, Family, Counted, Collapsed, Layout, Ring, SortResult, Chained, Distinct, Disjoint, AllApart, Merge,
        Sorted;
    FamilyOfOne(l, s);
    ghost var ls: seq<List>, cs, all := [l], [s], set n | n in [l.root] + s;
    var carry := AddList(l.root.key, ls, cs, all);
    ls, cs, all := [l, carry], [s, []], all + {carry.root};
    assert [l] + [carry] == ls && [s] + [[]] == cs;
    var counter := new List[SLOTS](_ => carry);
    for i := 0 to SLOTS
      invariant ls == [l, carry] + counter[..i] && |cs| == i + 2 && cs[0] == s && forall j ::
          1 <= j < i + 2 ==> cs[j] == []
      invariant Family(ls, cs, all) && fresh(set x | x in ls && x != l) && fresh(set n | n in all && n !in [l.root] + s)
    {
      var x := AddList(l.root.key, ls, cs, all);
      counter[i] := x;
      ls, cs, all := ls + [x], cs + [[]], all + {x.root};
    }
    assert counter[..SLOTS] == counter[..];
    SameLayout(cs, s, [], []);
    SortWith(l, carry, counter, p, s, ls, all);
  }

  method SortWith(l: List, carry: List, counter: array<List>, p: Comparator, ghost s: seq<Node>, ghost ls: seq<List>,
                  ghost all: set<Node>)
    requires Roster(ls, l, carry, counter) && |s| < Pow2(SLOTS) && Family(ls, Layout(s, [], []), all)
        && Counted(s, |s|, p) != []
    modifies ls, all
    ensures l.Holds(SortResult(s, p))
  {
    hide Family, Counted, Pow2, Collapsed, Layout;
    var fill := CountIn(l, carry, counter, p, s, ls, all);
    FoldAll(l, carry, counter, fill, p, ls, all, Counted(s, |s|, p));
  }

  // -------------------------------------------------------------------- removal

  /** Unlinks the nodes `r`. */
  method UnlinkRange(b: Node, e: Node, ghost u: seq<Node>, ghost r: seq<Node>, ghost v: seq<Node>)
    requires Ring(u + r + v) && u != [] && e == At(u + v, |u|) && b == if r == [] then e else r[0]
    modifies At(u, |u| - 1), e
    ensures Ring(u + v)
  {
    if r != [] {
      Between(u, r, v);
    } else {
      assert u + r + v == u + v;
    }
    if b != e {
      var prev: Node := b.prev;
      e.prev := prev;
      prev.next := e;
      assert Chained(u) && Chained(v) && Chained(Closing(u, v));
      RingOfParts(u, v);
    }
  }

  /** Removes the elements that satisfy `pred`; when it fails, the list has the same elements as before. */
  method RemoveIf(l: List, pred: Node -> bool, fails: Node -> bool, ghost s: seq<Node>)
    returns (threw: bool, removed: nat, ghost k: nat)
    requires l.Holds(s)
    modifies l, l.root, s
    ensures if threw then k < |s| && fails(s[k]) else k == |s|
    ensures k <= |s| && forall j :: 0 <= j < k ==> !fails(s[j])
    ensures if threw then l.Holds(Partitioned(s, k, pred))
        else l.Holds(Kept(s, Not(pred))) && removed == |Kept(s, pred)|
  {
    hide Kept, Partitioned, Distinct, Chained;
    ghost var u := [l.root];
    RootNext(l, s);
    assert u + s + [] == [l.root] + s;
    var num2, newF;
    threw, removed, num2, newF, k := StablePartition(l.root.next, l.root, pred, fails, u, s, []);
    PartitionedSize(l.root, s, k, pred);
    if threw {
      return;
    }
    EraseFirst(l, newF, removed, Kept(s, pred), Kept(s, Not(pred)));
  }

  lemma PartitionedSize(root: Node, s: seq<Node>, k: nat, pred: Node -> bool)
    requires k <= |s|
    ensures |Partitioned(s, k, pred)| == |s|
        && [root] + Partitioned(s, k, pred) + [] == [root] + Partitioned(s, k, pred)
    ensures k == |s| ==> s[..k] == s && Partitioned(s, k, pred) == Kept(s, pred) + Kept(s, Not(pred))
    ensures Kept(s, Not(pred)) != [] ==> Kept(s, Not(pred))[0] in s
  {
    KeptIn(s, Not(pred));
    PartitionedNodes(s, k, pred);
    assert |multiset(Partitioned(s, k, pred))| == |multiset(s)|;
    assert k == |s| ==> s[..k] == s;
  }

  /** Erases the first `n` elements. */
  method EraseFirst(l: List, e: Node, n: nat, ghost r: seq<Node>, ghost v: seq<Node>)
    requires l.Holds(r + v) && n == |r| && e == First(l, v)
    modifies l, l.root, e
    ensures l.Holds(v)
  {
    RootNext(l, r + v);
    assert [l.root] + (r + v) == [l.root] + r + v;
    l.size := l.size - n;
    UnlinkRange(l.root.next, e, [l.root], r, v);
  }
}

/** Lookups by key: the bounds, what lies between two bounds, and how many nodes are equivalent to a key. */
module Search {
  import opened Ordering
  import opened TreeNodes
  import opened TreeWalk
  import opened Positions

  /** No node is less than one that stands before it. */
  ghost predicate Sorted(comp: Comparator, s: seq<Node>)
  {
    forall i, j :: 0 <= i < j < |s| ==> !comp(s[j].key, s[i].key)
  }

  /** Whatever order `s` is in, `s'` is in it too. */
  ghost predicate OrderKept(s: seq<Node>, s': seq<Node>)
  {
    forall comp: Comparator :: Sorted(comp, s) ==> Sorted(comp, s')
  }

  // ----------------------------------------------------- bounds, by scanning

  /** The nodes satisfying `p` come first. */
  ghost predicate Partitioned(s: seq<Node>, p: Node -> bool)
  {
    forall i, j :: 0 <= i < j < |s| && p(s[j]) ==> p(s[i])
  }

  /** How many nodes a scan passes that stops at the first node without `p`. */
  ghost function Rank(s: seq<Node>, p: Node -> bool): nat
  {
    if s == [] || !p(s[0]) then 0 else 1 + Rank(s[1..], p)
  }

  /** The node such a scan stops at. */
  ghost function Bound(s: seq<Node>, p: Node -> bool, header: Node): Node
  {
    NodeAt(s, Rank(s, p), header)
  }

  /** The nodes a lower bound is after. */
  ghost function Less(comp: Comparator, key: Key): Node -> bool
  {
    (n: Node) => comp(n.key, key)
  }

  /** The nodes an upper bound is after. */
  ghost function NotGreater(comp: Comparator, key: Key): Node -> bool
  {
    (n: Node) => !comp(key, n.key)
  }

  lemma LessPartitions(comp: Comparator, s: seq<Node>, key: Key)
    requires StrictWeakOrder(comp) && Sorted(comp, s)
    ensures Partitioned(s, Less(comp, key)) && Partitioned(s, NotGreater(comp, key))
  {
  }

  lemma {:induction false} RankFacts(s: seq<Node>, p: Node -> bool)
    ensures Rank(s, p) <= |s| && (Rank(s, p) < |s| ==> !p(s[Rank(s, p)]))
    ensures forall i :: 0 <= i < Rank(s, p) ==> p(s[i])
  {
    if s != [] && p(s[0]) {
      RankFacts(s[1..], p);
    }
  }

  /** A scan is cut short exactly where `p` stops to hold. */
  lemma {:induction false} RankIs(b: seq<Node>, a: seq<Node>, p: Node -> bool)
    requires forall n <- b :: p(n)
    requires a != [] ==> !p(a[0])
    ensures Rank(b + a, p) == |b|
  {
    if b == [] {
      assert b + a == a;
    } else {
      assert (b + a)[1..] == b[1..] + a;
      RankIs(b[1..], a, p);
    }
  }

  // ------------------------------------------------- bounds, down the tree

  /** The hole of `c` lies where `p` stops to hold. */
  ghost predicate Cut(c: Ctx, p: Node -> bool)
  {
    (forall n <- Before(c) :: p(n)) && (After(c) != [] ==> !p(After(c)[0]))
  }

  ghost predicate Subtree(g: Store, t: Tree)
  {
    Nodes(t) <= g.nodes && Down(g.left, g.right, t)
  }

  lemma GoRight(c: Ctx, l: Tree, n: Node, r: Tree, p: Node -> bool)
    requires Cut(c, p) && p(n) && Partitioned(InOrder(Bin(l, n, r)), p)
    ensures Cut(InRight(c, l, n), p) && Partitioned(InOrder(r), p)
  {
    var s := InOrder(Bin(l, n, r));
    assert s[|InOrder(l)|] == n;
    forall m <- InOrder(l) ensures p(m) {
      var i :| 0 <= i < |InOrder(l)| && InOrder(l)[i] == m;
      assert s[i] == m;
    }
    assert InOrder(r) == s[|InOrder(l)| + 1..];
  }

  lemma GoLeft(c: Ctx, l: Tree, n: Node, r: Tree, p: Node -> bool)
    requires Cut(c, p) && !p(n) && Partitioned(InOrder(Bin(l, n, r)), p)
    ensures Cut(InLeft(c, n, r), p) && Partitioned(InOrder(l), p)
  {
    assert InOrder(l) == InOrder(Bin(l, n, r))[..|InOrder(l)|];
  }

  /** A place where `p` stops to hold is where a scan would stop. */
  lemma CutBound(c: Ctx, t: Tree, p: Node -> bool, header: Node)
    requires Plug(c, Leaf) == t && Cut(c, p)
    ensures Rank(InOrder(t), p) == |Before(c)| <= |InOrder(t)| && c == Gap(Top, t, |Before(c)|)
    ensures NodeAt(After(c), 0, header) == Bound(InOrder(t), p, header)
  {
    EmptyPlace(c, t);
    RankIs(Before(c), After(c), p);
  }

  method LowerBoundLoop(x0: Node?, y0: Node, key: Key, comp: Comparator, header: Node,
                        ghost g: Store, ghost c0: Ctx, ghost t0: Tree) returns (y: Node)
    requires Matches(g) && Subtree(g, t0) && x0 == Root(t0) && y0 == NodeAt(After(c0), 0, header)
    requires Cut(c0, Less(comp, key)) && Partitioned(InOrder(t0), Less(comp, key))
    ensures y == Bound(InOrder(Plug(c0, t0)), Less(comp, key), header)
  {
    var x := x0;
    y := y0;
    ghost var c, t, p := c0, t0, Less(comp, key);
    while x != null
      invariant Subtree(g, t) && x == Root(t) && y == NodeAt(After(c), 0, header)
      invariant Plug(c, t) == Plug(c0, t0) && Cut(c, p) && Partitioned(InOrder(t), p)
      decreases t
    {
      if comp(x.key, key) {
        GoRight(c, t.left, x, t.right, p);
        c, t := InRight(c, t.left, x), t.right;
        x := x.right;
      } else {
        GoLeft(c, t.left, x, t.right, p);
        c, t := InLeft(c, x, t.right), t.left;
        y := x;
        x := x.left;
      }
    }
    CutBound(c, Plug(c0, t0), p, header);
  }

  method UpperBoundLoop(x0: Node?, y0: Node, key: Key, comp: Comparator, header: Node,
                        ghost g: Store, ghost c0: Ctx, ghost t0: Tree) returns (y: Node)
    requires Matches(g) && Subtree(g, t0) && x0 == Root(t0) && y0 == NodeAt(After(c0), 0, header)
    requires Cut(c0, NotGreater(comp, key)) && Partitioned(InOrder(t0), NotGreater(comp, key))
    ensures y == Bound(InOrder(Plug(c0, t0)), NotGreater(comp, key), header)
  {
    var x := x0;
    y := y0;
    ghost var c, t, p := c0, t0, NotGreater(comp, key);
    while x != null
      invariant Subtree(g, t) && x == Root(t) && y == NodeAt(After(c), 0, header)
      invariant Plug(c, t) == Plug(c0, t0) && Cut(c, p) && Partitioned(InOrder(t), p)
      decreases t
    {
      if comp(key, x.key) {
        GoLeft(c, t.left, x, t.right, p);
        c, t := InLeft(c, x, t.right), t.left;
        y := x;
        x := x.left;
      } else {
        GoRight(c, t.left, x, t.right, p);
        c, t := InRight(c, t.left, x), t.right;
        x := x.right;
      }
    }
    CutBound(c, Plug(c0, t0), p, header);
  }

  method LowerBound(header: Node, key: Key, comp: Comparator, ghost g: Store, ghost t: Tree) returns (y: Node)
    requires Matches(g) && Valid(g, t, header) && StrictWeakOrder(comp) && Sorted(comp, InOrder(t))
    ensures y == Bound(InOrder(t), Less(comp, key), header)
  {
    LessPartitions(comp, InOrder(t), key);
    y := LowerBoundLoop(header.parent, header, key, comp, header, g, Top, t);
  }

  method UpperBound(header: Node, key: Key, comp: Comparator, ghost g: Store, ghost t: Tree) returns (y: Node)
    requires Matches(g) && Valid(g, t, header) && StrictWeakOrder(comp) && Sorted(comp, InOrder(t))
    ensures y == Bound(InOrder(t), NotGreater(comp, key), header)
  {
    LessPartitions(comp, InOrder(t), key);
    y := UpperBoundLoop(header.parent, header, key, comp, header, g, Top, t);
  }

  ghost predicate Equivalent(comp: Comparator, n: Node, key: Key)
  {
    !comp(n.key, key) && !comp(key, n.key)
  }

  /** `i` is the first index of a node equivalent to `key`. */
  ghost predicate FirstEquivalent(comp: Comparator, s: seq<Node>, key: Key, i: nat)
  {
    i < |s| && Equivalent(comp, s[i], key) && forall j :: 0 <= j < i ==> !Equivalent(comp, s[j], key)
  }

  lemma FoundOrAbsent(comp: Comparator, s: seq<Node>, key: Key)
    requires StrictWeakOrder(comp) && Sorted(comp, s)
    ensures var i := Rank(s, Less(comp, key));
      if i < |s| && !comp(key, s[i].key) then FirstEquivalent(comp, s, key, i)
      else forall n <- s :: !Equivalent(comp, n, key)
  {
    RankFacts(s, Less(comp, key));
  }

  /** The first node equivalent to `key`; the header exactly when there is none. */
  method Find(header: Node, key: Key, comp: Comparator, ghost g: Store, ghost t: Tree) returns (r: Node)
    requires Matches(g) && Valid(g, t, header) && StrictWeakOrder(comp) && Sorted(comp, InOrder(t))
    ensures r == header <==> forall n <- InOrder(t) :: !Equivalent(comp, n, key)
    ensures r != header ==> exists i: nat :: FirstEquivalent(comp, InOrder(t), key, i) && r == InOrder(t)[i]
  {
    var end := header;
    var y := LowerBound(header, key, comp, g, t);
    FoundOrAbsent(comp, InOrder(t), key);
    RankFacts(InOrder(t), Less(comp, key));
    OrderedNodes(t);
    assert y != header ==> y == InOrder(t)[Rank(InOrder(t), Less(comp, key))];
    r := if y == end || comp(key, y.key) then end else y;
  }

  // --------------------------------------------------------------- ranges

  /** The nodes before a range that starts at `lower`. */
  ghost function StartsAfter(comp: Comparator, lower: Key, closed: bool): Node -> bool
  {
    if closed then Less(comp, lower) else NotGreater(comp, lower)
  }

  /** The nodes up to the end of a range that ends at `upper`. */
  ghost function EndsAfter(comp: Comparator, upper: Key, closed: bool): Node -> bool
  {
    if closed then NotGreater(comp, upper) else Less(comp, upper)
  }

  /** Everything passed so far is outside the range on its side. */
  ghost predicate Outside(comp: Comparator, c: Ctx, lower: Key, upper: Key)
  {
    Cut(c, Less(comp, lower)) && (After(c) != [] ==> comp(upper, After(c)[0].key))
  }

  lemma OutsideCuts(comp: Comparator, c: Ctx, lower: Key, upper: Key, closed: bool)
    requires StrictWeakOrder(comp) && !comp(upper, lower) && Outside(comp, c, lower, upper)
    ensures Cut(c, StartsAfter(comp, lower, closed)) && Cut(c, EndsAfter(comp, upper, closed))
  {
  }

  /** The bounds of the range from `lower` to `upper`, the two searches sharing the way down to where they part. */
  method BoundedRange(header: Node, lower: Key, upper: Key, comp: Comparator, leftClosed: bool, rightClosed: bool,
                      ghost g: Store, ghost t0: Tree) returns (first: Node, second: Node)
    requires Matches(g) && Valid(g, t0, header) && StrictWeakOrder(comp) && Sorted(comp, InOrder(t0))
    requires !comp(upper, lower) && (comp(lower, upper) || leftClosed || rightClosed)
    ensures first == Bound(InOrder(t0), StartsAfter(comp, lower, leftClosed), header)
    ensures second == Bound(InOrder(t0), EndsAfter(comp, upper, rightClosed), header)
  {
    var y := header;
    var x := header.parent;
    ghost var c, t := Top, t0;
    while x != null
      invariant Subtree(g, t) && x == Root(t) && y == NodeAt(After(c), 0, header)
      invariant Plug(c, t) == t0 && Outside(comp, c, lower, upper) && Sorted(comp, InOrder(t))
      decreases t
    {
      if comp(x.key, lower) {
        assert comp(x.key, upper);
        SortedRight(comp, t);
        OutsideRight(comp, c, t, lower, upper);
        c, t := InRight(c, t.left, x), t.right;
        x := x.right;
      } else if comp(upper, x.key) {
        SortedLeft(comp, t);
        c, t := InLeft(c, x, t.right), t.left;
        y := x;
        x := x.left;
      } else {
        assert leftClosed || rightClosed || comp(lower, x.key) || comp(x.key, upper);
        first, second := SplitRange(x, y, lower, upper, comp, leftClosed, rightClosed, header, g, c, t);
        return;
      }
    }
    OutsideCuts(comp, c, lower, upper, leftClosed);
    OutsideCuts(comp, c, lower, upper, rightClosed);
    CutBound(c, t0, StartsAfter(comp, lower, leftClosed), header);
    CutBound(c, t0, EndsAfter(comp, upper, rightClosed), header);
    first, second := y, y;
  }

  lemma SortedLeft(comp: Comparator, t: Tree)
    requires t.Bin? && Sorted(comp, InOrder(t))
    ensures Sorted(comp, InOrder(t.left))
  {
    assert InOrder(t.left) == InOrder(t)[..|InOrder(t.left)|];
  }

  lemma SortedRight(comp: Comparator, t: Tree)
    requires t.Bin? && Sorted(comp, InOrder(t))
    ensures Sorted(comp, InOrder(t.right))
  {
    assert InOrder(t.right) == InOrder(t)[|InOrder(t.left)| + 1..];
  }

  lemma OutsideRight(comp: Comparator, c: Ctx, t: Tree, lower: Key, upper: Key)
    requires t.Bin? && Sorted(comp, InOrder(t)) && StrictWeakOrder(comp)
    requires Outside(comp, c, lower, upper) && comp(t.node.key, lower)
    ensures Outside(comp, InRight(c, t.left, t.node), lower, upper)
  {
    LessPartitions(comp, InOrder(t), lower);
    GoRight(c, t.left, t.node, t.right, Less(comp, lower));
  }

  /** The two searches from the first node inside the range on. */
  method SplitRange(x: Node, y: Node, lower: Key, upper: Key, comp: Comparator, leftClosed: bool, rightClosed: bool,
                    header: Node, ghost g: Store, ghost c: Ctx, ghost t: Tree) returns (first: Node, second: Node)
    requires Matches(g) && Subtree(g, t) && t.Bin? && x == t.node && y == NodeAt(After(c), 0, header)
    requires StrictWeakOrder(comp) && Sorted(comp, InOrder(t)) && Outside(comp, c, lower, upper)
    requires !comp(upper, lower) && !comp(x.key, lower) && !comp(upper, x.key)
    ensures first == Bound(InOrder(Plug(c, t)), StartsAfter(comp, lower, leftClosed), header)
    ensures second == Bound(InOrder(Plug(c, t)), EndsAfter(comp, upper, rightClosed), header)
  {
    LessPartitions(comp, InOrder(t), lower);
    LessPartitions(comp, InOrder(t), upper);
    OutsideCuts(comp, c, lower, upper, leftClosed);
    OutsideCuts(comp, c, lower, upper, rightClosed);
    if leftClosed {
      GoLeft(c, t.left, x, t.right, Less(comp, lower));
      first := LowerBoundLoop(x.left, x, lower, comp, header, g, InLeft(c, x, t.right), t.left);
    } else {
      first := UpperBoundLoop(x, y, lower, comp, header, g, c, t);
    }
    if rightClosed {
      GoRight(c, t.left, x, t.right, NotGreater(comp, upper));
      second := UpperBoundLoop(x.right, y, upper, comp, header, g, InRight(c, t.left, x), t.right);
    } else {
      second := LowerBoundLoop(x, y, upper, comp, header, g, c, t);
    }
  }

  /** `n` lies in the range, ends included as the flags say. */
  ghost predicate InRange(comp: Comparator, n: Node, lower: Key, upper: Key, leftClosed: bool, rightClosed: bool)
  {
    && (if leftClosed then !comp(n.key, lower) else comp(lower, n.key))
    && (if rightClosed then !comp(upper, n.key) else comp(n.key, upper))
  }

  /** The nodes between the bounds are exactly those in the range. */
  lemma RangeExact(comp: Comparator, s: seq<Node>, lower: Key, upper: Key, leftClosed: bool, rightClosed: bool, i: nat)
    requires StrictWeakOrder(comp) && Sorted(comp, s) && i < |s|
    ensures Rank(s, StartsAfter(comp, lower, leftClosed)) <= i < Rank(s, EndsAfter(comp, upper, rightClosed)) <==>
            InRange(comp, s[i], lower, upper, leftClosed, rightClosed)
  {
    LessPartitions(comp, s, lower);
    LessPartitions(comp, s, upper);
    RankFacts(s, StartsAfter(comp, lower, leftClosed));
    RankFacts(s, EndsAfter(comp, upper, rightClosed));
  }

  method EqualRange(header: Node, key: Key, comp: Comparator, ghost g: Store, ghost t: Tree)
    returns (first: Node, second: Node)
    requires Matches(g) && Valid(g, t, header) && StrictWeakOrder(comp) && Sorted(comp, InOrder(t))
    ensures first == Bound(InOrder(t), Less(comp, key), header)
        && second == Bound(InOrder(t), NotGreater(comp, key), header)
  {
    first, second := BoundedRange(header, key, key, comp, true, true, g, t);
  }

  /** How many nodes are equivalent to `key`. */
  ghost function Occurrences(comp: Comparator, s: seq<Node>, key: Key): nat
  {
    if s == [] then 0 else (if Equivalent(comp, s[0], key) then 1 else 0) + Occurrences(comp, s[1..], key)
  }

  lemma {:induction false} SortedTail(comp: Comparator, s: seq<Node>)
    requires Sorted(comp, s) && s != []
    ensures Sorted(comp, s[1..])
  {
    forall i, j | 0 <= i < j < |s[1..]| ensures !comp(s[1..][j].key, s[1..][i].key) {
      assert !comp(s[j + 1].key, s[i + 1].key);
    }
  }

  lemma {:induction false} NoneAbove(comp: Comparator, s: seq<Node>, key: Key)
    requires forall n <- s :: comp(key, n.key)
    ensures Occurrences(comp, s, key) == 0
  {
    if s != [] {
      NoneAbove(comp, s[1..], key);
    }
  }

  /** The equivalent nodes are those between the two bounds. */
  lemma {:induction false} OccurrencesBetween(comp: Comparator, s: seq<Node>, key: Key)
    requires StrictWeakOrder(comp) && Sorted(comp, s)
    ensures Rank(s, Less(comp, key)) + Occurrences(comp, s, key) == Rank(s, NotGreater(comp, key))
  {
    if s == [] {
    } else {
      SortedTail(comp, s);
      OccurrencesBetween(comp, s[1..], key);
      if comp(key, s[0].key) {
        forall n <- s ensures comp(key, n.key) {
          var i :| 0 <= i < |s| && s[i] == n;
        }
        NoneAbove(comp, s, key);
      } else if !comp(s[0].key, key) {
        RankFacts(s[1..], Less(comp, key));
      }
    }
  }

  lemma NodeAtOnly(t: Tree, header: Node, i: nat, j: nat)
    requires Distinct(t) && header !in Nodes(t) && i <= |InOrder(t)| && j <= |InOrder(t)|
    requires NodeAt(InOrder(t), i, header) == NodeAt(InOrder(t), j, header)
    ensures i == j
  {
    OrderNoRepeats(t);
    OrderedNodes(t);
  }

  lemma InTree(g: Store, t: Tree, header: Node)
    requires Valid(g, t, header)
    ensures Distinct(t) && header !in Nodes(t)
  {
  }

  lemma BoundIs(s: seq<Node>, p: Node -> bool, header: Node)
    ensures Rank(s, p) <= |s| && Bound(s, p, header) == NodeAt(s, Rank(s, p), header)
  {
    RankFacts(s, p);
  }

  lemma NotAtEnd(s: seq<Node>, header: Node, i: nat, j: nat)
    requires i <= j <= |s| && NodeAt(s, i, header) != NodeAt(s, j, header)
    ensures i < j && NodeAt(s, i, header) == s[i]
  {
  }

  /** The number of nodes equivalent to `key`, by walking from one bound to the other. */
  method Count(header: Node, key: Key, comp: Comparator, ghost g: Store, ghost t: Tree) returns (n: nat)
    requires Matches(g) && Valid(g, t, header) && StrictWeakOrder(comp) && Sorted(comp, InOrder(t))
    ensures n == Occurrences(comp, InOrder(t), key)
  {
    hide *;
    var first, second := EqualRange(header, key, comp, g, t);
    n := 0;
    ghost var s := InOrder(t);
    ghost var lo, hi := Rank(s, Less(comp, key)), Rank(s, NotGreater(comp, key));
    OccurrencesBetween(comp, s, key);
    BoundIs(s, Less(comp, key), header);
    BoundIs(s, NotGreater(comp, key), header);
    InTree(g, t, header);
    while first != second
      invariant lo + n <= hi && first == NodeAt(s, lo + n, header)
      decreases hi - lo - n
    {
      NotAtEnd(s, header, lo + n, hi);
      first := Next(first, header, g, t, lo + n);
      n := n + 1;
    }
    NodeAtOnly(t, header, lo + n, hi);
  }
}

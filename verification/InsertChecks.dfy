/** Where a new node goes: the checks that come before an insertion. */
module InsertChecks {
  import opened Ordering
  import opened TreeNodes
  import opened TreeWalk
  import opened Positions
  import opened Search
  import opened BstInsert

  /** The commit data for the empty place of `c`. */
  ghost function Place(c: Ctx, header: Node): (d: CommitData)
    ensures Names(d, c, header)
  {
    CommitData(c.Top? || c.InLeft?, CParent(c, header))
  }

  // ------------------------------------------------------------- descents

  /** A descent that has come as far as the hole of `c`, in search of where `p` stops to hold. */
  ghost predicate Descending(g: Store, t0: Tree, c: Ctx, t: Tree, p: Node -> bool, header: Node, y: Node)
  {
    && Subtree(g, t) && Plug(c, t) == t0 && y == CParent(c, header)
    && Cut(c, p) && Partitioned(InOrder(t), p)
  }

  lemma DescendRight(g: Store, t0: Tree, c: Ctx, t: Tree, p: Node -> bool, header: Node, y: Node)
    requires Descending(g, t0, c, t, p, header, y) && t.Bin? && p(t.node)
    ensures Descending(g, t0, InRight(c, t.left, t.node), t.right, p, header, t.node)
  {
    GoRight(c, t.left, t.node, t.right, p);
  }

  lemma DescendLeft(g: Store, t0: Tree, c: Ctx, t: Tree, p: Node -> bool, header: Node, y: Node)
    requires Descending(g, t0, c, t, p, header, y) && t.Bin? && !p(t.node)
    ensures Descending(g, t0, InLeft(c, t.node, t.right), t.left, p, header, t.node)
  {
    GoLeft(c, t.left, t.node, t.right, p);
  }

  /** A descent ends in the place a scan of the nodes in order would find. */
  lemma Descended(g: Store, t0: Tree, c: Ctx, p: Node -> bool, header: Node, y: Node)
    requires Descending(g, t0, c, Leaf, p, header, y)
    ensures Rank(InOrder(t0), p) <= |InOrder(t0)| && c == Gap(Top, t0, Rank(InOrder(t0), p))
    ensures Before(c) == InOrder(t0)[..Rank(InOrder(t0), p)]
    ensures !c.Top? ==> (p(c.node) <==> c.InRight?)
  {
    CutBound(c, t0, p, header);
    EmptyPlace(c, t0);
    if c.InRight? {
      assert c.node in Before(c);
    }
  }

  /** No node is equivalent exactly when the last one not greater is less. */
  lemma AbsentWhen(comp: Comparator, s: seq<Node>, key: Key)
    requires StrictWeakOrder(comp) && Sorted(comp, s)
    ensures var r := Rank(s, NotGreater(comp, key));
      && r <= |s|
      && ((r == 0 || comp(s[r - 1].key, key)) <==> forall n <- s :: !Equivalent(comp, n, key))
  {
    var r := Rank(s, NotGreater(comp, key));
    RankFacts(s, NotGreater(comp, key));
    LessPartitions(comp, s, key);
    if r == 0 || comp(s[r - 1].key, key) {
      forall n <- s ensures !Equivalent(comp, n, key) {
        var i :| 0 <= i < |s| && s[i] == n;
        assert i + 1 < r ==> Less(comp, key)(s[i]);
        assert i > r ==> !comp(s[i].key, s[r].key);
      }
    } else {
      assert Equivalent(comp, s[r - 1], key);
    }
  }

  ghost function LastOf(s: seq<Node>): Node?
  {
    if s == [] then null else s[|s| - 1]
  }

  /** What the last node not greater than `key` tells. */
  lemma UniqueVerdict(comp: Comparator, s: seq<Node>, key: Key, prev: Node?)
    requires StrictWeakOrder(comp) && Sorted(comp, s)
    requires Rank(s, NotGreater(comp, key)) <= |s| && prev == LastOf(s[..Rank(s, NotGreater(comp, key))])
    ensures (prev == null || comp(prev.key, key)) <==> forall n <- s :: !Equivalent(comp, n, key)
    ensures prev != null && !comp(prev.key, key) ==> prev in s && Equivalent(comp, prev, key)
  {
    AbsentWhen(comp, s, key);
    RankFacts(s, NotGreater(comp, key));
  }

  /** Where an insertion of a key that has no equivalent goes. */
  ghost function UniquePlace(comp: Comparator, t: Tree, key: Key, header: Node): CommitData
  {
    RankFacts(InOrder(t), NotGreater(comp, key));
    Place(Gap(Top, t, Rank(InOrder(t), NotGreater(comp, key))), header)
  }

  method InsertUniqueCheck(header: Node, key: Key, comp: Comparator, d0: CommitData, ghost g: Store, ghost t0: Tree)
    returns (prev: Node?, notPresent: bool, d: CommitData)
    requires Matches(g) && Valid(g, t0, header) && StrictWeakOrder(comp) && Sorted(comp, InOrder(t0))
    ensures notPresent <==> forall n <- InOrder(t0) :: !Equivalent(comp, n, key)
    ensures notPresent ==> d == UniquePlace(comp, t0, key, header)
    ensures !notPresent ==> d == d0 && prev != null && prev in InOrder(t0) && Equivalent(comp, prev, key)
  {
    var y: Node := header;
    var x := y.parent;
    prev := null;
    var leftChild := true;
    ghost var c, t, p := Top, t0, NotGreater(comp, key);
    LessPartitions(comp, InOrder(t0), key);
    while x != null
      invariant Descending(g, t0, c, t, p, header, y) && x == Root(t)
      invariant leftChild == (c.Top? || c.InLeft?) && prev == LastOf(Before(c))
      decreases t
    {
      y := x;
      leftChild := comp(key, x.key);
      if leftChild {
        DescendLeft(g, t0, c, t, p, header, CParent(c, header));
        c, t := InLeft(c, x, t.right), t.left;
        x := x.left;
      } else {
        DescendRight(g, t0, c, t, p, header, CParent(c, header));
        c, t := InRight(c, t.left, x), t.right;
        prev := y;
        x := x.right;
      }
    }
    Descended(g, t0, c, p, header, y);
    UniqueVerdict(comp, InOrder(t0), key, prev);
    notPresent := prev == null || comp(prev.key, key);
    d := d0;
    if notPresent {
      d := CommitData(leftChild, y);
    }
  }

  method InsertEqualUpperBoundCheck(header: Node, key: Key, comp: Comparator, ghost g: Store, ghost t0: Tree)
    returns (d: CommitData)
    requires Matches(g) && Valid(g, t0, header) && StrictWeakOrder(comp) && Sorted(comp, InOrder(t0))
    ensures d == UniquePlace(comp, t0, key, header)
  {
    var y: Node := header;
    var x := y.parent;
    ghost var c, t, p := Top, t0, NotGreater(comp, key);
    LessPartitions(comp, InOrder(t0), key);
    while x != null
      invariant Descending(g, t0, c, t, p, header, y) && x == Root(t)
      decreases t
    {
      y := x;
      if comp(key, x.key) {
        DescendLeft(g, t0, c, t, p, header, CParent(c, header));
        c, t := InLeft(c, x, t.right), t.left;
        x := x.left;
      } else {
        DescendRight(g, t0, c, t, p, header, CParent(c, header));
        c, t := InRight(c, t.left, x), t.right;
        x := x.right;
      }
    }
    Descended(g, t0, c, p, header, y);
    InsideContext(c, t0, header);
    d := CommitData(y == header || comp(key, y.key), y);
  }

  lemma InsideContext(c: Ctx, t: Tree, header: Node)
    requires Plug(c, Leaf) == t && header !in Nodes(t)
    ensures CParent(c, header) == header <==> c.Top?
  {
    PlugNodes(c, Leaf);
    assert !c.Top? ==> c.node in CNodes(c);
  }

  ghost function LowerPlace(comp: Comparator, t: Tree, key: Key, header: Node): CommitData
  {
    RankFacts(InOrder(t), Less(comp, key));
    Place(Gap(Top, t, Rank(InOrder(t), Less(comp, key))), header)
  }

  method InsertEqualLowerBoundCheck(header: Node, key: Key, comp: Comparator, ghost g: Store, ghost t0: Tree)
    returns (d: CommitData)
    requires Matches(g) && Valid(g, t0, header) && StrictWeakOrder(comp) && Sorted(comp, InOrder(t0))
    ensures d == LowerPlace(comp, t0, key, header)
  {
    var y: Node := header;
    var x := y.parent;
    ghost var c, t, p := Top, t0, Less(comp, key);
    LessPartitions(comp, InOrder(t0), key);
    while x != null
      invariant Descending(g, t0, c, t, p, header, y) && x == Root(t)
      decreases t
    {
      y := x;
      if !comp(x.key, key) {
        DescendLeft(g, t0, c, t, p, header, CParent(c, header));
        c, t := InLeft(c, x, t.right), t.left;
        x := x.left;
      } else {
        DescendRight(g, t0, c, t, p, header, CParent(c, header));
        c, t := InRight(c, t.left, x), t.right;
        x := x.right;
      }
    }
    Descended(g, t0, c, p, header, y);
    InsideContext(c, t0, header);
    d := CommitData(y == header || !comp(y.key, key), y);
  }

  // ---------------------------------------------------------------- hints

  /** An empty place hangs to the left of the node after it, or else to the right of the node before it. */
  lemma {:induction false} GapBeside(c: Ctx, t: Tree, i: nat)
    requires t.Bin? && i <= |InOrder(t)|
    ensures var k := Gap(c, t, i);
      || (k.InLeft? && i < |InOrder(t)| && k.node == InOrder(t)[i])
      || (k.InRight? && i > 0 && k.node == InOrder(t)[i - 1])
    decreases t
  {
    var l := |InOrder(t.left)|;
    if i <= l {
      if t.left.Bin? {
        GapBeside(InLeft(c, t.node, t.right), t.left, i);
      }
    } else if t.right.Bin? {
      GapBeside(InRight(c, t.left, t.node), t.right, i - l - 1);
    }
  }

  /** It hangs to the left of the node after it exactly when that one has no left child. */
  lemma LeftFree(g: Store, t: Tree, header: Node, i: nat)
    requires Valid(g, t, header) && i < |InOrder(t)|
    ensures g.left(InOrder(t)[i]) == null <==> Gap(Top, t, i).InLeft?
  {
    var n := InOrder(t)[i];
    IndexedNode(t, i);
    var c, u := Above(Top, t, n), Below(t, n);
    Focus(g, Top, t, n, header);
    if u.left.Leaf? {
      assert Before(InLeft(c, n, u.right)) == InOrder(t)[..i];
      EmptyPlace(InLeft(c, n, u.right), t);
    } else {
      GapBeside(Top, t, i);
      GapLinked(g, t, header, i);
    }
  }

  /** The links around an empty place. */
  lemma GapLinked(g: Store, t: Tree, header: Node, i: nat)
    requires Linked(g, Top, t, header) && i <= |InOrder(t)|
    ensures Linked(g, Gap(Top, t, i), Leaf, header)
    ensures Gap(Top, t, i).InLeft? ==> g.left(Gap(Top, t, i).node) == null
  {
    GapPlug(Top, t, i);
    PlugLinked(g, Gap(Top, t, i), Leaf, header);
  }

  /** What a commit looks at to link a node just before `hint`. */
  lemma HintPlace(g: Store, t: Tree, header: Node, i: nat)
    requires Valid(g, t, header) && i <= |InOrder(t)|
    ensures var hint, d := NodeAt(InOrder(t), i, header), Place(Gap(Top, t, i), header);
      && d.linkLeft == (g.parent(header) == null || g.left(hint) == null)
      && (if d.linkLeft then d.node == hint else i > 0 && d.node == InOrder(t)[i - 1])
    ensures g.left(header) == NodeAt(InOrder(t), i, header) <==> i == 0
  {
    if t.Bin? {
      GapBeside(Top, t, i);
      OrderedNodes(t);
      OrderNoRepeats(t);
      if i < |InOrder(t)| {
        LeftFree(g, t, header, i);
      }
    }
  }

  /** A hint between the last smaller and the first greater node is where the descent would end. */
  lemma HintIsRank(comp: Comparator, s: seq<Node>, key: Key, i: nat)
    requires StrictWeakOrder(comp) && Sorted(comp, s) && i <= |s|
    requires (i == |s| || comp(key, s[i].key)) && (i == 0 || comp(s[i - 1].key, key))
    ensures i == Rank(s, NotGreater(comp, key)) == Rank(s, Less(comp, key))
    ensures forall n <- s :: !Equivalent(comp, n, key)
  {
    assert s == s[..i] + s[i..];
    LessBefore(comp, s, key, i);
    hide Sorted, Rank;
    RankIs(s[..i], s[i..], NotGreater(comp, key));
    RankIs(s[..i], s[i..], Less(comp, key));
    AbsentWhen(comp, s, key);
  }

  lemma LessBefore(comp: Comparator, s: seq<Node>, key: Key, i: nat)
    requires StrictWeakOrder(comp) && Sorted(comp, s) && i <= |s| && (i == 0 || comp(s[i - 1].key, key))
    ensures forall n <- s[..i] :: Less(comp, key)(n) && NotGreater(comp, key)(n)
  {
    forall n <- s[..i] ensures comp(n.key, key) {
      var j :| 0 <= j < i && s[j] == n;
      assert j == i - 1 || !comp(s[i - 1].key, s[j].key);
    }
  }

  /** The check with a hint, which must be a node of the tree or the header, accepts what the check without accepts,
      and then fills in the same node and the same side. */
  method InsertUniqueCheckHint(header: Node, hint: Node, key: Key, comp: Comparator, d0: CommitData,
                               ghost g: Store, ghost t: Tree, ghost i: nat)
    returns (prev: Node?, notPresent: bool, d: CommitData)
    requires Matches(g) && Valid(g, t, header) && StrictWeakOrder(comp) && Sorted(comp, InOrder(t))
    requires i <= |InOrder(t)| && hint == NodeAt(InOrder(t), i, header)
    ensures notPresent <==> forall n <- InOrder(t) :: !Equivalent(comp, n, key)
    ensures notPresent ==> d == UniquePlace(comp, t, key, header)
    ensures !notPresent ==> d == d0 && prev != null && prev in InOrder(t) && Equivalent(comp, prev, key)
  {
    OrderedNodes(t);
    HintPlace(g, t, header, i);
    if hint == header || comp(key, hint.key) {
      var before := hint;
      if hint != header.left {
        before := Prev(hint, header, g, t, i);
      }
      if hint == header.left || comp(before.key, key) {
        HintIsRank(comp, InOrder(t), key, i);
        var linkLeft := header.parent == null || hint.left == null;
        d := CommitData(linkLeft, if linkLeft then hint else before);
        prev, notPresent := null, true;
        return;
      }
    }
    prev, notPresent, d := InsertUniqueCheck(header, key, comp, d0, g, t);
  }

  /**
   Where a possibly equivalent key goes: before the hint when that keeps the order, else as near to it as possible.
   */
  ghost function EqualIndex(comp: Comparator, s: seq<Node>, key: Key, i: nat): nat
    requires i <= |s|
  {
    if i < |s| && comp(s[i].key, key) then Rank(s, Less(comp, key))
    else if i > 0 && comp(key, s[i - 1].key) then Rank(s, NotGreater(comp, key))
    else i
  }

  /** A node with `key` can stand at index `i` of `s`. */
  ghost predicate FitsAt(comp: Comparator, s: seq<Node>, key: Key, i: nat)
  {
    i <= |s| && (forall j :: 0 <= j < i ==> !comp(key, s[j].key)) && (forall j :: i <= j < |s| ==> !comp(s[j].key, key))
  }

  ghost function Distance(i: nat, j: nat): nat
  {
    if i < j then j - i else i - j
  }

  /** Of the indices at which `key` can stand, `j` is nearest to `i`. */
  ghost predicate Nearest(comp: Comparator, s: seq<Node>, key: Key, i: nat, j: nat)
  {
    FitsAt(comp, s, key, j) && forall k: nat :: FitsAt(comp, s, key, k) ==> Distance(i, j) <= Distance(i, k)
  }

  /** There is only one nearest: the indices that fit follow one another. */
  lemma NearestOnly(comp: Comparator, s: seq<Node>, key: Key, i: nat, j: nat, j': nat)
    requires StrictWeakOrder(comp) && Sorted(comp, s)
    requires Nearest(comp, s, key, i, j) && Nearest(comp, s, key, i, j')
    ensures j == j'
  {
    if j != j' {
      var a, b := if j < j' then j else j', if j < j' then j' else j;
      assert FitsAt(comp, s, key, a) && FitsAt(comp, s, key, b) && a < i < b;
      assert FitsAt(comp, s, key, i);
    }
  }

  /** The indices that fit are those from the lower to the upper bound. */
  lemma FitsBetween(comp: Comparator, s: seq<Node>, key: Key, k: nat)
    requires StrictWeakOrder(comp) && Sorted(comp, s)
    ensures FitsAt(comp, s, key, k) <==> Rank(s, Less(comp, key)) <= k <= Rank(s, NotGreater(comp, key))
  {
    LessPartitions(comp, s, key);
    var lo, hi := Rank(s, Less(comp, key)), Rank(s, NotGreater(comp, key));
    RankFacts(s, Less(comp, key));
    RankFacts(s, NotGreater(comp, key));
    RanksFit(comp, s, key);
    assert lo < |s| ==> !Less(comp, key)(s[lo]);
    assert hi < |s| ==> !NotGreater(comp, key)(s[hi]);
    if k < lo {
      assert Less(comp, key)(s[k]);
    }
    if hi < k <= |s| {
      assert comp(key, s[hi].key);
    }
  }

  lemma EqualIndexNearest(comp: Comparator, s: seq<Node>, key: Key, i: nat)
    requires StrictWeakOrder(comp) && Sorted(comp, s) && i <= |s|
    ensures Nearest(comp, s, key, i, EqualIndex(comp, s, key, i))
  {
    var j := EqualIndex(comp, s, key, i);
    EqualIndexFits(comp, s, key, i);
    forall k: nat | FitsAt(comp, s, key, k) ensures Distance(i, j) <= Distance(i, k) {
      FitsBetween(comp, s, key, k);
      if i < |s| && comp(s[i].key, key) {
        assert k > i;
      } else if i > 0 && comp(key, s[i - 1].key) {
        assert k < i;
      }
    }
  }

  lemma RanksFit(comp: Comparator, s: seq<Node>, key: Key)
    requires StrictWeakOrder(comp) && Sorted(comp, s)
    ensures FitsAt(comp, s, key, Rank(s, Less(comp, key))) && FitsAt(comp, s, key, Rank(s, NotGreater(comp, key)))
  {
    LessPartitions(comp, s, key);
    RankFacts(s, Less(comp, key));
    RankFacts(s, NotGreater(comp, key));
  }

  lemma EqualIndexFits(comp: Comparator, s: seq<Node>, key: Key, i: nat)
    requires StrictWeakOrder(comp) && Sorted(comp, s) && i <= |s|
    ensures FitsAt(comp, s, key, EqualIndex(comp, s, key, i))
  {
    RanksFit(comp, s, key);
    LessPartitions(comp, s, key);
    assert i > 0 ==> (!comp(key, s[i - 1].key) <==> NotGreater(comp, key)(s[i - 1]));
    assert i < |s| ==> (comp(s[i].key, key) <==> Less(comp, key)(s[i]));
  }

  /** Sorted insertion is insertion at an index that fits. */
  lemma FitsSorted(comp: Comparator, s: seq<Node>, n: Node, i: nat)
    requires StrictWeakOrder(comp) && Sorted(comp, s) && i <= |s|
    ensures FitsAt(comp, s, n.key, i) <==> Sorted(comp, s[..i] + [n] + s[i..])
  {
    var s' := s[..i] + [n] + s[i..];
    assert forall j :: 0 <= j < |s| ==> s[j] == s'[if j < i then j else j + 1];
    assert s'[i] == n;
    if Sorted(comp, s') {
      forall j | 0 <= j < i ensures !comp(n.key, s[j].key) {
        assert s'[j] == s[j];
      }
      forall j | i <= j < |s| ensures !comp(s[j].key, n.key) {
        assert s'[j + 1] == s[j];
      }
    }
  }

  /** The commit data name the gap at `j`, which is nearest to index `i`. */
  ghost predicate NearestPlace(comp: Comparator, t: Tree, key: Key, header: Node, i: nat, d: CommitData, j: nat)
  {
    j <= |InOrder(t)| && Nearest(comp, InOrder(t), key, i, j) && d == Place(Gap(Top, t, j), header)
  }

  method InsertEqualCheck(header: Node, hint: Node, key: Key, comp: Comparator, ghost g: Store, ghost t: Tree,
                          ghost i: nat)
    returns (d: CommitData)
    requires Matches(g) && Valid(g, t, header) && StrictWeakOrder(comp) && Sorted(comp, InOrder(t))
    requires i <= |InOrder(t)| && hint == NodeAt(InOrder(t), i, header)
    ensures exists j: nat :: NearestPlace(comp, t, key, header, i, d, j)
  {
    ghost var j := EqualIndex(comp, InOrder(t), key, i);
    EqualIndexNearest(comp, InOrder(t), key, i);
    OrderedNodes(t);
    HintPlace(g, t, header, i);
    EqualIndexFits(comp, InOrder(t), key, i);
    if hint == header || !comp(hint.key, key) {
      var prev := hint;
      if hint != header.left {
        prev := Prev(hint, header, g, t, i);
      }
      if hint == header.left || !comp(key, prev.key) {
        var linkLeft := header.parent == null || hint.left == null;
        d := CommitData(linkLeft, if linkLeft then hint else prev);
      } else {
        d := InsertEqualUpperBoundCheck(header, key, comp, g, t);
      }
    } else {
      d := InsertEqualLowerBoundCheck(header, key, comp, g, t);
    }
    assert NearestPlace(comp, t, key, header, i, d, j);
  }

  method InsertBeforeCheck(header: Node, pos: Node, ghost g: Store, ghost t: Tree, ghost i: nat) returns (d: CommitData)
    requires Matches(g) && Valid(g, t, header) && i <= |InOrder(t)| && pos == NodeAt(InOrder(t), i, header)
    ensures d == Place(Gap(Top, t, i), header)
  {
    OrderedNodes(t);
    HintPlace(g, t, header, i);
    var prev := pos;
    if pos != header.left {
      prev := Prev(pos, header, g, t, i);
    }
    var linkLeft := header.parent == null || pos.left == null;
    d := CommitData(linkLeft, if linkLeft then pos else prev);
  }

  method PushBackCheck(header: Node, ghost g: Store, ghost t: Tree) returns (d: CommitData)
    requires Matches(g) && Valid(g, t, header)
    ensures Names(d, Gap(Top, t, |InOrder(t)|), header)
  {
    HintPlace(g, t, header, |InOrder(t)|);
    OrderedNodes(t);
    d := CommitData(false, header.right);
  }

  method PushFrontCheck(header: Node, ghost g: Store, ghost t: Tree) returns (d: CommitData)
    requires Matches(g) && Valid(g, t, header)
    ensures Names(d, Gap(Top, t, 0), header)
  {
    HintPlace(g, t, header, 0);
    d := CommitData(true, header.left);
  }
}

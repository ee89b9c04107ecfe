/** The tree container: a header, a stored size, and the operations that keep both. */
module Container {
  import opened Ordering
  import opened TreeNodes
  import opened TreeWalk
  import opened Positions
  import opened Search
  import opened BstInsert
  import opened InsertChecks
  import opened AvlTree
  import opened AvlOperations
  import opened AvlTransfer

  /** What merging does to the two sequences: each node of `b` in turn moves over unless it has an equivalent there. */
  ghost function MergedUnique(comp: Comparator, a: seq<Node>, b: seq<Node>): (seq<Node>, seq<Node>)
    decreases b
  {
    if b == [] then (a, [])
    else
      RankFacts(a, NotGreater(comp, b[0].key));
      if forall n <- a :: !Equivalent(comp, n, b[0].key)
      then MergedUnique(comp, InsertedAt(a, Rank(a, NotGreater(comp, b[0].key)), b[0]), b[1..])
      else
        var m := MergedUnique(comp, a, b[1..]);
        (m.0, [b[0]] + m.1)
  }

  ghost function MergedEqual(comp: Comparator, a: seq<Node>, b: seq<Node>): seq<Node>
    decreases b
  {
    if b == [] then a
    else
      RankFacts(a, NotGreater(comp, b[0].key));
      MergedEqual(comp, InsertedAt(a, Rank(a, NotGreater(comp, b[0].key)), b[0]), b[1..])
  }

  ghost predicate StrictlySorted(comp: Comparator, s: seq<Node>)
  {
    forall i, j :: 0 <= i < j < |s| ==> comp(s[i].key, s[j].key)
  }

  lemma StrictInsert(comp: Comparator, a: seq<Node>, n: Node)
    requires StrictWeakOrder(comp) && Sorted(comp, a) && forall m <- a :: !Equivalent(comp, m, n.key)
    requires Rank(a, NotGreater(comp, n.key)) <= |a|
    ensures StrictlySorted(comp, a) ==> StrictlySorted(comp, InsertedAt(a, Rank(a, NotGreater(comp, n.key)), n))
  {
    var r := Rank(a, NotGreater(comp, n.key));
    RanksFit(comp, a, n.key);
    forall k | 0 <= k < |a| ensures if k < r then comp(a[k].key, n.key) else comp(n.key, a[k].key) {
      assert a[k] in a;
    }
    if StrictlySorted(comp, a) {
      StrictJoin(comp, a, r, n);
    }
  }

  lemma StrictJoin(comp: Comparator, a: seq<Node>, r: nat, n: Node)
    requires StrictlySorted(comp, a) && r <= |a|
    requires forall k :: 0 <= k < |a| ==> if k < r then comp(a[k].key, n.key) else comp(n.key, a[k].key)
    ensures StrictlySorted(comp, InsertedAt(a, r, n))
  {
    var s := InsertedAt(a, r, n);
    assert forall i :: 0 <= i < |s| ==> s[i] == if i < r then a[i] else if i == r then n else a[i - 1];
  }

  lemma InsertedMultiset(s: seq<Node>, i: nat, n: Node)
    requires i <= |s|
    ensures multiset(InsertedAt(s, i, n)) == multiset(s) + multiset{n}
    ensures |InsertedAt(s, i, n)| == |s| + 1 && forall m <- s :: m in InsertedAt(s, i, n)
  {
    assert s == s[..i] + s[i..];
    forall m <- s ensures m in InsertedAt(s, i, n) {
      assert m in multiset(s);
      assert m in multiset(InsertedAt(s, i, n));
    }
  }

  /** Merging keeps the target sorted, and without equivalents if it had none. */
  lemma {:induction false} MergedUniqueSorted(comp: Comparator, a: seq<Node>, b: seq<Node>)
    requires StrictWeakOrder(comp) && Sorted(comp, a)
    ensures Sorted(comp, MergedUnique(comp, a, b).0)
    ensures StrictlySorted(comp, a) ==> StrictlySorted(comp, MergedUnique(comp, a, b).0)
    decreases b
  {
    if b != [] {
      RankFacts(a, NotGreater(comp, b[0].key));
      if forall n <- a :: !Equivalent(comp, n, b[0].key) {
        FitsLast(comp, a, b[0]);
        StrictInsert(comp, a, b[0]);
        MergedUniqueSorted(comp, InsertedAt(a, Rank(a, NotGreater(comp, b[0].key)), b[0]), b[1..]);
      } else {
        MergedUniqueSorted(comp, a, b[1..]);
      }
    }
  }

  /** No node is lost or duplicated. */
  lemma {:induction false} MergedUniqueKeeps(comp: Comparator, a: seq<Node>, b: seq<Node>)
    ensures var m := MergedUnique(comp, a, b); multiset(m.0) + multiset(m.1) == multiset(a) + multiset(b)
    decreases b
  {
    if b != [] {
      var r := Rank(a, NotGreater(comp, b[0].key));
      RankFacts(a, NotGreater(comp, b[0].key));
      assert b == [b[0]] + b[1..];
      if forall n <- a :: !Equivalent(comp, n, b[0].key) {
        InsertedMultiset(a, r, b[0]);
        MergedUniqueKeeps(comp, InsertedAt(a, r, b[0]), b[1..]);
      } else {
        MergedUniqueKeeps(comp, a, b[1..]);
        var m, rest := MergedUnique(comp, a, b), MergedUnique(comp, a, b[1..]);
        assert m == (rest.0, [b[0]] + rest.1);
        assert multiset(m.0) + multiset(m.1) == (multiset(rest.0) + multiset(rest.1)) + multiset{b[0]};
        assert multiset(a) + multiset(b) == (multiset(a) + multiset(b[1..])) + multiset{b[0]};
      }
    }
  }

  lemma {:induction false} MergedUniqueGrows(comp: Comparator, a: seq<Node>, b: seq<Node>, n: Node)
    requires n in a
    ensures n in MergedUnique(comp, a, b).0
    decreases b
  {
    if b != [] {
      var r := Rank(a, NotGreater(comp, b[0].key));
      RankFacts(a, NotGreater(comp, b[0].key));
      if forall m <- a :: !Equivalent(comp, m, b[0].key) {
        InsertedMultiset(a, r, b[0]);
        MergedUniqueGrows(comp, InsertedAt(a, r, b[0]), b[1..], n);
      } else {
        MergedUniqueGrows(comp, a, b[1..], n);
      }
    }
  }

  /** What stays in the source has an equivalent in the target. */
  lemma {:induction false} MergedUniqueLeaves(comp: Comparator, a: seq<Node>, b: seq<Node>, z: Node)
    requires z in MergedUnique(comp, a, b).1
    ensures z in b && exists n <- MergedUnique(comp, a, b).0 :: Equivalent(comp, n, z.key)
    decreases b
  {
    var r := Rank(a, NotGreater(comp, b[0].key));
    RankFacts(a, NotGreater(comp, b[0].key));
    if forall n <- a :: !Equivalent(comp, n, b[0].key) {
      MergedUniqueLeaves(comp, InsertedAt(a, r, b[0]), b[1..], z);
    } else if z in MergedUnique(comp, a, b[1..]).1 {
      MergedUniqueLeaves(comp, a, b[1..], z);
    } else {
      var n :| n in a && Equivalent(comp, n, b[0].key);
      MergedUniqueGrows(comp, a, b[1..], n);
      assert n in MergedUnique(comp, a, b).0;
    }
  }

  /** What stays in the source keeps its order, even if that is not the order of the target. */
  lemma {:induction false} MergedUniqueSourceSorted(comp: Comparator, a: seq<Node>, b: seq<Node>, order: Comparator)
    requires Sorted(order, b)
    ensures Sorted(order, MergedUnique(comp, a, b).1)
    decreases b
  {
    if b != [] {
      var r := Rank(a, NotGreater(comp, b[0].key));
      RankFacts(a, NotGreater(comp, b[0].key));
      if forall n <- a :: !Equivalent(comp, n, b[0].key) {
        MergedUniqueSourceSorted(comp, InsertedAt(a, r, b[0]), b[1..], order);
      } else {
        MergedUniqueSourceSorted(comp, a, b[1..], order);
        var rest := MergedUnique(comp, a, b[1..]).1;
        forall i | 0 <= i < |rest| ensures !order(rest[i].key, b[0].key) {
          MergedUniqueLeaves(comp, a, b[1..], rest[i]);
        }
      }
    }
  }

  lemma MergedUniqueKeepsOrder(comp: Comparator, a: seq<Node>, b: seq<Node>)
    ensures OrderKept(b, MergedUnique(comp, a, b).1)
  {
    forall order: Comparator | Sorted(order, b) ensures Sorted(order, MergedUnique(comp, a, b).1) {
      MergedUniqueSourceSorted(comp, a, b, order);
    }
  }

  /** The nodes equivalent to `key`, in order. */
  ghost function Matching(comp: Comparator, s: seq<Node>, key: Key): seq<Node>
  {
    if s == [] then [] else (if Equivalent(comp, s[0], key) then [s[0]] else []) + Matching(comp, s[1..], key)
  }

  lemma {:induction false} MatchingJoin(comp: Comparator, a: seq<Node>, b: seq<Node>, key: Key)
    ensures Matching(comp, a + b, key) == Matching(comp, a, key) + Matching(comp, b, key)
  {
    if a == [] {
      assert a + b == b;
    } else {
      assert (a + b)[1..] == a[1..] + b && (a + b)[0] == a[0];
      MatchingJoin(comp, a[1..], b, key);
      var m := if Equivalent(comp, a[0], key) then [a[0]] else [];
      assert (m + Matching(comp, a[1..], key)) + Matching(comp, b, key)
          == m + (Matching(comp, a[1..], key) + Matching(comp, b, key));
    }
  }

  lemma {:induction false} MatchingNone(comp: Comparator, s: seq<Node>, key: Key)
    requires forall n <- s :: !Equivalent(comp, n, key)
    ensures Matching(comp, s, key) == []
  {
    if s != [] {
      MatchingNone(comp, s[1..], key);
    }
  }

  lemma MatchingBeyond(comp: Comparator, s: seq<Node>, n: Node, key: Key)
    requires StrictWeakOrder(comp) && Sorted(comp, s) && Equivalent(comp, n, key)
    requires Rank(s, NotGreater(comp, n.key)) <= |s|
    ensures Matching(comp, s[Rank(s, NotGreater(comp, n.key))..], key) == []
  {
    var r := Rank(s, NotGreater(comp, n.key));
    RankFacts(s, NotGreater(comp, n.key));
    LessPartitions(comp, s, n.key);
    forall m <- s[r..] ensures !Equivalent(comp, m, key) {
      var i :| r <= i < |s| && s[i] == m;
      assert !NotGreater(comp, n.key)(s[r]);
    }
    MatchingNone(comp, s[r..], key);
  }

  /** Among equivalent nodes, a new one comes last. */
  lemma MatchingInserted(comp: Comparator, s: seq<Node>, n: Node, key: Key)
    requires StrictWeakOrder(comp) && Sorted(comp, s) && Rank(s, NotGreater(comp, n.key)) <= |s|
    ensures Matching(comp, InsertedAt(s, Rank(s, NotGreater(comp, n.key)), n), key)
        == Matching(comp, s, key) + Matching(comp, [n], key)
  {
    var r := Rank(s, NotGreater(comp, n.key));
    assert s == s[..r] + s[r..];
    if Equivalent(comp, n, key) {
      MatchingBeyond(comp, s, n, key);
    }
    MatchingBetween(comp, s[..r], n, s[r..], key);
  }

  lemma MatchingBetween(comp: Comparator, a: seq<Node>, n: Node, b: seq<Node>, key: Key)
    requires Equivalent(comp, n, key) ==> Matching(comp, b, key) == []
    ensures Matching(comp, a + [n] + b, key) == Matching(comp, a + b, key) + Matching(comp, [n], key)
  {
    MatchingJoin(comp, a, b, key);
    MatchingJoin(comp, a + [n], b, key);
    MatchingJoin(comp, a, [n], key);
  }

  /** Merging with equivalents is stable: those of the target first, then those of the source, each in their order. */
  lemma {:induction false} MergedEqualStable(comp: Comparator, a: seq<Node>, b: seq<Node>, key: Key)
    requires StrictWeakOrder(comp) && Sorted(comp, a)
    ensures Sorted(comp, MergedEqual(comp, a, b)) && multiset(MergedEqual(comp, a, b)) == multiset(a) + multiset(b)
    ensures Matching(comp, MergedEqual(comp, a, b), key) == Matching(comp, a, key) + Matching(comp, b, key)
    decreases b
  {
    if b != [] {
      var r := Rank(a, NotGreater(comp, b[0].key));
      RankFacts(a, NotGreater(comp, b[0].key));
      assert b == [b[0]] + b[1..];
      FitsLast(comp, a, b[0]);
      InsertedMultiset(a, r, b[0]);
      MatchingInserted(comp, a, b[0], key);
      MergedEqualStable(comp, InsertedAt(a, r, b[0]), b[1..], key);
    }
  }

  lemma WithoutIndex(s: seq<Node>, i: nat)
    requires NoRepeats(s) && i < |s|
    ensures Without(s, s[i]) == s[..i] + s[i + 1..]
  {
    assert s == s[..i] + [s[i]] + s[i + 1..];
    WithoutAt(s[..i], s[i], s[i + 1..]);
  }

  lemma InitAway(g: Store, g': Store, n: Node, t: Tree, header: Node)
    requires AvlValid(g, t, header) && n !in Nodes(t) && n != header
    requires g'.nodes == g.nodes && g'.balance == g.balance
    requires forall m <- g.nodes :: m != n ==>
        g'.parent(m) == g.parent(m) && g'.left(m) == g.left(m) && g'.right(m) == g.right(m)
    ensures AvlValid(g', t, header)
  {
    AvlAway(g, g', {}, n, t, header);
  }

  lemma UntouchedNodes(g: Store, g1: Store, ns: set<Node>, header: Node)
    requires Untouched(g, g1, ns, header)
    ensures g1.nodes == g.nodes
  {
  }

  lemma InitUntouched(g: Store, g1: Store, n: Node, ns: set<Node>, header: Node)
    requires n in ns && g1.nodes == g.nodes && g1.balance == g.balance
    requires forall m <- g.nodes :: m != n ==>
        g1.parent(m) == g.parent(m) && g1.left(m) == g.left(m) && g1.right(m) == g.right(m)
    ensures Untouched(g, g1, ns, header)
  {
  }

  lemma UntouchedButTwice(g: Store, g1: Store, g2: Store, ns: set<Node>, ns1: set<Node>, h1: Node, h2: Node)
    requires UntouchedBut(g, g1, ns, h1, h2) && UntouchedBut(g1, g2, ns1, h1, h2) && ns1 <= ns
    ensures UntouchedBut(g, g2, ns, h1, h2)
  {
  }

  /** Check and commit. */
  method InsertUniqueNode(header: Node, n: Node, comp: Comparator, ghost g: Store, ghost t: Tree)
    returns (present: Node?, inserted: bool, ghost g': Store, ghost t': Tree)
    requires Matches(g) && AvlValid(g, t, header) && StrictWeakOrder(comp) && Sorted(comp, InOrder(t))
    requires n in g.nodes && n != header && n !in Nodes(t)
    modifies g.nodes
    ensures Matches(g') && AvlValid(g', t', header)
    ensures inserted <==> forall m <- InOrder(t) :: !Equivalent(comp, m, n.key)
    ensures inserted ==> InsertedLast(comp, InOrder(t), InOrder(t'), n) && Nodes(t') == Nodes(t) + {n}
    ensures Untouched(g, g', Nodes(t) + {n}, header)
    ensures !inserted ==>
        g' == g && t' == t && present != null && present in InOrder(t) && Equivalent(comp, present, n.key)
  {
    var d := CommitData(false, header);
    present, inserted, d := InsertUniqueCheck(header, n.key, comp, d, g, t);
    if inserted {
      g', t' := InsertUniqueCommit(header, n, d, comp, g, t);
    } else {
      g', t' := g, t;
    }
  }

  /** Erases the node at index `i`, and finds the one after it. */
  method EraseNode(header: Node, z: Node, safeMode: bool, ghost g: Store, ghost t: Tree, ghost i: nat)
    returns (next: Node, ghost g': Store, ghost t': Tree)
    requires Matches(g) && AvlValid(g, t, header) && i < |InOrder(t)| && z == InOrder(t)[i]
    modifies g.nodes
    ensures Matches(g') && AvlValid(g', t', header) && Untouched(g, g', Nodes(t), header)
    ensures InOrder(t') == InOrder(t)[..i] + InOrder(t)[i + 1..] && Nodes(t') == Nodes(t) - {z}
    ensures OrderKept(InOrder(t), InOrder(t'))
    ensures next == NodeAt(InOrder(t'), i, header)
    ensures safeMode ==> g'.parent(z) == g'.left(z) == g'.right(z) == null
  {
    IndexedNode(t, i);
    OrderNoRepeats(t);
    WithoutIndex(InOrder(t), i);
    next := Next(z, header, g, t, i);
    g', t' := AvlTree.Erase(header, z, g, t);
    if safeMode {
      ghost var g1 := g';
      g' := Init(z, g1);
      InitAway(g1, g', z, t', header);
      InitUntouched(g1, g', z, Nodes(t), header);
      UntouchedTwice(g, g1, g', Nodes(t), Nodes(t), header);
    }
  }

  lemma OnlyPlace(t: Tree, header: Node, j: nat)
    requires Distinct(t) && header !in Nodes(t) && j <= |InOrder(t)|
    ensures forall k: nat ::
        k <= |InOrder(t)| && NodeAt(InOrder(t), k, header) == NodeAt(InOrder(t), j, header) ==> k == j
  {
    forall k: nat | k <= |InOrder(t)| && NodeAt(InOrder(t), k, header) == NodeAt(InOrder(t), j, header) ensures k == j {
      NodeAtOnly(t, header, k, j);
    }
  }

  lemma CloseUp(s: seq<Node>, i: nat, k: nat, header: Node)
    requires i <= k < |s|
    ensures var x := s[..i] + s[k..];
      i < |x| && x[i] == s[k] && x[..i] + x[i + 1..] == s[..i] + s[k + 1..]
    ensures NodeAt(s[..i] + s[k + 1..], i, header) == NodeAt(s, k + 1, header)
  {
  }

  /** The nodes not equivalent to `key`. */
  ghost function Others(comp: Comparator, s: seq<Node>, key: Key): seq<Node>
  {
    if s == [] then [] else (if Equivalent(comp, s[0], key) then [] else [s[0]]) + Others(comp, s[1..], key)
  }

  lemma OneMore(s: seq<Node>, i: nat, j: nat)
    requires s != [] && i <= j <= |s|
    ensures i > 0 ==> [s[0]] + (s[1..][..i - 1] + s[1..][j - 1..]) == s[..i] + s[j..]
    ensures i == 0 < j ==> [] + (s[1..][..0] + s[1..][j - 1..]) == s[..i] + s[j..]
    ensures j == 0 ==> [s[0]] + (s[1..][..0] + s[1..][0..]) == s[..0] + s[0..]
  {
  }

  lemma {:induction false} OthersOutside(comp: Comparator, s: seq<Node>, i: nat, j: nat, key: Key)
    requires i <= j <= |s| && forall k :: 0 <= k < |s| ==> (Equivalent(comp, s[k], key) <==> i <= k < j)
    ensures Others(comp, s, key) == s[..i] + s[j..]
  {
    if s != [] {
      hide Equivalent;
      var i', j' := if i > 0 then i - 1 else 0, if j > 0 then j - 1 else 0;
      assert forall k :: 0 <= k < |s| - 1 ==> s[1..][k] == s[k + 1];
      OthersOutside(comp, s[1..], i', j', key);
      OneMore(s, i, j);
    }
  }

  /** What is left around the range of the equivalent nodes is the others. */
  lemma OthersAround(comp: Comparator, s: seq<Node>, key: Key)
    requires StrictWeakOrder(comp) && Sorted(comp, s)
    ensures var i, j := Rank(s, Less(comp, key)), Rank(s, NotGreater(comp, key));
      i <= j <= |s| && j - i == Occurrences(comp, s, key) && s[..i] + s[j..] == Others(comp, s, key)
  {
    var i, j := Rank(s, Less(comp, key)), Rank(s, NotGreater(comp, key));
    OccurrencesBetween(comp, s, key);
    RankFacts(s, NotGreater(comp, key));
    forall k | 0 <= k < |s| ensures Equivalent(comp, s[k], key) <==> i <= k < j {
      RangeExact(comp, s, key, key, true, true, k);
    }
    OthersOutside(comp, s, i, j, key);
  }

  lemma SameUntouched(g: Store, ns: set<Node>, header: Node)
    ensures Untouched(g, g, ns, header)
  {
  }

  lemma RangeKeepsOrder(s: seq<Node>, i: nat, j: nat)
    requires i <= j <= |s|
    ensures OrderKept(s, s[..i] + s[j..])
  {
    forall comp: Comparator | Sorted(comp, s) ensures Sorted(comp, s[..i] + s[j..]) {
      SortedAround(comp, s, i, j);
    }
  }

  lemma SortedAround(comp: Comparator, s: seq<Node>, i: nat, j: nat)
    requires Sorted(comp, s) && i <= j <= |s|
    ensures Sorted(comp, s[..i] + s[j..])
  {
    var s' := s[..i] + s[j..];
    assert forall k :: 0 <= k < |s'| ==> s'[k] == s[if k < i then k else k - i + j];
  }

  /** The result of merging with some more nodes of the source in front that stay. */
  ghost function Kept(m: (seq<Node>, seq<Node>), front: seq<Node>): (seq<Node>, seq<Node>)
  {
    (m.0, front + m.1)
  }

  lemma MergeMoves(comp: Comparator, a: seq<Node>, b: seq<Node>, k: nat)
    requires k < |b| && forall n <- a :: !Equivalent(comp, n, b[k].key)
    ensures var r := Rank(a, NotGreater(comp, b[k].key));
      r <= |a| && MergedUnique(comp, a, b[k..]) == MergedUnique(comp, InsertedAt(a, r, b[k]), b[k + 1..])
  {
    RankFacts(a, NotGreater(comp, b[k].key));
    assert b[k..][1..] == b[k + 1..] && b[k..][0] == b[k];
  }

  lemma MergeStays(comp: Comparator, a: seq<Node>, b: seq<Node>, k: nat)
    requires k < |b| && !forall n <- a :: !Equivalent(comp, n, b[k].key)
    ensures Kept(MergedUnique(comp, a, b[k..]), b[..k]) == Kept(MergedUnique(comp, a, b[k + 1..]), b[..k + 1])
  {
    assert b[k..][1..] == b[k + 1..] && b[k..][0] == b[k];
    var m := MergedUnique(comp, a, b[k + 1..]).1;
    assert b[..k] + ([b[k]] + m) == b[..k + 1] + m;
  }

  lemma Around(s: seq<Node>, k: nat)
    requires k < |s|
    ensures (s[..k] + s[k + 1..])[..k] == s[..k] && (s[..k] + s[k + 1..])[k..] == s[k + 1..]
  {
  }

  /** The two trees after some turns of the merging loop, of which the nodes from index `k` on are yet to come. */
  ghost predicate Merging(g: Store, t1: Tree, h1: Node, t2: Tree, h2: Node, comp: Comparator, a: seq<Node>,
                          b: seq<Node>, k: nat)
  {
    && TwoTrees(g, t1, h1, t2, h2) && Sorted(comp, InOrder(t1)) && k <= |InOrder(t2)|
    && MergedUnique(comp, a, b) == Kept(MergedUnique(comp, InOrder(t1), InOrder(t2)[k..]), InOrder(t2)[..k])
  }

  lemma MergeStart(g: Store, t1: Tree, h1: Node, t2: Tree, h2: Node, comp: Comparator)
    requires TwoTrees(g, t1, h1, t2, h2) && Sorted(comp, InOrder(t1))
    ensures Merging(g, t1, h1, t2, h2, comp, InOrder(t1), InOrder(t2), 0)
  {
    var m := MergedUnique(comp, InOrder(t1), InOrder(t2));
    assert InOrder(t2)[0..] == InOrder(t2) && [] + m.1 == m.1;
  }

  lemma FirstLink(g: Store, t1: Tree, h1: Node, t2: Tree, h2: Node)
    requires Matches(g) && TwoTrees(g, t1, h1, t2, h2)
    ensures h2.left == NodeAt(InOrder(t2), 0, h2)
  {
  }

  lemma MergeEnd(g: Store, t1: Tree, h1: Node, t2: Tree, h2: Node, comp: Comparator, a: seq<Node>, b: seq<Node>, k: nat)
    requires Merging(g, t1, h1, t2, h2, comp, a, b, k) && NodeAt(InOrder(t2), k, h2) == h2
    ensures MergedUnique(comp, a, b) == (InOrder(t1), InOrder(t2))
    ensures TwoTrees(g, t1, h1, t2, h2) && Sorted(comp, InOrder(t1))
  {
    var s := InOrder(t2);
    NodeAtOnly(t2, h2, k, |s|);
    assert s[..k] == s && s[k..] == [] && s + [] == s;
    assert MergedUnique(comp, InOrder(t1), []) == (InOrder(t1), []);
  }

  /** Nothing but the two trees has changed, and they have the nodes they had. */
  ghost predicate SameTwo(g: Store, g': Store, ns: set<Node>, h1: Node, h2: Node, t1: Tree, t2: Tree)
  {
    UntouchedBut(g, g', ns, h1, h2) && Nodes(t1) + Nodes(t2) == ns
  }

  lemma SameTwoStart(g: Store, h1: Node, h2: Node, t1: Tree, t2: Tree)
    ensures SameTwo(g, g, Nodes(t1) + Nodes(t2), h1, h2, t1, t2)
  {
  }

  lemma SameTwoThen(g: Store, g1: Store, g2: Store, ns: set<Node>, h1: Node, h2: Node, t1: Tree, t2: Tree, t1': Tree,
                    t2': Tree)
    requires SameTwo(g, g1, ns, h1, h2, t1, t2) && SameTwo(g1, g2, Nodes(t1) + Nodes(t2), h1, h2, t1', t2')
    ensures SameTwo(g, g2, ns, h1, h2, t1', t2')
  {
    UntouchedButTwice(g, g1, g2, ns, Nodes(t1) + Nodes(t2), h1, h2);
  }

  lemma SameTwoParts(g: Store, g1: Store, ns: set<Node>, h1: Node, h2: Node, t1: Tree, t2: Tree)
    requires SameTwo(g, g1, ns, h1, h2, t1, t2)
    ensures UntouchedBut(g, g1, ns, h1, h2) && Nodes(t1) + Nodes(t2) == ns && g1.nodes == g.nodes
  {
  }

  lemma SameTwoMoved(g: Store, g': Store, h1: Node, h2: Node, t1: Tree, t2: Tree, t1': Tree, t2': Tree, z: Node)
    requires UntouchedBut(g, g', Nodes(t1) + Nodes(t2), h1, h2) && z in Nodes(t2)
    requires Nodes(t1') == Nodes(t1) + {z} && Nodes(t2') == Nodes(t2) - {z}
    ensures SameTwo(g, g', Nodes(t1) + Nodes(t2), h1, h2, t1', t2')
  {
    hide Nodes, UntouchedBut;
    MovedOver(Nodes(t1), Nodes(t2), z);
  }

  lemma MovedOver(a: set<Node>, b: set<Node>, z: Node)
    requires z in b
    ensures (a + {z}) + (b - {z}) == a + b
  {
  }

  method MergeUniqueTurn(h1: Node, comp: Comparator, h2: Node, p: Node, ghost g: Store, ghost t1: Tree, ghost t2: Tree,
                         ghost a: seq<Node>, ghost b: seq<Node>, ghost k: nat)
    returns (next: Node, transferred: bool, ghost g': Store, ghost t1': Tree, ghost t2': Tree)
    requires Matches(g) && Merging(g, t1, h1, t2, h2, comp, a, b, k) && StrictWeakOrder(comp)
    requires p != h2 && p == NodeAt(InOrder(t2), k, h2)
    modifies g.nodes
    ensures Matches(g') && g'.nodes == g.nodes && SameTwo(g, g', Nodes(t1) + Nodes(t2), h1, h2, t1', t2')
    ensures var k' := if transferred then k else k + 1;
      Merging(g', t1', h1, t2', h2, comp, a, b, k') && next == NodeAt(InOrder(t2'), k', h2)
    ensures |InOrder(t2')| == |InOrder(t2)| - (if transferred then 1 else 0)
    ensures |InOrder(t1')| == |InOrder(t1)| + (if transferred then 1 else 0)
  {
    IndexedNode(t2, k);
    OrderNoRepeats(t2);
    WithoutIndex(InOrder(t2), k);
    Around(InOrder(t2), k);
    next := Next(p, h2, g, t2, k);
    transferred, g', t1', t2' := TransferUnique(h1, comp, h2, p, g, t1, t2);
    SameTwoStart(g, h1, h2, t1, t2);
    if transferred {
      SameTwoMoved(g, g', h1, h2, t1, t2, t1', t2', p);
      MergeMoves(comp, InOrder(t1), InOrder(t2), k);
    } else {
      MergeStays(comp, InOrder(t1), InOrder(t2), k);
    }
  }

  method MergeEqualTurn(h1: Node, comp: Comparator, h2: Node, p: Node, ghost g: Store, ghost t1: Tree, ghost t2: Tree)
    returns (next: Node, ghost g': Store, ghost t1': Tree, ghost t2': Tree)
    requires Matches(g) && TwoTrees(g, t1, h1, t2, h2) && StrictWeakOrder(comp) && Sorted(comp, InOrder(t1))
    requires p != h2 && p == NodeAt(InOrder(t2), 0, h2)
    modifies g.nodes
    ensures Matches(g') && g'.nodes == g.nodes && TwoTrees(g', t1', h1, t2', h2) && Sorted(comp, InOrder(t1'))
    ensures SameTwo(g, g', Nodes(t1) + Nodes(t2), h1, h2, t1', t2')
    ensures MergedEqual(comp, InOrder(t1'), InOrder(t2')) == MergedEqual(comp, InOrder(t1), InOrder(t2))
    ensures next == NodeAt(InOrder(t2'), 0, h2)
    ensures |InOrder(t1')| == |InOrder(t1)| + 1 && |InOrder(t2')| == |InOrder(t2)| - 1
  {
    IndexedNode(t2, 0);
    next := Next(p, h2, g, t2, 0);
    g', t1', t2' := TransferEqual(h1, comp, h2, p, g, t1, t2);
    SameTwoMoved(g, g', h1, h2, t1, t2, t1', t2', p);
  }

  class BsTree {
    const header: Node
    /** Whether erased nodes are marked as being in no tree, as the hooks in safe mode want it. */
    const safeMode: bool
    var size: nat
    ghost var tree: Tree

    constructor (header: Node, safeMode: bool, ghost g: Store)
      requires AvlValid(g, Leaf, header)
      ensures this.header == header && this.safeMode == safeMode && tree == Leaf && Intact(g)
    {
      this.header, this.safeMode := header, safeMode;
      size, tree := 0, Leaf;
    }

    ghost predicate Intact(g: Store)
      reads this
    {
      AvlValid(g, tree, header) && size == |InOrder(tree)|
    }

    ghost predicate Orders(comp: Comparator)
      reads this
    {
      StrictWeakOrder(comp) && Sorted(comp, InOrder(tree))
    }

    method InsertUnique(n: Node, comp: Comparator, ghost g: Store)
      returns (present: Node?, inserted: bool, ghost g': Store)
      requires Matches(g) && Intact(g) && Orders(comp) && n in g.nodes && n != header && n !in Nodes(tree)
      modifies this`size, this`tree, g.nodes
      ensures Matches(g') && Intact(g') && Orders(comp) && Untouched(g, g', old(Nodes(tree)) + {n}, header)
      ensures inserted <==> forall m <- old(InOrder(tree)) :: !Equivalent(comp, m, n.key)
      ensures inserted ==> InsertedLast(comp, old(InOrder(tree)), InOrder(tree), n) && size == old(size) + 1
      ensures inserted ==> Nodes(tree) == old(Nodes(tree)) + {n}
      ensures !inserted ==>
          g' == g && tree == old(tree) && present != null && present in InOrder(tree)
          && Equivalent(comp, present, n.key)
    {
      hide AvlValid, Sorted, InOrder, Nodes;
      present, inserted, g', tree := InsertUniqueNode(header, n, comp, g, tree);
      if inserted {
        size := size + 1;
      }
    }

    /** Erases the node at index `i`, and returns the one after it. */
    method Erase(z: Node, ghost g: Store, ghost i: nat) returns (next: Node, ghost g': Store)
      requires Matches(g) && Intact(g) && i < |InOrder(tree)| && z == InOrder(tree)[i]
      modifies this`size, this`tree, g.nodes
      ensures Matches(g') && Intact(g') && Untouched(g, g', old(Nodes(tree)), header)
      ensures InOrder(tree) == old(InOrder(tree)[..i] + InOrder(tree)[i + 1..]) && size == old(size) - 1
      ensures OrderKept(old(InOrder(tree)), InOrder(tree))
      ensures next == NodeAt(InOrder(tree), i, header) && Nodes(tree) == old(Nodes(tree)) - {z}
      ensures safeMode ==> g'.parent(z) == g'.left(z) == g'.right(z) == null
    {
      hide AvlValid, OrderKept, InOrder, Nodes;
      next, g', tree := EraseNode(header, z, safeMode, g, tree, i);
      size := size - 1;
    }

    /** One turn of the loop below: of the nodes `s`, those from index `i` to `k` are gone already. */
    method EraseNext(b: Node, ghost g: Store, ghost s: seq<Node>, ghost i: nat, ghost k: nat)
      returns (next: Node, ghost g': Store)
      requires Matches(g) && Intact(g) && i <= k < |s| && b == s[k] && InOrder(tree) == s[..i] + s[k..]
      modifies this`size, this`tree, g.nodes
      ensures Matches(g') && Intact(g') && size == old(size) - 1
      ensures Untouched(g, g', old(Nodes(tree)), header) && Nodes(tree) <= old(Nodes(tree))
      ensures InOrder(tree) == s[..i] + s[k + 1..] && next == NodeAt(s, k + 1, header)
    {
      CloseUp(s, i, k, header);
      next, g' := Erase(b, g, i);
    }

    /** Erases the nodes from index `i` up to, but not including, index `j`. */
    method PrivateErase(b0: Node, e: Node, ghost g: Store, ghost i: nat, ghost j: nat)
      returns (b: Node, n: nat, ghost g': Store)
      requires Matches(g) && Intact(g) && i <= j <= |InOrder(tree)|
      requires b0 == NodeAt(InOrder(tree), i, header) && e == NodeAt(InOrder(tree), j, header)
      modifies this`size, this`tree, g.nodes
      ensures Matches(g') && Intact(g') && b == e && n == j - i
      ensures InOrder(tree) == old(InOrder(tree)[..i] + InOrder(tree)[j..]) && size == old(size) - n
      ensures Untouched(g, g', old(Nodes(tree)), header) && OrderKept(old(InOrder(tree)), InOrder(tree))
    {
      hide *;
      b, n, g' := b0, 0, g;
      ghost var s, ns := InOrder(tree), Nodes(tree);
      assert s == s[..i] + s[i..];
      EraseBegins(g, i, j);
      SameUntouched(g, ns, header);
      while b != e
        invariant Matches(g') && Intact(g') && Untouched(g, g', ns, header) && Nodes(tree) <= ns && i + n <= j
        invariant InOrder(tree) == s[..i] + s[i + n..] && size == old(size) - n && g'.nodes == g.nodes
        invariant b == NodeAt(s, i + n, header) && (b == e <==> i + n == j)
        decreases j - n
      {
        ghost var g1, now := g', Nodes(tree);
        b, g' := EraseNext(b, g1, s, i, i + n);
        UntouchedTwice(g, g1, g', ns, now, header);
        UntouchedNodes(g, g', ns, header);
        n := n + 1;
      }
      RangeKeepsOrder(s, i, j);
    }

    /** Nodes at different indices are different, and different from the header. */
    lemma EraseBegins(g: Store, i: nat, j: nat)
      requires Intact(g) && i <= j <= |InOrder(tree)|
      ensures forall k: nat ::
          k <= |InOrder(tree)| ==> (NodeAt(InOrder(tree), k, header) == NodeAt(InOrder(tree), j, header) <==> k == j)
      ensures forall k: nat :: k < j ==> NodeAt(InOrder(tree), k, header) == InOrder(tree)[k]
    {
      OnlyPlace(tree, header, j);
    }

    /** Erases all the nodes equivalent to `key`, and counts them. */
    method EraseKey(key: Key, comp: Comparator, ghost g: Store) returns (n: nat, ghost g': Store)
      requires Matches(g) && Intact(g) && Orders(comp)
      modifies this`size, this`tree, g.nodes
      ensures Matches(g') && Intact(g') && Orders(comp) && size == old(size) - n
      ensures Untouched(g, g', old(Nodes(tree)), header) && OrderKept(old(InOrder(tree)), InOrder(tree))
      ensures n == Occurrences(comp, old(InOrder(tree)), key)
      ensures InOrder(tree) == Others(comp, old(InOrder(tree)), key)
    {
      var first, second := EqualRange(header, key, comp, g, tree);
      ghost var s := InOrder(tree);
      OthersAround(comp, s, key);
      var b;
      b, n, g' := PrivateErase(first, second, g, Rank(s, Less(comp, key)), Rank(s, NotGreater(comp, key)));
    }

    /** The two containers share no node. */
    ghost predicate ApartFrom(source: BsTree, g: Store)
      reads this, source
    {
      && TwoTrees(g, tree, header, source.tree, source.header)
      && size == |InOrder(tree)| && source.size == |InOrder(source.tree)|
    }

    method CountMoved(source: BsTree, ghost g: Store)
      requires source != this && source.size > 0 && Matches(g)
      modifies this`size, source`size
      ensures size == old(size) + 1 && source.size == old(source.size) - 1 && Matches(g)
    {
      source.size := source.size - 1;
      size := size + 1;
    }

    ghost method Record(source: BsTree, t1: Tree, t2: Tree, g: Store)
      requires source != this && Matches(g)
      modifies this`tree, source`tree
      ensures tree == t1 && source.tree == t2 && Matches(g)
    {
      tree, source.tree := t1, t2;
    }

    method MergeUniqueNext(source: BsTree, p: Node, comp: Comparator, ghost g: Store, ghost t1: Tree, ghost t2: Tree,
                           ghost a: seq<Node>, ghost b: seq<Node>, ghost k: nat)
      returns (next: Node, ghost g': Store, ghost t1': Tree, ghost t2': Tree, ghost k': nat)
      requires source != this && Matches(g) && Merging(g, t1, header, t2, source.header, comp, a, b, k)
          && StrictWeakOrder(comp)
      requires size == |InOrder(t1)| && source.size == |InOrder(t2)|
      requires p != source.header && p == NodeAt(InOrder(t2), k, source.header)
      modifies this`size, source`size, g.nodes
      ensures Matches(g') && Merging(g', t1', header, t2', source.header, comp, a, b, k')
      ensures g'.nodes == g.nodes && SameTwo(g, g', Nodes(t1) + Nodes(t2), header, source.header, t1', t2')
      ensures size == |InOrder(t1')| && source.size == |InOrder(t2')|
      ensures next == NodeAt(InOrder(t2'), k', source.header) && |InOrder(t2')| - k' < |InOrder(t2)| - k
    {
      hide *;
      var transferred;
      next, transferred, g', t1', t2' := MergeUniqueTurn(header, comp, source.header, p, g, t1, t2, a, b, k);
      k' := k + 1;
      if transferred {
        k' := k;
        CountMoved(source, g');
      }
    }

    /** Moves every node of `source` here that has no equivalent here yet. */
    method MergeUnique(source: BsTree, comp: Comparator, ghost g: Store) returns (ghost g': Store)
      requires source != this && Matches(g) && ApartFrom(source, g) && Orders(comp)
      modifies this`size, this`tree, source`size, source`tree, g.nodes
      ensures Matches(g') && ApartFrom(source, g') && Orders(comp)
      ensures (InOrder(tree), InOrder(source.tree)) == MergedUnique(comp, old(InOrder(tree)), old(InOrder(source.tree)))
      ensures OrderKept(old(InOrder(source.tree)), InOrder(source.tree))
      ensures UntouchedBut(g, g', old(Nodes(tree) + Nodes(source.tree)), header, source.header)
      ensures Nodes(tree) + Nodes(source.tree) == old(Nodes(tree) + Nodes(source.tree))
    {
      hide Merging, SameTwo, OrderKept, UntouchedBut, InOrder, Nodes, MergedUnique;
      g' := g;
      ghost var t1, t2, a, b, k := tree, source.tree, InOrder(tree), InOrder(source.tree), 0;
      ghost var ns := Nodes(t1) + Nodes(t2);
      MergeStart(g, t1, header, t2, source.header, comp);
      FirstLink(g, t1, header, t2, source.header);
      SameTwoStart(g, header, source.header, t1, t2);
      var it, itend: Node := source.header.left, source.header;
      while it != itend
        invariant Matches(g') && g'.nodes == g.nodes && Merging(g', t1, header, t2, source.header, comp, a, b, k)
        invariant size == |InOrder(t1)| && source.size == |InOrder(t2)|
            && SameTwo(g, g', ns, header, source.header, t1, t2)
        invariant it == NodeAt(InOrder(t2), k, source.header)
        decreases |InOrder(t2)| - k
      {
        ghost var g1, was1, was2 := g', t1, t2;
        it, g', t1, t2, k := MergeUniqueNext(source, it, comp, g1, t1, t2, a, b, k);
        SameTwoThen(g, g1, g', ns, header, source.header, was1, was2, t1, t2);
      }
      MergeEnd(g', t1, header, t2, source.header, comp, a, b, k);
      MergedUniqueKeepsOrder(comp, a, b);
      SameTwoParts(g, g', ns, header, source.header, t1, t2);
      Record(source, t1, t2, g');
    }

    method MergeEqualNext(source: BsTree, p: Node, comp: Comparator, ghost g: Store, ghost t1: Tree, ghost t2: Tree)
      returns (next: Node, ghost g': Store, ghost t1': Tree, ghost t2': Tree)
      requires source != this && Matches(g) && TwoTrees(g, t1, header, t2, source.header)
      requires StrictWeakOrder(comp) && Sorted(comp, InOrder(t1))
      requires size == |InOrder(t1)| && source.size == |InOrder(t2)|
      requires p != source.header && p == NodeAt(InOrder(t2), 0, source.header)
      modifies this`size, source`size, g.nodes
      ensures Matches(g') && TwoTrees(g', t1', header, t2', source.header)
      ensures g'.nodes == g.nodes && SameTwo(g, g', Nodes(t1) + Nodes(t2), header, source.header, t1', t2')
      ensures Sorted(comp, InOrder(t1')) && size == |InOrder(t1')| && source.size == |InOrder(t2')|
      ensures MergedEqual(comp, InOrder(t1'), InOrder(t2')) == MergedEqual(comp, InOrder(t1), InOrder(t2))
      ensures next == NodeAt(InOrder(t2'), 0, source.header) && |InOrder(t2')| < |InOrder(t2)|
    {
      next, g', t1', t2' := MergeEqualTurn(header, comp, source.header, p, g, t1, t2);
      CountMoved(source, g');
    }

    /** Moves every node of `source` here. */
    method MergeEqual(source: BsTree, comp: Comparator, ghost g: Store) returns (ghost g': Store)
      requires source != this && Matches(g) && ApartFrom(source, g) && Orders(comp)
      modifies this`size, this`tree, source`size, source`tree, g.nodes
      ensures Matches(g') && ApartFrom(source, g') && Orders(comp)
      ensures InOrder(source.tree) == []
      ensures InOrder(tree) == MergedEqual(comp, old(InOrder(tree)), old(InOrder(source.tree)))
      ensures UntouchedBut(g, g', old(Nodes(tree) + Nodes(source.tree)), header, source.header)
      ensures Nodes(tree) + Nodes(source.tree) == old(Nodes(tree) + Nodes(source.tree))
    {
      hide TwoTrees, SameTwo, UntouchedBut, InOrder, Nodes, MergedEqual, Sorted;
      g' := g;
      ghost var t1, t2 := tree, source.tree;
      ghost var ns := Nodes(t1) + Nodes(t2);
      ghost var merged := MergedEqual(comp, InOrder(t1), InOrder(t2));
      FirstLink(g, t1, header, t2, source.header);
      SameTwoStart(g, header, source.header, t1, t2);
      var it, itend: Node := source.header.left, source.header;
      while it != itend
        invariant Matches(g') && g'.nodes == g.nodes && TwoTrees(g', t1, header, t2, source.header)
        invariant Sorted(comp, InOrder(t1)) && size == |InOrder(t1)| && source.size == |InOrder(t2)|
        invariant MergedEqual(comp, InOrder(t1), InOrder(t2)) == merged
            && SameTwo(g, g', ns, header, source.header, t1, t2)
        invariant it == NodeAt(InOrder(t2), 0, source.header)
        decreases |InOrder(t2)|
      {
        ghost var g1, was1, was2 := g', t1, t2;
        it, g', t1, t2 := MergeEqualNext(source, it, comp, g1, t1, t2);
        SameTwoThen(g, g1, g', ns, header, source.header, was1, was2, t1, t2);
      }
      MergeEqualEnd(g', t1, header, t2, source.header, comp);
      SameTwoParts(g, g', ns, header, source.header, t1, t2);
      Record(source, t1, t2, g');
    }
  }

  lemma MergeEqualEnd(g: Store, t1: Tree, h1: Node, t2: Tree, h2: Node, comp: Comparator)
    requires TwoTrees(g, t1, h1, t2, h2) && NodeAt(InOrder(t2), 0, h2) == h2
    ensures InOrder(t2) == [] && MergedEqual(comp, InOrder(t1), InOrder(t2)) == InOrder(t1)
  {
    NodeAtOnly(t2, h2, 0, |InOrder(t2)|);
  }
}

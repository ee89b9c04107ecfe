/** Inserting into an AVL tree in every way the library offers, and moving a node from one tree to another. */
module AvlOperations {
  import opened Ordering
  import opened TreeNodes
  import opened TreeWalk
  import opened Positions
  import opened Search
  import opened AvlBalance
  import opened AvlInsert
  import opened AvlTree
  import opened BstErase
  import opened BstInsert
  import opened InsertChecks

  // ------------------------------------------------------------ insertion

  ghost function InsertedAt(s: seq<Node>, i: nat, n: Node): seq<Node>
    requires i <= |s|
  {
    s[..i] + [n] + s[i..]
  }

  lemma {:induction false} UnplugAvl(B: Node -> Balance, c: Ctx, t: Tree)
    requires Avl(B, Plug(c, t))
    ensures Avl(B, t) && CAvl(B, c, Height(t))
    decreases c
  {
    if !c.Top? {
      UnplugAvl(B, c.up, Grown(c, t));
    }
  }

  /** A new node can be linked in the empty place at index `i`. */
  lemma RoomAt(g: Store, t: Tree, header: Node, n: Node, i: nat)
    requires AvlValid(g, t, header) && i <= |InOrder(t)| && n in g.nodes && n != header && n !in Nodes(t)
    ensures var c := Gap(Top, t, i);
      && Room(g, header, n, c) && CAvl(g.balance, c, 0) && (!c.Top? ==> c.node != header)
      && (CParent(c, header) == header || CParent(c, header) in g.nodes) && CNodes(c) == Nodes(t)
  {
    hide *;
    var c := Gap(Top, t, i);
    AvlParts(g, t, header);
    GapPlug(Top, t, i);
    GapLinked(g, t, header, i);
    GapOrder(t, i);
    UnplugAvl(g.balance, c, Leaf);
    GapNodes(g, c, t, header);
    RoomIs(g, header, n, c, t);
  }

  lemma AvlParts(g: Store, t: Tree, header: Node)
    requires AvlValid(g, t, header)
    ensures Linked(g, Top, t, header) && Ends(g, header, InOrder(t)) && Avl(g.balance, t) && g.balance(header) == Zero
    ensures Plug(Top, t) == t && Height(Leaf) == 0
  {
    hide Linked, Ends, Avl;
  }

  lemma GapOrder(t: Tree, i: nat)
    requires i <= |InOrder(t)|
    ensures Before(Gap(Top, t, i)) + After(Gap(Top, t, i)) == InOrder(t)
  {
    hide InOrder, Gap;
    GapBefore(Top, t, i);
    GapAfter(Top, t, i);
    assert InOrder(t)[..i] + InOrder(t)[i..] == InOrder(t);
  }

  lemma GapNodes(g: Store, c: Ctx, t: Tree, header: Node)
    requires Linked(g, c, Leaf, header) && Plug(c, Leaf) == t
    ensures CNodes(c) == Nodes(t) && (!c.Top? ==> c.node != header)
    ensures CParent(c, header) == header || CParent(c, header) in g.nodes
  {
    hide Down, Up, CDown, CUp, Plug, CDistinct;
    PlugNodes(c, Leaf);
    assert !c.Top? ==> c.node in CNodes(c);
  }

  lemma RoomIs(g: Store, header: Node, n: Node, c: Ctx, t: Tree)
    requires Linked(g, c, Leaf, header) && Ends(g, header, InOrder(t)) && Before(c) + After(c) == InOrder(t)
    requires n in g.nodes && n != header && n !in Nodes(t) && CNodes(c) == Nodes(t)
    ensures Room(g, header, n, c)
  {
    hide Linked, Ends;
  }

  lemma PlugNew(c: Ctx, n: Node, s: seq<Node>, i: nat)
    requires i <= |s| && Before(c) == s[..i] && After(c) == s[i..]
    ensures InOrder(Plug(c, Bin(Leaf, n, Leaf))) == InsertedAt(s, i, n)
    ensures Nodes(Plug(c, Bin(Leaf, n, Leaf))) == CNodes(c) + {n}
  {
    PlugOrder(c, Bin(Leaf, n, Leaf));
    PlugNodes(c, Bin(Leaf, n, Leaf));
  }

  lemma PlugAt(t: Tree, n: Node, i: nat)
    requires i <= |InOrder(t)|
    ensures InOrder(Plug(Gap(Top, t, i), Bin(Leaf, n, Leaf))) == InsertedAt(InOrder(t), i, n)
    ensures Nodes(Plug(Gap(Top, t, i), Bin(Leaf, n, Leaf))) == Nodes(t) + {n}
  {
    GapBefore(Top, t, i);
    GapAfter(Top, t, i);
    GapPlug(Top, t, i);
    PlugNodes(Gap(Top, t, i), Leaf);
    PlugNew(Gap(Top, t, i), n, InOrder(t), i);
  }

  lemma CommittedKept(g: Store, g1: Store, t: Tree, header: Node, n: Node, i: nat)
    requires AvlValid(g, t, header) && i <= |InOrder(t)| && Room(g, header, n, Gap(Top, t, i))
    requires g1 == Committed(g, header, n, Gap(Top, t, i)) && CNodes(Gap(Top, t, i)) == Nodes(t)
    ensures Ends(g1, header, InsertedAt(InOrder(t), i, n)) && g1.balance(header) == Zero
    ensures Untouched(g, g1, Nodes(t) + {n}, header)
  {
    CommittedEnds(g, header, n, Gap(Top, t, i));
    CommittedWithin(g, header, n, Gap(Top, t, i));
    GapBefore(Top, t, i);
    GapAfter(Top, t, i);
  }

  lemma InsertDone(g: Store, g1: Store, g': Store, t: Tree, header: Node, n: Node, i: nat, c': Ctx, t': Tree)
    requires AvlValid(g, t, header) && i <= |InOrder(t)| && n in g.nodes && n != header && n !in Nodes(t)
    requires g1 == Committed(g, header, n, Gap(Top, t, i))
    requires Restored(g1, g', c', t', header, InsertedAt(InOrder(t), i, n), Nodes(t) + {n})
    ensures AvlValid(g', Plug(c', t'), header) && Untouched(g, g', Nodes(t) + {n}, header)
    ensures InOrder(Plug(c', t')) == InsertedAt(InOrder(t), i, n) && Nodes(Plug(c', t')) == Nodes(t) + {n}
  {
    hide *;
    RoomAt(g, t, header, n, i);
    CommittedKept(g, g1, t, header, n, i);
    WholeTree(g1, g', c', t', header, InsertedAt(InOrder(t), i, n), Nodes(t) + {n});
    UntouchedTwice(g, g1, g', Nodes(t) + {n}, Nodes(t) + {n}, header);
  }

  /** Links `n` at a place found by a check, and rebalances. */
  method InsertAt(header: Node, n: Node, d: CommitData, ghost g: Store, ghost t: Tree, ghost i: nat)
    returns (ghost g': Store, ghost t': Tree)
    requires Matches(g) && AvlValid(g, t, header) && i <= |InOrder(t)| && n in g.nodes && n != header && n !in Nodes(t)
    requires Names(d, Gap(Top, t, i), header)
    modifies g.nodes
    ensures Matches(g') && AvlValid(g', t', header) && Untouched(g, g', Nodes(t) + {n}, header)
    ensures InOrder(t') == InsertedAt(InOrder(t), i, n) && Nodes(t') == Nodes(t) + {n}
  {
    ghost var c := Gap(Top, t, i);
    RoomAt(g, t, header, n, i);
    CommittedLinked(g, header, n, c);
    PlugAt(t, n, i);
    ghost var g1 := InsertCommit(header, n, d, g, c);
    ghost var c';
    g', c', t' := RebalanceAfterInsertion(header, n, g1, c);
    InsertDone(g, g1, g', t, header, n, i, c', t');
    t' := Plug(c', t');
  }

  method InsertUniqueCommit(header: Node, n: Node, d: CommitData, comp: Comparator, ghost g: Store, ghost t: Tree)
    returns (ghost g': Store, ghost t': Tree)
    requires Matches(g) && AvlValid(g, t, header) && n in g.nodes && n != header && n !in Nodes(t)
    requires StrictWeakOrder(comp) && Sorted(comp, InOrder(t)) && d == UniquePlace(comp, t, n.key, header)
    modifies g.nodes
    ensures Matches(g') && AvlValid(g', t', header) && Untouched(g, g', Nodes(t) + {n}, header)
    ensures InsertedLast(comp, InOrder(t), InOrder(t'), n) && Nodes(t') == Nodes(t) + {n}
  {
    ghost var i := Rank(InOrder(t), NotGreater(comp, n.key));
    FitsLast(comp, InOrder(t), n);
    g', t' := InsertAt(header, n, d, g, t, i);
  }

  /** `s'` is `s` with `n` put in after all the nodes it is not less than, still sorted. */
  ghost predicate InsertedLast(comp: Comparator, s: seq<Node>, s': seq<Node>, n: Node)
  {
    && Sorted(comp, s') && Rank(s, NotGreater(comp, n.key)) <= |s|
    && s' == InsertedAt(s, Rank(s, NotGreater(comp, n.key)), n)
  }

  lemma FitsLast(comp: Comparator, s: seq<Node>, n: Node)
    requires StrictWeakOrder(comp) && Sorted(comp, s)
    ensures Rank(s, NotGreater(comp, n.key)) <= |s|
    ensures InsertedLast(comp, s, InsertedAt(s, Rank(s, NotGreater(comp, n.key)), n), n)
  {
    RanksFit(comp, s, n.key);
    FitsSorted(comp, s, n, Rank(s, NotGreater(comp, n.key)));
  }

  method InsertEqualUpperBound(header: Node, n: Node, comp: Comparator, ghost g: Store, ghost t: Tree)
    returns (ghost g': Store, ghost t': Tree)
    requires Matches(g) && AvlValid(g, t, header) && n in g.nodes && n != header && n !in Nodes(t)
    requires StrictWeakOrder(comp) && Sorted(comp, InOrder(t))
    modifies g.nodes
    ensures Matches(g') && AvlValid(g', t', header) && Untouched(g, g', Nodes(t) + {n}, header)
    ensures InsertedLast(comp, InOrder(t), InOrder(t'), n) && Nodes(t') == Nodes(t) + {n}
  {
    var d := InsertEqualUpperBoundCheck(header, n.key, comp, g, t);
    FitsLast(comp, InOrder(t), n);
    g', t' := InsertAt(header, n, d, g, t, Rank(InOrder(t), NotGreater(comp, n.key)));
  }

  method InsertEqualLowerBound(header: Node, n: Node, comp: Comparator, ghost g: Store, ghost t: Tree)
    returns (ghost g': Store, ghost t': Tree)
    requires Matches(g) && AvlValid(g, t, header) && n in g.nodes && n != header && n !in Nodes(t)
    requires StrictWeakOrder(comp) && Sorted(comp, InOrder(t))
    modifies g.nodes
    ensures Matches(g') && AvlValid(g', t', header) && Untouched(g, g', Nodes(t) + {n}, header)
    ensures Rank(InOrder(t), Less(comp, n.key)) <= |InOrder(t)|
    ensures InOrder(t') == InsertedAt(InOrder(t), Rank(InOrder(t), Less(comp, n.key)), n)
    ensures Sorted(comp, InOrder(t')) && Nodes(t') == Nodes(t) + {n}
  {
    ghost var i := Rank(InOrder(t), Less(comp, n.key));
    var d := InsertEqualLowerBoundCheck(header, n.key, comp, g, t);
    RanksFit(comp, InOrder(t), n.key);
    FitsSorted(comp, InOrder(t), n, i);
    g', t' := InsertAt(header, n, d, g, t, i);
  }

  /** The node goes as near in front of the hint as the order allows. */
  method InsertEqual(header: Node, hint: Node, n: Node, comp: Comparator, ghost g: Store, ghost t: Tree, ghost i: nat)
    returns (ghost g': Store, ghost t': Tree, ghost j: nat)
    requires Matches(g) && AvlValid(g, t, header) && n in g.nodes && n != header && n !in Nodes(t)
    requires StrictWeakOrder(comp) && Sorted(comp, InOrder(t))
    requires i <= |InOrder(t)| && hint == NodeAt(InOrder(t), i, header)
    modifies g.nodes
    ensures Matches(g') && AvlValid(g', t', header) && Untouched(g, g', Nodes(t) + {n}, header)
    ensures j <= |InOrder(t)| && Nearest(comp, InOrder(t), n.key, i, j)
    ensures InOrder(t') == InOrder(t)[..j] + [n] + InOrder(t)[j..]
    ensures Sorted(comp, InOrder(t')) && Nodes(t') == Nodes(t) + {n}
  {
    var d := InsertEqualCheck(header, hint, n.key, comp, g, t, i);
    j :| NearestPlace(comp, t, n.key, header, i, d, j);
    FitsSorted(comp, InOrder(t), n, j);
    g', t' := InsertAt(header, n, d, g, t, j);
  }

  method InsertBefore(header: Node, pos: Node, n: Node, ghost g: Store, ghost t: Tree, ghost i: nat)
    returns (ghost g': Store, ghost t': Tree)
    requires Matches(g) && AvlValid(g, t, header) && n in g.nodes && n != header && n !in Nodes(t)
    requires i <= |InOrder(t)| && pos == NodeAt(InOrder(t), i, header)
    modifies g.nodes
    ensures Matches(g') && AvlValid(g', t', header) && Untouched(g, g', Nodes(t) + {n}, header)
    ensures InOrder(t') == InsertedAt(InOrder(t), i, n) && Nodes(t') == Nodes(t) + {n}
  {
    var d := InsertBeforeCheck(header, pos, g, t, i);
    g', t' := InsertAt(header, n, d, g, t, i);
  }

  method PushBack(header: Node, n: Node, ghost g: Store, ghost t: Tree) returns (ghost g': Store, ghost t': Tree)
    requires Matches(g) && AvlValid(g, t, header) && n in g.nodes && n != header && n !in Nodes(t)
    modifies g.nodes
    ensures Matches(g') && AvlValid(g', t', header) && Untouched(g, g', Nodes(t) + {n}, header)
    ensures InOrder(t') == InOrder(t) + [n] && Nodes(t') == Nodes(t) + {n}
  {
    var d := PushBackCheck(header, g, t);
    g', t' := InsertAt(header, n, d, g, t, |InOrder(t)|);
  }

  method PushFront(header: Node, n: Node, ghost g: Store, ghost t: Tree) returns (ghost g': Store, ghost t': Tree)
    requires Matches(g) && AvlValid(g, t, header) && n in g.nodes && n != header && n !in Nodes(t)
    modifies g.nodes
    ensures Matches(g') && AvlValid(g', t', header) && Untouched(g, g', Nodes(t) + {n}, header)
    ensures InOrder(t') == [n] + InOrder(t) && Nodes(t') == Nodes(t) + {n}
  {
    var d := PushFrontCheck(header, g, t);
    g', t' := InsertAt(header, n, d, g, t, 0);
  }
}

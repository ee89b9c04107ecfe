/** Moving a node from one AVL tree to another. */
module AvlTransfer {
  import opened Ordering
  import opened TreeNodes
  import opened Rotations
  import opened TreeWalk
  import opened Positions
  import opened Search
  import opened AvlBalance
  import opened AvlInsert
  import opened AvlTree
  import opened AvlOperations
  import opened BstErase
  import opened BstErased
  import opened BstInsert
  import opened InsertChecks

  /** Two AVL trees without a node in common. */
  ghost predicate TwoTrees(g: Store, t1: Tree, h1: Node, t2: Tree, h2: Node)
  {
    && AvlValid(g, t1, h1) && AvlValid(g, t2, h2) && Away(Nodes(t2), h2, Top, t1, h1)
    && Nodes(t1) !! Nodes(t2)
  }

  /** The nodes of `ns` and the header `h` are none of those of another tree. */
  ghost predicate Away(ns: set<Node>, h: Node, c: Ctx, t: Tree, header: Node)
  {
    && ns !! Nodes(t) && ns !! CNodes(c) && header !in ns
    && h !in Nodes(t) && h !in CNodes(c) && h != header
  }

  /** Changes elsewhere do not matter to a tree. */
  lemma LinkedAway(g: Store, g': Store, ns: set<Node>, h: Node, c: Ctx, t: Tree, header: Node)
    requires Linked(g, c, t, header) && Untouched(g, g', ns, h) && Away(ns, h, c, t, header)
    ensures Linked(g', c, t, header)
    ensures g'.left(header) == g.left(header) && g'.right(header) == g.right(header)
        && g'.balance(header) == g.balance(header)
  {
    FrameLinked(g, g', c, t, header, ns + {h});
  }

  lemma AvlAway(g: Store, g': Store, ns: set<Node>, h: Node, t: Tree, header: Node)
    requires AvlValid(g, t, header) && Untouched(g, g', ns, h) && Away(ns, h, Top, t, header)
    ensures AvlValid(g', t, header)
  {
    LinkedAway(g, g', ns, h, Top, t, header);
    FrameAvl(g.balance, g'.balance, t);
  }

  /** The first half: `z` leaves the second tree, whose shape is not yet repaired, and arrives in the first. */
  method Relink(h1: Node, h2: Node, z: Node, d: CommitData,
                ghost g: Store, ghost t1: Tree, ghost i: nat, ghost c2: Ctx, ghost l: Tree, ghost r: Tree)
    returns (x: Node?, xParent: Node, y: Node, ghost g1: Store, ghost g2: Store)
    requires Matches(g) && TwoTrees(g, t1, h1, Plug(c2, Bin(l, z, r)), h2) && Linked(g, c2, Bin(l, z, r), h2)
    requires i <= |InOrder(t1)| && Names(d, Gap(Top, t1, i), h1)
    modifies g.nodes
    ensures Matches(g2) && g1 == ErasedStore(g, c2, l, z, r, h2) && g2 == Committed(g1, h1, z, Gap(Top, t1, i))
    ensures x == Root(ErasedTree(l, r)) && xParent == CParent(ErasedCtx(c2, l, r), h2) && y == Successor(l, z, r)
    ensures Parted(g, g1, g2, t1, h1, i, c2, l, z, r, h2)
  {
    x, xParent, y, g1 := BstErase.Erase(h2, z, g, c2, l, r);
    ErasedAway(g, t1, h1, c2, l, z, r, h2);
    PlugAround(c2, l, z, r, h2);
    RoomAt(g1, t1, h1, z, i);
    g2 := InsertCommit(h1, z, d, g1, Gap(Top, t1, i));
    CommittedAway(g, g1, t1, h1, i, c2, l, z, r, h2);
  }

  /** What the first half leaves: each tree linked, neither balanced yet. */
  ghost predicate Parted(g: Store, g1: Store, g2: Store, t1: Tree, h1: Node, i: nat, c2: Ctx, l: Tree, z: Node,
                         r: Tree, h2: Node)
    requires i <= |InOrder(t1)|
  {
    && Untouched(g, g1, Nodes(Plug(c2, Bin(l, z, r))), h2) && Untouched(g1, g2, Nodes(t1) + {z}, h1)
        && g1.balance == g2.balance == g.balance
    && AvlValid(g1, t1, h1)
    && Linked(g2, ErasedCtx(c2, l, r), ErasedTree(l, r), h2)
    && Ends(g2, h2, InOrder(EraseResult(c2, l, r))) && g2.balance(h2) == Zero
    && Linked(g2, Gap(Top, t1, i), Bin(Leaf, z, Leaf), h1)
    && Ends(g2, h1, InsertedAt(InOrder(t1), i, z)) && g2.balance(h1) == Zero
  }

  lemma ErasedAway(g: Store, t1: Tree, h1: Node, c2: Ctx, l: Tree, z: Node, r: Tree, h2: Node)
    requires TwoTrees(g, t1, h1, Plug(c2, Bin(l, z, r)), h2) && Linked(g, c2, Bin(l, z, r), h2)
    ensures var g1 := ErasedStore(g, c2, l, z, r, h2);
      g1.balance == g.balance && Untouched(g, g1, Nodes(Plug(c2, Bin(l, z, r))), h2) && AvlValid(g1, t1, h1)
  {
    ErasedWithin(g, c2, l, z, r, h2);
    AvlAway(g, ErasedStore(g, c2, l, z, r, h2), Nodes(Plug(c2, Bin(l, z, r))), h2, t1, h1);
  }

  lemma CommittedAway(g: Store, g1: Store, t1: Tree, h1: Node, i: nat, c2: Ctx, l: Tree, z: Node, r: Tree, h2: Node)
    requires TwoTrees(g, t1, h1, Plug(c2, Bin(l, z, r)), h2) && Linked(g, c2, Bin(l, z, r), h2) && i <= |InOrder(t1)|
    requires g1 == ErasedStore(g, c2, l, z, r, h2) && g1.balance == g.balance && AvlValid(g1, t1, h1)
    requires Untouched(g, g1, Nodes(Plug(c2, Bin(l, z, r))), h2) && z in g1.nodes && z != h1 && z !in Nodes(t1)
    ensures Parted(g, g1, Committed(g1, h1, z, Gap(Top, t1, i)), t1, h1, i, c2, l, z, r, h2)
  {
    ArrivedLinked(g1, t1, h1, z, i);
    LeftLinked(g, g1, Committed(g1, h1, z, Gap(Top, t1, i)), Nodes(t1), h1, c2, l, z, r, h2);
  }

  lemma ArrivedLinked(g1: Store, t1: Tree, h1: Node, z: Node, i: nat)
    requires AvlValid(g1, t1, h1) && i <= |InOrder(t1)| && z in g1.nodes && z != h1 && z !in Nodes(t1)
    ensures var g2 := Committed(g1, h1, z, Gap(Top, t1, i));
      && Linked(g2, Gap(Top, t1, i), Bin(Leaf, z, Leaf), h1)
      && Ends(g2, h1, InsertedAt(InOrder(t1), i, z)) && g2.balance(h1) == Zero
      && Untouched(g1, g2, Nodes(t1) + {z}, h1) && g2.balance == g1.balance
  {
    RoomAt(g1, t1, h1, z, i);
    CommittedWithin(g1, h1, z, Gap(Top, t1, i));
    CommittedLinked(g1, h1, z, Gap(Top, t1, i));
    CommittedEnds(g1, h1, z, Gap(Top, t1, i));
    GapBefore(Top, t1, i);
    GapAfter(Top, t1, i);
  }

  lemma LeftLinked(g: Store, g1: Store, g2: Store, ns: set<Node>, h1: Node, c2: Ctx, l: Tree, z: Node, r: Tree,
                   h2: Node)
    requires Linked(g, c2, Bin(l, z, r), h2) && Ends(g, h2, InOrder(Plug(c2, Bin(l, z, r)))) && g.balance(h2) == Zero
    requires g1 == ErasedStore(g, c2, l, z, r, h2) && g1.balance == g.balance
    requires Untouched(g1, g2, ns + {z}, h1) && Away(ns, h1, Top, Plug(c2, Bin(l, z, r)), h2)
    ensures Linked(g2, ErasedCtx(c2, l, r), ErasedTree(l, r), h2)
    ensures Ends(g2, h2, InOrder(EraseResult(c2, l, r))) && g2.balance(h2) == Zero
  {
    ErasedLinked(g, c2, l, z, r, h2);
    EraseBaseEnds(g, c2, l, z, r, h2);
    PlugAround(c2, l, z, r, h2);
    PlugNodes(ErasedCtx(c2, l, r), ErasedTree(l, r));
    LinkedAway(g1, g2, ns + {z}, h1, ErasedCtx(c2, l, r), ErasedTree(l, r), h2);
  }

  /** The second tree is right again; in the first, only the balance factors above `z` are not. */
  ghost predicate HalfDone(g3: Store, t1: Tree, h1: Node, i: nat, z: Node, t2: Tree, h2: Node)
    requires i <= |InOrder(t1)|
  {
    && AvlValid(g3, t2, h2)
    && Linked(g3, Gap(Top, t1, i), Bin(Leaf, z, Leaf), h1) && CAvl(g3.balance, Gap(Top, t1, i), 0)
    && Ends(g3, h1, InsertedAt(InOrder(t1), i, z)) && g3.balance(h1) == Zero
  }

  /**
   The balance factor that the successor takes over is still that of `z`, although `z` is in the other tree by now.
   */
  lemma BalanceAway(g2: Store, g3: Store, z: Node, y: Node, ns: set<Node>, h2: Node)
    requires y == z || y in ns
    requires Untouched(g2.(balance := BalanceTaken(g2.balance, z, y)), g3, ns, h2) && y != h2
    ensures Untouched(g2, g3, ns, h2)
  {
  }

  lemma SuccessorInside(c: Ctx, l: Tree, z: Node, r: Tree, header: Node)
    requires Apart(c, Bin(l, z, r), header)
    ensures var y := Successor(l, z, r); (y == z || y in Nodes(EraseResult(c, l, r))) && y != header
    ensures Nodes(EraseResult(c, l, r)) == Nodes(Plug(c, Bin(l, z, r))) - {z}
  {
    ErasedNodes(c, l, z, r, header);
    PlugNodes(c, Bin(l, z, r));
    if l.Bin? && r.Bin? {
      SuccessorApart(c, l, z, r, header);
      MinFacts(r);
    }
  }

  lemma SecondDone(g: Store, g1: Store, g2: Store, g3: Store, t1: Tree, h1: Node, i: nat,
                   c2: Ctx, l: Tree, z: Node, r: Tree, h2: Node, c': Ctx, t': Tree)
    requires TwoTrees(g, t1, h1, Plug(c2, Bin(l, z, r)), h2) && Linked(g, c2, Bin(l, z, r), h2) && i <= |InOrder(t1)|
    requires Parted(g, g1, g2, t1, h1, i, c2, l, z, r, h2)
    requires Restored(g2.(balance := BalanceTaken(g2.balance, z, Successor(l, z, r))), g3, c', t', h2,
                      InOrder(EraseResult(c2, l, r)), Nodes(EraseResult(c2, l, r)))
    ensures HalfDone(g3, t1, h1, i, z, Plug(c', t'), h2)
    ensures Untouched(g2, g3, Nodes(Plug(c2, Bin(l, z, r))) - {z}, h2)
    ensures InOrder(Plug(c', t')) == Without(InOrder(Plug(c2, Bin(l, z, r))), z)
    ensures Nodes(Plug(c', t')) == Nodes(Plug(c2, Bin(l, z, r))) - {z}
  {
    var ns := Nodes(Plug(c2, Bin(l, z, r))) - {z};
    SecondTree(g2, g3, c2, l, z, r, h2, c', t');
    PlugAround(c2, l, z, r, h2);
    EraseBaseEnds(g, c2, l, z, r, h2);
    RoomAt(g1, t1, h1, z, i);
    FirstAway(g1, g2, g3, ns, h2, t1, h1, z, i);
  }

  lemma SecondTree(g2: Store, g3: Store, c2: Ctx, l: Tree, z: Node, r: Tree, h2: Node, c': Ctx, t': Tree)
    requires Apart(c2, Bin(l, z, r), h2)
    requires Ends(g2, h2, InOrder(EraseResult(c2, l, r))) && g2.balance(h2) == Zero
    requires Restored(g2.(balance := BalanceTaken(g2.balance, z, Successor(l, z, r))), g3, c', t', h2,
                      InOrder(EraseResult(c2, l, r)), Nodes(EraseResult(c2, l, r)))
    ensures AvlValid(g3, Plug(c', t'), h2) && Untouched(g2, g3, Nodes(Plug(c2, Bin(l, z, r))) - {z}, h2)
    ensures InOrder(Plug(c', t')) == InOrder(EraseResult(c2, l, r))
        && Nodes(Plug(c', t')) == Nodes(Plug(c2, Bin(l, z, r))) - {z}
  {
    var y, ns := Successor(l, z, r), Nodes(EraseResult(c2, l, r));
    SuccessorInside(c2, l, z, r, h2);
    WholeTree(g2.(balance := BalanceTaken(g2.balance, z, y)), g3, c', t', h2, InOrder(EraseResult(c2, l, r)), ns);
    BalanceAway(g2, g3, z, y, ns, h2);
  }

  lemma FirstAway(g1: Store, g2: Store, g3: Store, ns: set<Node>, h2: Node, t1: Tree, h1: Node, z: Node, i: nat)
    requires i <= |InOrder(t1)| && Linked(g2, Gap(Top, t1, i), Bin(Leaf, z, Leaf), h1)
    requires CNodes(Gap(Top, t1, i)) == Nodes(t1) && CAvl(g1.balance, Gap(Top, t1, i), 0)
    requires g2.balance == g1.balance && Ends(g2, h1, InsertedAt(InOrder(t1), i, z)) && g2.balance(h1) == Zero
    requires Untouched(g2, g3, ns, h2) && ns !! Nodes(t1) && z !in ns && h1 !in ns && h2 !in Nodes(t1) && h2 != z
        && h2 != h1
    ensures Linked(g3, Gap(Top, t1, i), Bin(Leaf, z, Leaf), h1) && CAvl(g3.balance, Gap(Top, t1, i), 0)
    ensures Ends(g3, h1, InsertedAt(InOrder(t1), i, z)) && g3.balance(h1) == Zero
  {
    assert Nodes(Bin(Leaf, z, Leaf)) == {z};
    LinkedAway(g2, g3, ns, h2, Gap(Top, t1, i), Bin(Leaf, z, Leaf), h1);
    FrameCAvl(g2.balance, g3.balance, Gap(Top, t1, i), 0);
  }

  lemma FirstDone(g3: Store, g4: Store, t1: Tree, h1: Node, i: nat, z: Node, t2: Tree, h2: Node, c': Ctx, t': Tree)
    requires i <= |InOrder(t1)| && HalfDone(g3, t1, h1, i, z, t2, h2)
    requires Nodes(t1) !! Nodes(t2) && z !in Nodes(t2) && h1 !in Nodes(t2) && h2 !in Nodes(t1) && h2 != z && h1 != h2
    requires Restored(g3, g4, c', t', h1, InsertedAt(InOrder(t1), i, z), Nodes(t1) + {z})
    ensures TwoTrees(g4, Plug(c', t'), h1, t2, h2) && Untouched(g3, g4, Nodes(t1) + {z}, h1)
    ensures InOrder(Plug(c', t')) == InsertedAt(InOrder(t1), i, z) && Nodes(Plug(c', t')) == Nodes(t1) + {z}
  {
    WholeTree(g3, g4, c', t', h1, InsertedAt(InOrder(t1), i, z), Nodes(t1) + {z});
    AvlAway(g3, g4, Nodes(t1) + {z}, h1, t2, h2);
  }

  /** Only nodes of the two trees, and the headers, have changed. */
  ghost predicate UntouchedBut(g: Store, g': Store, ns: set<Node>, h1: Node, h2: Node)
  {
    && g'.nodes == g.nodes
    && forall n <- g.nodes :: n !in ns && n != h1 && n != h2 ==>
         && g'.parent(n) == g.parent(n) && g'.left(n) == g.left(n)
         && g'.right(n) == g.right(n) && g'.balance(n) == g.balance(n)
  }

  lemma UntouchedChain(g: Store, g1: Store, g2: Store, g3: Store, g4: Store, ns1: set<Node>, ns2: set<Node>, z: Node,
                       h1: Node, h2: Node)
    requires z in ns2
    requires Untouched(g, g1, ns2, h2) && Untouched(g1, g2, ns1 + {z}, h1)
    requires Untouched(g2, g3, ns2 - {z}, h2) && Untouched(g3, g4, ns1 + {z}, h1)
    ensures UntouchedBut(g, g4, ns1 + ns2, h1, h2)
  {
  }

  /** Up to here the tree `z` comes from has been repaired, with `z` already linked in the other one. */
  method Depart(h1: Node, h2: Node, z: Node, d: CommitData, ghost g: Store, ghost t1: Tree, ghost i: nat,
                ghost c2: Ctx, ghost l: Tree, ghost r: Tree)
    returns (ghost g1: Store, ghost g2: Store, ghost g3: Store, ghost t2': Tree)
    requires Matches(g) && TwoTrees(g, t1, h1, Plug(c2, Bin(l, z, r)), h2) && Linked(g, c2, Bin(l, z, r), h2)
    requires Avl(g.balance, Bin(l, z, r)) && CAvl(g.balance, c2, Height(Bin(l, z, r)))
    requires i <= |InOrder(t1)| && Names(d, Gap(Top, t1, i), h1)
    modifies g.nodes
    ensures Matches(g3) && Departed(g, g1, g2, g3, t1, h1, i, z, Plug(c2, Bin(l, z, r)), h2, t2')
  {
    var x, xParent, y;
    x, xParent, y, g1, g2 := Relink(h1, h2, z, d, g, t1, i, c2, l, r);
    g3, t2' := Repair(h1, h2, z, x, xParent, y, g, g1, g2, t1, i, c2, l, r);
  }

  method Repair(h1: Node, h2: Node, z: Node, x: Node?, xParent: Node, y: Node, ghost g: Store, ghost g1: Store,
                ghost g2: Store,
                ghost t1: Tree, ghost i: nat, ghost c2: Ctx, ghost l: Tree, ghost r: Tree)
    returns (ghost g3: Store, ghost t2': Tree)
    requires TwoTrees(g, t1, h1, Plug(c2, Bin(l, z, r)), h2) && Linked(g, c2, Bin(l, z, r), h2)
    requires Avl(g.balance, Bin(l, z, r)) && CAvl(g.balance, c2, Height(Bin(l, z, r)))
    requires Matches(g2) && i <= |InOrder(t1)| && Parted(g, g1, g2, t1, h1, i, c2, l, z, r, h2)
    requires x == Root(ErasedTree(l, r)) && xParent == CParent(ErasedCtx(c2, l, r), h2) && y == Successor(l, z, r)
    modifies g2.nodes
    ensures Matches(g3) && Departed(g, g1, g2, g3, t1, h1, i, z, Plug(c2, Bin(l, z, r)), h2, t2')
  {
    hide *;
    RepairKnown(g, g1, g2, t1, h1, i, c2, l, z, r, h2);
    ghost var c', t';
    g3, c', t' := RebalanceAfterErasure(h2, z, x, xParent, y, g2, ErasedCtx(c2, l, r), ErasedTree(l, r));
    SecondDeparted(g, g1, g2, g3, t1, h1, i, c2, l, z, r, h2, c', t');
    t2' := Plug(c', t');
  }

  lemma RepairKnown(g: Store, g1: Store, g2: Store, t1: Tree, h1: Node, i: nat, c2: Ctx, l: Tree, z: Node, r: Tree,
                    h2: Node)
    requires Linked(g, c2, Bin(l, z, r), h2) && Avl(g.balance, Bin(l, z, r))
        && CAvl(g.balance, c2, Height(Bin(l, z, r)))
    requires i <= |InOrder(t1)| && Parted(g, g1, g2, t1, h1, i, c2, l, z, r, h2)
    ensures z in g2.nodes && Successor(l, z, r) in g2.nodes && Linked(g2, ErasedCtx(c2, l, r), ErasedTree(l, r), h2)
    ensures var B' := BalanceTaken(g2.balance, z, Successor(l, z, r));
      Avl(B', ErasedTree(l, r)) && CAvl(B', ErasedCtx(c2, l, r), Height(ErasedTree(l, r)) + 1)
  {
    hide Linked, Avl, CAvl, Height, AvlValid, Ends;
    LinkedApart(g, c2, Bin(l, z, r), h2);
    SuccessorIn(g, c2, l, z, r, h2);
    ErasedTilt(g.balance, c2, l, z, r, h2);
  }

  ghost predicate Departed(g: Store, g1: Store, g2: Store, g3: Store, t1: Tree, h1: Node, i: nat, z: Node, t2: Tree,
                           h2: Node, t2': Tree)
    requires i <= |InOrder(t1)|
  {
    && HalfDone(g3, t1, h1, i, z, t2', h2)
    && Untouched(g, g1, Nodes(t2), h2) && Untouched(g1, g2, Nodes(t1) + {z}, h1)
        && Untouched(g2, g3, Nodes(t2) - {z}, h2)
    && InOrder(t2') == Without(InOrder(t2), z) && Nodes(t2') == Nodes(t2) - {z}
  }

  lemma SecondDeparted(g: Store, g1: Store, g2: Store, g3: Store, t1: Tree, h1: Node, i: nat,
                       c2: Ctx, l: Tree, z: Node, r: Tree, h2: Node, c': Ctx, t': Tree)
    requires TwoTrees(g, t1, h1, Plug(c2, Bin(l, z, r)), h2) && Linked(g, c2, Bin(l, z, r), h2) && i <= |InOrder(t1)|
    requires Parted(g, g1, g2, t1, h1, i, c2, l, z, r, h2)
    requires Restored(g2.(balance := BalanceTaken(g2.balance, z, Successor(l, z, r))), g3, c', t', h2,
                      InOrder(Plug(ErasedCtx(c2, l, r), ErasedTree(l, r))),
                      Nodes(Plug(ErasedCtx(c2, l, r), ErasedTree(l, r))))
    ensures Departed(g, g1, g2, g3, t1, h1, i, z, Plug(c2, Bin(l, z, r)), h2, Plug(c', t'))
  {
    hide HalfDone, Untouched, Restored, Linked, TwoTrees, ErasedCtx, ErasedTree, AvlValid, Ends, Plug, Nodes, InOrder;
    SecondDone(g, g1, g2, g3, t1, h1, i, c2, l, z, r, h2, c', t');
  }

  /** Moves `z` from the tree of `h2` to a given place in the tree of `h1`. */
  method Transfer(h1: Node, h2: Node, z: Node, d: CommitData, ghost g: Store, ghost t1: Tree, ghost t2: Tree,
                  ghost i: nat)
    returns (ghost g': Store, ghost t1': Tree, ghost t2': Tree)
    requires Matches(g) && TwoTrees(g, t1, h1, t2, h2) && z in Nodes(t2)
    requires i <= |InOrder(t1)| && Names(d, Gap(Top, t1, i), h1)
    modifies g.nodes
    ensures Matches(g') && TwoTrees(g', t1', h1, t2', h2) && UntouchedBut(g, g', Nodes(t1) + Nodes(t2), h1, h2)
    ensures InOrder(t1') == InsertedAt(InOrder(t1), i, z) && Nodes(t1') == Nodes(t1) + {z}
    ensures InOrder(t2') == Without(InOrder(t2), z) && Nodes(t2') == Nodes(t2) - {z}
  {
    ghost var c2, s := Above(Top, t2, z), Below(t2, z);
    FocusErase(g, t2, z, h2);
    ghost var g1, g2, g3;
    g1, g2, g3, t2' := Depart(h1, h2, z, d, g, t1, i, c2, s.left, s.right);
    g', t1' := Settle(h1, h2, z, g3, t1, i, t2');
    UntouchedChain(g, g1, g2, g3, g', Nodes(t1), Nodes(t2), z, h1, h2);
  }

  /** The last step: the tree `z` has arrived in is rebalanced. */
  method Settle(h1: Node, h2: Node, z: Node, ghost g3: Store, ghost t1: Tree, ghost i: nat, ghost t2: Tree)
    returns (ghost g': Store, ghost t1': Tree)
    requires Matches(g3) && i <= |InOrder(t1)| && HalfDone(g3, t1, h1, i, z, t2, h2)
    requires Nodes(t1) !! Nodes(t2) && z !in Nodes(t2) && h1 !in Nodes(t2) && h2 !in Nodes(t1) && h2 != z && h1 != h2
    modifies g3.nodes
    ensures Matches(g') && TwoTrees(g', t1', h1, t2, h2) && Untouched(g3, g', Nodes(t1) + {z}, h1)
    ensures InOrder(t1') == InsertedAt(InOrder(t1), i, z) && Nodes(t1') == Nodes(t1) + {z}
  {
    ghost var c', t';
    PlugAt(t1, z, i);
    g', c', t' := RebalanceAfterInsertion(h1, z, g3, Gap(Top, t1, i));
    FirstDone(g3, g', t1, h1, i, z, t2, h2, c', t');
    t1' := Plug(c', t');
  }

  /** `z` moves to the first tree unless an equivalent node is there already. */
  method TransferUnique(h1: Node, comp: Comparator, h2: Node, z: Node, ghost g: Store, ghost t1: Tree, ghost t2: Tree)
    returns (transferred: bool, ghost g': Store, ghost t1': Tree, ghost t2': Tree)
    requires Matches(g) && TwoTrees(g, t1, h1, t2, h2) && z in Nodes(t2)
    requires StrictWeakOrder(comp) && Sorted(comp, InOrder(t1))
    modifies g.nodes
    ensures Matches(g') && TwoTrees(g', t1', h1, t2', h2) && UntouchedBut(g, g', Nodes(t1) + Nodes(t2), h1, h2)
    ensures transferred <==> forall n <- InOrder(t1) :: !Equivalent(comp, n, z.key)
    ensures transferred ==> Moved(comp, t1, t2, z, t1', t2')
    ensures !transferred ==> g' == g && t1' == t1 && t2' == t2
  {
    var d := CommitData(false, h1);
    var prev;
    prev, transferred, d := InsertUniqueCheck(h1, z.key, comp, d, g, t1);
    if transferred {
      FitsLast(comp, InOrder(t1), z);
      WithoutKeepsOrder(InOrder(t2), z);
      g', t1', t2' := Transfer(h1, h2, z, d, g, t1, t2, Rank(InOrder(t1), NotGreater(comp, z.key)));
    } else {
      g', t1', t2' := g, t1, t2;
    }
  }

  ghost predicate Moved(comp: Comparator, t1: Tree, t2: Tree, z: Node, t1': Tree, t2': Tree)
  {
    && InsertedLast(comp, InOrder(t1), InOrder(t1'), z)
    && InOrder(t2') == Without(InOrder(t2), z) && OrderKept(InOrder(t2), InOrder(t2'))
    && Nodes(t1') == Nodes(t1) + {z} && Nodes(t2') == Nodes(t2) - {z}
  }

  method TransferEqual(h1: Node, comp: Comparator, h2: Node, z: Node, ghost g: Store, ghost t1: Tree, ghost t2: Tree)
    returns (ghost g': Store, ghost t1': Tree, ghost t2': Tree)
    requires Matches(g) && TwoTrees(g, t1, h1, t2, h2) && z in Nodes(t2)
    requires StrictWeakOrder(comp) && Sorted(comp, InOrder(t1))
    modifies g.nodes
    ensures Matches(g') && TwoTrees(g', t1', h1, t2', h2) && UntouchedBut(g, g', Nodes(t1) + Nodes(t2), h1, h2)
    ensures Moved(comp, t1, t2, z, t1', t2')
  {
    var d := InsertEqualUpperBoundCheck(h1, z.key, comp, g, t1);
    FitsLast(comp, InOrder(t1), z);
    WithoutKeepsOrder(InOrder(t2), z);
    g', t1', t2' := Transfer(h1, h2, z, d, g, t1, t2, Rank(InOrder(t1), NotGreater(comp, z.key)));
  }
}

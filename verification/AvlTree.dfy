/** The operations of an AVL tree: erasing, inserting and moving nodes between trees. */
module AvlTree {
  import opened Ordering
  import opened TreeNodes
  import opened Rotations
  import opened TreeWalk
  import opened AvlBalance
  import opened AvlTurns
  import opened AvlInsert
  import opened AvlErase
  import opened BstErase
  import opened BstErased
  import opened BstInsert
  import Search

  /** Linked, with the header naming both ends, and every balance factor right. */
  ghost predicate AvlValid(g: Store, t: Tree, header: Node)
  {
    Valid(g, t, header) && Avl(g.balance, t) && g.balance(header) == Zero
  }

  /** No node outside `ns`, except the header, has changed at all. */
  ghost predicate Untouched(g: Store, g': Store, ns: set<Node>, header: Node)
  {
    && g'.nodes == g.nodes && g'.balance(header) == g.balance(header)
    && forall n <- g.nodes :: n !in ns && n != header ==>
         && g'.parent(n) == g.parent(n) && g'.left(n) == g.left(n)
         && g'.right(n) == g.right(n) && g'.balance(n) == g.balance(n)
  }

  lemma UntouchedTwice(g: Store, g1: Store, g2: Store, ns: set<Node>, ns1: set<Node>, header: Node)
    requires Untouched(g, g1, ns, header) && Untouched(g1, g2, ns1, header) && ns1 <= ns
    ensures Untouched(g, g2, ns, header)
  {
  }

  /** The whole tree is right once the climb is over. */
  lemma WholeTree(g0: Store, g: Store, c: Ctx, t: Tree, header: Node, s: seq<Node>, ns: set<Node>)
    requires Restored(g0, g, c, t, header, s, ns) && Ends(g0, header, s) && g0.balance(header) == Zero
    ensures AvlValid(g, Plug(c, t), header) && InOrder(Plug(c, t)) == s && Nodes(Plug(c, t)) == ns
    ensures Untouched(g0, g, ns, header)
  {
    PlugLinked(g, c, t, header);
    PlugAvl(g.balance, c, t);
  }

  lemma HeaderAlone(header: Node, g: Store)
    requires header in g.nodes
    ensures var g' := Store(g.nodes, Put(g.parent, header, null), Put(g.left, header, header),
                            Put(g.right, header, header),
                            Put(g.balance, header, Zero));
      AvlValid(g', Leaf, header) && Untouched(g, g'.(balance := g.balance), {}, header)
  {
  }

  /** An empty tree. */
  method InitHeader(header: Node, ghost g: Store) returns (ghost g': Store)
    requires Matches(g) && header in g.nodes
    modifies header
    ensures Matches(g') && AvlValid(g', Leaf, header) && Untouched(g, g'.(balance := g.balance), {}, header)
    ensures g'.balance == Put(g.balance, header, Zero)
  {
    hide *;
    g' := SetParent(header, null, g);
    g' := SetLeft(header, header, g');
    g' := SetRight(header, header, g');
    g' := SetBalance(header, Zero, g');
    HeaderAlone(header, g);
  }

  // ------------------------------------------------------------- erasing

  lemma LeftwardAgrees(B: Node -> Balance, B': Node -> Balance, t: Tree)
    requires t.Bin? && t.left.Bin? && Distinct(t) && forall n <- Nodes(t) :: n != MinNode(t) ==> B'(n) == B(n)
    ensures Distinct(t.left) && B'(t.node) == B(t.node) && (forall n <- Nodes(t.right) :: B'(n) == B(n))
    ensures forall n <- Nodes(t.left) :: n != MinNode(t.left) ==> B'(n) == B(n)
  {
    MinFacts(t.left);
  }

  lemma LeftwardStep(B: Node -> Balance, B': Node -> Balance, c: Ctx, t: Tree)
    requires t.Bin? && t.left.Bin? && Avl(B, t) && CAvl(B', c, Height(t)) && B'(t.node) == B(t.node) && Avl(B', t.right)
    ensures Avl(B, t.left) && Avl(B, t.right) && CAvl(B', InLeft(c, t.node, t.right), Height(t.left))
    ensures MinRight(t) == MinRight(t.left) && Leftward(c, t) == Leftward(InLeft(c, t.node, t.right), t.left)
  {
  }

  lemma LeftwardBase(B: Node -> Balance, B': Node -> Balance, c: Ctx, t: Tree)
    requires t.Bin? && t.left.Leaf? && Distinct(t) && Avl(B, t) && CAvl(B', c, Height(t))
    requires forall n <- Nodes(t) :: n != MinNode(t) ==> B'(n) == B(n)
    ensures Avl(B', MinRight(t)) && CAvl(B', Leftward(c, t), Height(MinRight(t)) + 1)
  {
    FrameAvl(B, B', t.right);
  }

  lemma RightAvl(B: Node -> Balance, t: Tree)
    requires t.Bin? && Avl(B, t)
    ensures Avl(B, t.right)
  {
  }

  /** One level is lost at the far left. */
  lemma LeftwardAvl(B: Node -> Balance, B': Node -> Balance, c: Ctx, t: Tree)
    requires t.Bin? && Distinct(t) && Avl(B, t) && CAvl(B', c, Height(t))
    requires forall n <- Nodes(t) :: n != MinNode(t) ==> B'(n) == B(n)
    ensures Avl(B', MinRight(t)) && CAvl(B', Leftward(c, t), Height(MinRight(t)) + 1)
    decreases t
  {
    hide *;
    if t.left.Leaf? {
      LeftwardBase(B, B', c, t);
    } else {
      LeftwardAgrees(B, B', t);
      RightAvl(B, t);
      FrameAvl(B, B', t.right);
      LeftwardStep(B, B', c, t);
      LeftwardAvl(B, B', InLeft(c, t.node, t.right), t.left);
    }
  }

  /** The balance factors once the successor, if it moves, has taken over that of `z`. */
  ghost function BalanceTaken(B: Node -> Balance, z: Node, y: Node): Node -> Balance
  {
    if y != z then Put(B, y, B(z)) else B
  }

  ghost function Successor(l: Tree, z: Node, r: Tree): Node
  {
    if l.Bin? && r.Bin? then MinNode(r) else z
  }

  /** The successor stands where `z` stood, with the balance factor of `z`. */
  lemma SuccessorAvl(B: Node -> Balance, c: Ctx, l: Tree, z: Node, r: Tree, y: Node)
    requires y !in CNodes(c) && y !in Nodes(l)
    requires Avl(B, Bin(l, z, r)) && CAvl(B, c, Height(Bin(l, z, r)))
    ensures CAvl(Put(B, y, B(z)), InRight(c, l, y), Height(r))
  {
    FrameAvl(B, Put(B, y, B(z)), l);
    FrameCAvl(B, Put(B, y, B(z)), c, Height(Bin(l, z, r)));
  }

  /** With a child missing, the other subtree comes up one level. */
  lemma LightTilt(B: Node -> Balance, c: Ctx, l: Tree, z: Node, r: Tree)
    requires Avl(B, Bin(l, z, r)) && CAvl(B, c, Height(Bin(l, z, r))) && (l.Leaf? || r.Leaf?)
    ensures Avl(B, ErasedTree(l, r)) && CAvl(B, ErasedCtx(c, l, r), Height(ErasedTree(l, r)) + 1)
  {
    hide Apart, Distinct, CDistinct, Nodes, CNodes;
  }

  lemma RightDistinct(c: Ctx, l: Tree, z: Node, r: Tree, header: Node)
    requires Apart(c, Bin(l, z, r), header)
    ensures Distinct(r)
  {
    hide CDistinct, CNodes;
  }

  lemma OthersKeep(B: Node -> Balance, r: Tree, y: Node, b: Balance)
    ensures forall n <- Nodes(r) :: n != y ==> Put(B, y, b)(n) == B(n)
  {
    hide Nodes;
  }

  lemma BothTaken(B: Node -> Balance, c: Ctx, l: Tree, z: Node, r: Tree)
    requires l.Bin? && r.Bin? && MinNode(r) != z
    ensures Successor(l, z, r) == MinNode(r) && BalanceTaken(B, z, MinNode(r)) == Put(B, MinNode(r), B(z))
    ensures ErasedTree(l, r) == MinRight(r) && ErasedCtx(c, l, r) == Leftward(InRight(c, l, MinNode(r)), r)
  {
    hide MinNode, MinRight, Leftward;
  }

  /** After erasing, the tree is one level lower at exactly one place. */
  lemma ErasedTilt(B: Node -> Balance, c: Ctx, l: Tree, z: Node, r: Tree, header: Node)
    requires Apart(c, Bin(l, z, r), header) && Avl(B, Bin(l, z, r)) && CAvl(B, c, Height(Bin(l, z, r)))
    ensures var B' := BalanceTaken(B, z, Successor(l, z, r));
      Avl(B', ErasedTree(l, r)) && CAvl(B', ErasedCtx(c, l, r), Height(ErasedTree(l, r)) + 1)
  {
    if l.Leaf? || r.Leaf? {
      LightTilt(B, c, l, z, r);
    } else {
      hide *;
      var y := MinNode(r);
      SuccessorApart(c, l, z, r, header);
      SuccessorAvl(B, c, l, z, r, y);
      RightAvl(B, Bin(l, z, r));
      RightDistinct(c, l, z, r, header);
      OthersKeep(B, r, y, B(z));
      LeftwardAvl(B, Put(B, y, B(z)), InRight(c, l, y), r);
      BothTaken(B, c, l, z, r);
    }
  }

  method RebalanceAfterErasure(header: Node, z: Node, x: Node?, xParent: Node, y: Node,
                               ghost g: Store, ghost c: Ctx, ghost t: Tree)
    returns (ghost g': Store, ghost c': Ctx, ghost t': Tree)
    requires Matches(g) && Linked(g, c, t, header) && y in g.nodes && z in g.nodes
    requires Avl(BalanceTaken(g.balance, z, y), t) && CAvl(BalanceTaken(g.balance, z, y), c, Height(t) + 1)
    requires x == Root(t) && xParent == CParent(c, header)
    modifies g.nodes
    ensures Matches(g')
    ensures Restored(g.(balance := BalanceTaken(g.balance, z, y)), g', c', t', header, InOrder(Plug(c, t)),
                     Nodes(Plug(c, t)))
  {
    g' := g;
    if y != z {
      g' := SetBalance(y, z.balance, g);
    }
    g', c', t' := RestoreInvariants(header, x, xParent, g', c, t);
  }

  /** `s` without its only `z`. */
  ghost function Without(s: seq<Node>, z: Node): seq<Node>
  {
    if s == [] then [] else if s[0] == z then s[1..] else [s[0]] + Without(s[1..], z)
  }

  lemma WithoutAt(b: seq<Node>, z: Node, a: seq<Node>)
    requires z !in b
    ensures Without(b + [z] + a, z) == b + a
  {
    if b == [] {
      assert b + [z] + a == [z] + a;
    } else {
      assert (b + [z] + a)[1..] == b[1..] + [z] + a;
      WithoutAt(b[1..], z, a);
    }
  }

  lemma {:induction false} WithoutIn(s: seq<Node>, z: Node)
    ensures forall n <- Without(s, z) :: n in s
  {
    if s != [] && s[0] != z {
      WithoutIn(s[1..], z);
    }
  }

  /** Taking a node out disturbs no order. */
  lemma {:induction false} WithoutSorted(comp: Comparator, s: seq<Node>, z: Node)
    requires Search.Sorted(comp, s)
    ensures Search.Sorted(comp, Without(s, z))
  {
    if s != [] && s[0] != z {
      var rest := Without(s[1..], z);
      WithoutSorted(comp, s[1..], z);
      WithoutIn(s[1..], z);
      forall i | 0 <= i < |rest| ensures !comp(rest[i].key, s[0].key) {
        assert rest[i] in s[1..];
      }
    }
  }

  lemma WithoutKeepsOrder(s: seq<Node>, z: Node)
    ensures Search.OrderKept(s, Without(s, z))
  {
    forall comp: Comparator | Search.Sorted(comp, s) ensures Search.Sorted(comp, Without(s, z)) {
      WithoutSorted(comp, s, z);
    }
  }

  lemma LinkedApart(g: Store, c: Ctx, t: Tree, header: Node)
    requires Linked(g, c, t, header)
    ensures Apart(c, t, header)
  {
    hide Apart;
  }

  lemma SuccessorIn(g: Store, c: Ctx, l: Tree, z: Node, r: Tree, header: Node)
    requires Linked(g, c, Bin(l, z, r), header)
    ensures z in g.nodes && Successor(l, z, r) in g.nodes
  {
    hide Down, Up, CDown, CUp, Apart;
    if l.Bin? && r.Bin? {
      MinFacts(r);
    }
  }

  lemma ErasedKnown(g: Store, c: Ctx, l: Tree, z: Node, r: Tree, header: Node)
    requires Linked(g, c, Bin(l, z, r), header)
    ensures var g1 := ErasedStore(g, c, l, z, r, header); g1.nodes == g.nodes && g1.balance == g.balance
    ensures z in g.nodes && Successor(l, z, r) in g.nodes
  {
    hide Linked, ErasedStore, Successor, Plug, Nodes;
    ErasedWithin(g, c, l, z, r, header);
    SuccessorIn(g, c, l, z, r, header);
  }

  lemma EraseStart(g: Store, c: Ctx, l: Tree, z: Node, r: Tree, header: Node)
    requires Linked(g, c, Bin(l, z, r), header) && Avl(g.balance, Bin(l, z, r))
        && CAvl(g.balance, c, Height(Bin(l, z, r)))
    ensures var g1, B' := ErasedStore(g, c, l, z, r, header), BalanceTaken(g.balance, z, Successor(l, z, r));
      && g1.nodes == g.nodes && g1.balance == g.balance && z in g.nodes && Successor(l, z, r) in g.nodes
      && Linked(g1, ErasedCtx(c, l, r), ErasedTree(l, r), header)
      && Avl(B', ErasedTree(l, r)) && CAvl(B', ErasedCtx(c, l, r), Height(ErasedTree(l, r)) + 1)
  {
    hide *;
    LinkedApart(g, c, Bin(l, z, r), header);
    ErasedLinked(g, c, l, z, r, header);
    ErasedTilt(g.balance, c, l, z, r, header);
    ErasedKnown(g, c, l, z, r, header);
  }

  lemma EraseOrder(c: Ctx, l: Tree, z: Node, r: Tree, header: Node)
    requires Apart(c, Bin(l, z, r), header)
    ensures OrderWithout(c, l, r) == Without(InOrder(Plug(c, Bin(l, z, r))), z)
  {
    OrderAround(c, l, z, r, header);
    WithoutAt(Before(c) + InOrder(l), z, InOrder(r) + After(c));
  }

  lemma EraseUntouched(g: Store, g1: Store, B': Node -> Balance, g': Store, z: Node, y: Node, ns: set<Node>,
                       header: Node)
    requires LinksWithin(g, g1, ns, header) && y in ns && header !in ns
    requires B' == BalanceTaken(g.balance, z, y)
    requires Untouched(g1.(balance := B'), g', ns - {z}, header)
    ensures Untouched(g, g', ns, header)
  {
  }

  /** What the climb starts from, once `z` is out. */
  ghost function EraseBase(g: Store, c: Ctx, l: Tree, z: Node, r: Tree, header: Node): Store
  {
    ErasedStore(g, c, l, z, r, header).(balance := BalanceTaken(g.balance, z, Successor(l, z, r)))
  }

  ghost function EraseResult(c: Ctx, l: Tree, r: Tree): Tree
  {
    Plug(ErasedCtx(c, l, r), ErasedTree(l, r))
  }

  lemma EraseBaseEnds(g: Store, c: Ctx, l: Tree, z: Node, r: Tree, header: Node)
    requires Linked(g, c, Bin(l, z, r), header) && Ends(g, header, InOrder(Plug(c, Bin(l, z, r))))
        && g.balance(header) == Zero
    ensures Ends(EraseBase(g, c, l, z, r, header), header, InOrder(EraseResult(c, l, r)))
    ensures EraseBase(g, c, l, z, r, header).balance(header) == Zero
    ensures InOrder(EraseResult(c, l, r)) == Without(InOrder(Plug(c, Bin(l, z, r))), z)
    ensures Nodes(EraseResult(c, l, r)) == Nodes(Plug(c, Bin(l, z, r))) - {z}
  {
    hide Down, Up, CDown, CUp, InOrder, Plug, Nodes, Without, ErasedStore;
    ErasedEnds(g, c, l, z, r, header);
    ErasedOrder(c, l, r);
    ErasedNodes(c, l, z, r, header);
    EraseOrder(c, l, z, r, header);
    EraseBaseHeader(g, c, l, z, r, header);
  }

  lemma EraseBaseHeader(g: Store, c: Ctx, l: Tree, z: Node, r: Tree, header: Node)
    requires Linked(g, c, Bin(l, z, r), header) && g.balance(header) == Zero
    ensures EraseBase(g, c, l, z, r, header).balance(header) == Zero
  {
    hide Down, Up, CDown, CUp, Plug;
    ErasedWithin(g, c, l, z, r, header);
    PlugAround(c, l, z, r, header);
    if l.Bin? && r.Bin? {
      SuccessorApart(c, l, z, r, header);
    }
  }

  lemma EraseDone(g: Store, g': Store, c: Ctx, l: Tree, z: Node, r: Tree, c': Ctx, t': Tree, header: Node)
    requires Linked(g, c, Bin(l, z, r), header) && Ends(g, header, InOrder(Plug(c, Bin(l, z, r))))
        && g.balance(header) == Zero
    requires Restored(EraseBase(g, c, l, z, r, header), g', c', t', header, InOrder(EraseResult(c, l, r)),
                      Nodes(EraseResult(c, l, r)))
    ensures var t := Plug(c, Bin(l, z, r));
      && AvlValid(g', Plug(c', t'), header) && Untouched(g, g', Nodes(t), header)
      && InOrder(Plug(c', t')) == Without(InOrder(t), z) && Nodes(Plug(c', t')) == Nodes(t) - {z}
  {
    EraseBaseEnds(g, c, l, z, r, header);
    WholeTree(EraseBase(g, c, l, z, r, header), g', c', t', header, InOrder(EraseResult(c, l, r)),
              Nodes(EraseResult(c, l, r)));
    EraseOutside(g, g', c, l, z, r, header);
  }

  lemma EraseOutside(g: Store, g': Store, c: Ctx, l: Tree, z: Node, r: Tree, header: Node)
    requires Linked(g, c, Bin(l, z, r), header)
    requires Untouched(EraseBase(g, c, l, z, r, header), g', Nodes(Plug(c, Bin(l, z, r))) - {z}, header)
    ensures Untouched(g, g', Nodes(Plug(c, Bin(l, z, r))), header)
  {
    ErasedWithin(g, c, l, z, r, header);
    PlugAround(c, l, z, r, header);
    if l.Bin? && r.Bin? {
      MinFacts(r);
    }
    EraseUntouched(g, ErasedStore(g, c, l, z, r, header), BalanceTaken(g.balance, z, Successor(l, z, r)), g', z,
                   Successor(l, z, r), Nodes(Plug(c, Bin(l, z, r))), header);
  }

  /** Erases `z` from an AVL tree. */
  method Erase(header: Node, z: Node, ghost g: Store, ghost t: Tree) returns (ghost g': Store, ghost t': Tree)
    requires Matches(g) && AvlValid(g, t, header) && z in Nodes(t)
    modifies g.nodes
    ensures Matches(g') && AvlValid(g', t', header) && Untouched(g, g', Nodes(t), header)
    ensures InOrder(t') == Without(InOrder(t), z) && Nodes(t') == Nodes(t) - {z}
    ensures Search.OrderKept(InOrder(t), InOrder(t'))
  {
    hide Linked, Avl, CAvl, Height, Plug, Nodes, InOrder, Without, Above, Below, Restored, ErasedStore;
    WithoutKeepsOrder(InOrder(t), z);
    ghost var c, s := Above(Top, t, z), Below(t, z);
    ghost var l, r := s.left, s.right;
    FocusErase(g, t, z, header);
    EraseStart(g, c, l, z, r, header);
    var x, xParent, y;
    x, xParent, y, g' := BstErase.Erase(header, z, g, c, l, r);
    ghost var c';
    g', c', t' := RebalanceAfterErasure(header, z, x, xParent, y, g', ErasedCtx(c, l, r), ErasedTree(l, r));
    EraseDone(g, g', c, l, z, r, c', t', header);
    t' := Plug(c', t');
  }

  lemma FocusErase(g: Store, t: Tree, z: Node, header: Node)
    requires AvlValid(g, t, header) && z in Nodes(t)
    ensures var c, s := Above(Top, t, z), Below(t, z);
      && Linked(g, c, Bin(s.left, z, s.right), header) && Avl(g.balance, s) && CAvl(g.balance, c, Height(s))
      && Plug(c, Bin(s.left, z, s.right)) == t
  {
    Focus(g, Top, t, z, header);
    FocusPlug(Top, t, z);
    FocusAvl(g.balance, Top, t, z);
  }

  lemma FocusAvl(B: Node -> Balance, c: Ctx, t: Tree, n: Node)
    requires n in Nodes(t) && Avl(B, t) && CAvl(B, c, Height(t))
    ensures Avl(B, Below(t, n)) && CAvl(B, Above(c, t, n), Height(Below(t, n)))
    decreases t
  {
    if t.node == n {
    } else if n in Nodes(t.left) {
      StepAvl(B, c, t);
      hide Avl, CAvl, Height;
      FocusAvl(B, InLeft(c, t.node, t.right), t.left, n);
    } else {
      StepAvl(B, c, t);
      hide Avl, CAvl, Height;
      FocusAvl(B, InRight(c, t.left, t.node), t.right, n);
    }
  }

  /** Going down a step, to either side. */
  lemma StepAvl(B: Node -> Balance, c: Ctx, t: Tree)
    requires t.Bin? && Avl(B, t) && CAvl(B, c, Height(t))
    ensures Avl(B, t.left) && CAvl(B, InLeft(c, t.node, t.right), Height(t.left))
    ensures Avl(B, t.right) && CAvl(B, InRight(c, t.left, t.node), Height(t.right))
  {
  }
}

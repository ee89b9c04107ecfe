/** Copying a tree by a walk without a stack. */
module Clone {
  import opened Ordering
  import opened TreeNodes
  import opened Rotations
  import opened TreeWalk
  import opened AvlBalance
  import opened AvlTree
  import Drain

  // -------------------------------------------------- what a clone looks like

  /** `u` is a copy of `s`: the same shape, keys and balance factors. */
  ghost predicate Copy(bs: Node -> Balance, bt: Node -> Balance, s: Tree, u: Tree)
  {
    if s.Leaf? || u.Leaf? then s.Leaf? && u.Leaf?
    else CopyNode(bs, bt, s.node, u.node) && Copy(bs, bt, s.left, u.left) && Copy(bs, bt, s.right, u.right)
  }

  ghost predicate CopyNode(bs: Node -> Balance, bt: Node -> Balance, n: Node, m: Node)
  {
    m.key == n.key && bt(m) == bs(n)
  }

  /** A subtree whose children are cloned or still missing, the left one first. */
  ghost predicate Partial(bs: Node -> Balance, bt: Node -> Balance, s: Tree, u: Tree)
  {
    && s.Bin? && u.Bin? && CopyNode(bs, bt, s.node, u.node)
    && (u.left.Bin? ==> Copy(bs, bt, s.left, u.left)) && (u.right.Bin? ==> Copy(bs, bt, s.right, u.right))
    && (u.right.Bin? ==> Copy(bs, bt, s.left, u.left))
  }

  /** The path from the root: what lies to the left is cloned, what lies to the right is still missing. */
  ghost predicate PartialPath(bs: Node -> Balance, bt: Node -> Balance, c: Ctx, d: Ctx)
  {
    match c
    case Top => d.Top?
    case InLeft(up, n, r) => d.InLeft? && CopyNode(bs, bt, n, d.node) && d.right.Leaf? && PartialPath(bs, bt, up, d.up)
    case InRight(up, l, n) =>
        d.InRight? && CopyNode(bs, bt, n, d.node) && Copy(bs, bt, l, d.left) && PartialPath(bs, bt, up, d.up)
  }

  lemma CopyComplete(bs: Node -> Balance, bt: Node -> Balance, s: Tree, u: Tree)
    requires Partial(bs, bt, s, u) && (s.left.Bin? ==> u.left.Bin?) && (s.right.Bin? ==> u.right.Bin?)
    ensures Copy(bs, bt, s, u)
  {
  }

  lemma {:induction false} CopyShape(bs: Node -> Balance, bt: Node -> Balance, s: Tree, u: Tree)
    requires Copy(bs, bt, s, u)
    ensures |InOrder(u)| == |InOrder(s)| && Height(u) == Height(s)
    ensures forall i :: 0 <= i < |InOrder(s)| ==> InOrder(u)[i].key == InOrder(s)[i].key
    ensures Avl(bt, u) <==> Avl(bs, s)
  {
    if s.Bin? {
      CopyShape(bs, bt, s.left, u.left);
      CopyShape(bs, bt, s.right, u.right);
    }
  }

  // ---------------------------------------------------- leftmost, rightmost

  /** The last node that is a right child, on a walk that visits a node before its subtrees; `r` when there is none. */
  ghost function LastRight(t: Tree, r: Node): Node
  {
    if t.Leaf? then r
    else if t.right.Bin? then LastRight(t.right, t.right.node)
    else LastRight(t.left, r)
  }

  /** What decides about the last right child, seen from the hole of `d`. */
  ghost function Anchor(d: Ctx, n: Node, r: Node): Node
  {
    match d
    case Top => r
    case InLeft(up, m, _) => Anchor(up, m, r)
    case InRight(_, _, _) => n
  }

  /** No node of `t` is a right child. */
  ghost predicate LeftOnly(t: Tree)
  {
    t.Bin? ==> t.right.Leaf? && LeftOnly(t.left)
  }

  /** What hangs to the left of the last node. */
  ghost function MaxLeft(t: Tree): Tree
    requires t.Bin?
  {
    if t.right.Leaf? then t.left else MaxLeft(t.right)
  }

  lemma {:induction false} LastOfLeftOnly(t: Tree, r: Node)
    ensures LastRight(t, r) == r || LastRight(t, r) in Nodes(t)
    ensures LeftOnly(t) ==> LastRight(t, r) == r
    ensures r !in Nodes(t) && !LeftOnly(t) ==> LastRight(t, r) in Nodes(t)
  {
    if t.Bin? {
      if t.right.Bin? {
        LastOfLeftOnly(t.right, t.right.node);
        assert t.right.node in Nodes(t.right);
      } else {
        LastOfLeftOnly(t.left, r);
      }
    }
  }

  /** The last right child is the last node exactly when nothing to the left of the last node is a right child. */
  lemma {:induction false} LastRightIsLast(t: Tree)
    requires t.Bin? && Distinct(t)
    ensures LastRight(t, t.node) == MaxNode(t) <==> LeftOnly(MaxLeft(t))
  {
    if t.right.Bin? {
      LastRightIsLast(t.right);
    } else {
      LastOfLeftOnly(t.left, t.node);
    }
  }

  /** A copy decides alike: the condition can be read off the tree that is copied. */
  lemma {:induction false} CopyLeftOnly(bs: Node -> Balance, bt: Node -> Balance, s: Tree, u: Tree)
    requires Copy(bs, bt, s, u)
    ensures LeftOnly(u) <==> LeftOnly(s)
    ensures s.Bin? ==> u.Bin? && (LeftOnly(MaxLeft(u)) <==> LeftOnly(MaxLeft(s)))
  {
    if s.Bin? {
      CopyLeftOnly(bs, bt, s.left, u.left);
      CopyLeftOnly(bs, bt, s.right, u.right);
    }
  }

  /** The smallest tree for which it is not: the root is the last node, and has a grandchild that is a right child. */
  ghost function Crooked(a: Node, b: Node, r: Node): Tree
  {
    Bin(Bin(Leaf, a, Bin(Leaf, b, Leaf)), r, Leaf)
  }

  lemma CrookedLast(a: Node, b: Node, r: Node)
    requires a != b && b != r && a != r
    ensures Distinct(Crooked(a, b, r)) && InOrder(Crooked(a, b, r)) == [a, b, r] && MaxNode(Crooked(a, b, r)) == r
    ensures LastRight(Crooked(a, b, r), r) == b && !LeftOnly(MaxLeft(Crooked(a, b, r)))
  {
    var l := Bin(Leaf, a, Bin(Leaf, b, Leaf));
    assert Distinct(Leaf) && Distinct(l.right) && Nodes(l.right) == {b};
    assert Distinct(l) && Nodes(l) == {a, b};
    assert InOrder(Bin(Leaf, b, Leaf)) == [b] && InOrder(l) == [a, b];
    assert LastRight(l, r) == LastRight(l.right, b) == b;
  }

  /** In an AVL tree it always is. */
  lemma {:induction false} AvlLastRight(B: Node -> Balance, t: Tree)
    requires t.Bin? && Avl(B, t)
    ensures LeftOnly(MaxLeft(t))
  {
    if t.right.Bin? {
      AvlLastRight(B, t.right);
    } else {
      assert Height(t.left) <= 1;
    }
  }

  // --------------------------------------------------------------- the links

  ghost function Extended(g: Store, m: Node, b: Balance): Store
  {
    Store(g.nodes + {m}, Put(g.parent, m, null), Put(g.left, m, null), Put(g.right, m, null), Put(g.balance, m, b))
  }

  method CloneNode(n: Node, ghost g: Store) returns (m: Node, ghost g': Store)
    requires Matches(g)
    ensures fresh(m) && m !in g.nodes && m.key == n.key && Matches(g') && g' == Extended(g, m, n.balance)
  {
    m := new Node(n.key);
    m.balance := n.balance;
    g' := Extended(g, m, n.balance);
  }

  /** The links as they will be once the header names the root. */
  ghost function Crowned(g: Store, root: Node, header: Node): Store
  {
    g.(parent := Put(g.parent, header, root))
  }

  ghost function Grew(g: Store, k: Ctx, m: Node, b: Balance): Store
    requires !k.Top?
  {
    var g1 := Extended(g, m, b);
    var g2 := g1.(left := Put(g1.left, m, null), right := Put(g1.right, m, null), parent := Put(g1.parent, m, k.node));
    if k.InLeft? then g2.(left := Put(g2.left, k.node, m)) else g2.(right := Put(g2.right, k.node, m))
  }

  /** A new leaf in the hole of `k`. */
  lemma GrewLinked(g: Store, k: Ctx, m: Node, b: Balance, header: Node)
    requires Linked(g, k, Leaf, header) && !k.Top? && m !in g.nodes
    ensures Linked(Grew(g, k, m, b), k, Bin(Leaf, m, Leaf), header)
  {
    var g' := Grew(g, k, m, b);
    assert k.node in CNodes(k);
    assert Nodes(Bin(Leaf, m, Leaf)) == {m};
    Rehang(g.left, g.right, g'.left, g'.right, k, null, m);
    FrameCUp(g.parent, g'.parent, k, header);
    RootAbove(k, m);
    RootHolds(k, m);
  }

  lemma {:induction false} RootHolds(k: Ctx, hole: Node?)
    requires !k.Top?
    ensures CRoot(k, hole) == CRoot(k, null)
  {
  }

  /** The copy as far as it has come, with its root not yet named by the header. */
  ghost predicate Drawn(g: Store, d: Ctx, u: Tree, header: Node, root: Node)
  {
    Linked(Crowned(g, root, header), d, u, header)
  }

  lemma DrawnGrew(g: Store, k: Ctx, m: Node, b: Balance, header: Node, root: Node)
    requires Drawn(g, k, Leaf, header, root) && !k.Top? && m !in g.nodes
    ensures Drawn(Grew(g, k, m, b), k, Bin(Leaf, m, Leaf), header, root)
  {
    var g1 := Crowned(g, root, header);
    GrewLinked(g1, k, m, b, header);
    assert k.node in CNodes(k);
    FrameLinked(Grew(g1, k, m, b), Crowned(Grew(g, k, m, b), root, header), k, Bin(Leaf, m, Leaf), header, {});
  }

  lemma {:induction false} FrameCopy(bs: Node -> Balance, bt: Node -> Balance, bt': Node -> Balance, s: Tree, u: Tree)
    requires Copy(bs, bt, s, u) && forall n <- Nodes(u) :: bt'(n) == bt(n)
    ensures Copy(bs, bt', s, u)
  {
    if s.Bin? {
      FrameCopy(bs, bt, bt', s.left, u.left);
      FrameCopy(bs, bt, bt', s.right, u.right);
    }
  }

  lemma {:induction false} FramePath(bs: Node -> Balance, bt: Node -> Balance, bt': Node -> Balance, c: Ctx, d: Ctx)
    requires PartialPath(bs, bt, c, d) && forall n <- CNodes(d) :: bt'(n) == bt(n)
    ensures PartialPath(bs, bt', c, d)
  {
    if !c.Top? {
      FramePath(bs, bt, bt', c.up, d.up);
      if c.InRight? {
        FrameCopy(bs, bt, bt', c.left, d.left);
      }
    }
  }

  /** Where the walk stands: at the node of `s` in the source and at that of `u` in the copy. */
  ghost predicate Walk(bs: Node -> Balance, g: Store, c: Ctx, s: Tree, d: Ctx, u: Tree, header: Node, root: Node)
  {
    Drawn(g, d, u, header, root) && PartialPath(bs, g.balance, c, d) && Partial(bs, g.balance, s, u)
  }

  /** What is known of the two nodes the walk keeps for the header. */
  ghost predicate Marks(s: Tree, d: Ctx, u: Tree, root: Node, leftmost: Node, rightmost: Node)
    requires s.Bin? && u.Bin?
  {
    && leftmost == (Before(d) + InOrder(u))[0] && rightmost == LastRight(u, Anchor(d, u.node, root))
    && (rightmost != root ==> Before(d) != [] || u.left.Bin? || s.left.Leaf?)
    && (rightmost == root ==> Before(d) == [])
  }

  /** The walk goes down to the left. */
  lemma StepLeft(bs: Node -> Balance, g: Store, c: Ctx, s: Tree, d: Ctx, u: Tree, header: Node, root: Node, m: Node)
    requires Walk(bs, g, c, s, d, u, header, root) && s.left.Bin? && u.left.Leaf?
    requires m !in g.nodes && m.key == s.left.node.key
    ensures u.right.Leaf?
    ensures Walk(bs, Grew(g, InLeft(d, u.node, Leaf), m, bs(s.left.node)), InLeft(c, s.node, s.right), s.left,
                 InLeft(d, u.node, Leaf), Bin(Leaf, m, Leaf), header, root)
  {
    var k, g' := InLeft(d, u.node, Leaf), Grew(g, InLeft(d, u.node, Leaf), m, bs(s.left.node));
    Refocus(Crowned(g, root, header), k, Leaf, header);
    DrawnGrew(g, k, m, bs(s.left.node), header, root);
    FramePath(bs, g.balance, g'.balance, c, d);
  }

  /** The walk goes down to the right. */
  lemma StepRight(bs: Node -> Balance, g: Store, c: Ctx, s: Tree, d: Ctx, u: Tree, header: Node, root: Node, m: Node)
    requires Walk(bs, g, c, s, d, u, header, root) && s.right.Bin? && u.right.Leaf? && (s.left.Bin? ==> u.left.Bin?)
    requires m !in g.nodes && m.key == s.right.node.key
    ensures Walk(bs, Grew(g, InRight(d, u.left, u.node), m, bs(s.right.node)), InRight(c, s.left, s.node), s.right,
                 InRight(d, u.left, u.node), Bin(Leaf, m, Leaf), header, root)
  {
    hide Drawn, Grew, Nodes, CNodes;
    var k, g' := InRight(d, u.left, u.node), Grew(g, InRight(d, u.left, u.node), m, bs(s.right.node));
    DrawnRight(g, d, u, header, root);
    DrawnGrew(g, k, m, bs(s.right.node), header, root);
    GrewBalance(g, k, m, bs(s.right.node));
    FramePath(bs, g.balance, g'.balance, c, d);
    FrameCopy(bs, g.balance, g'.balance, s.left, u.left);
  }

  lemma DrawnRight(g: Store, d: Ctx, u: Tree, header: Node, root: Node)
    requires Drawn(g, d, u, header, root) && u.Bin? && u.right.Leaf?
    ensures Drawn(g, InRight(d, u.left, u.node), Leaf, header, root)
    ensures CNodes(d) <= g.nodes && u.node in g.nodes && Nodes(u.left) <= g.nodes
  {
    Refocus(Crowned(g, root, header), InRight(d, u.left, u.node), Leaf, header);
  }

  lemma GrewBalance(g: Store, k: Ctx, m: Node, b: Balance)
    requires !k.Top?
    ensures var g' := Grew(g, k, m, b); g'.balance(m) == b && forall n :: n != m ==> g'.balance(n) == g.balance(n)
  {
  }

  /** Both subtrees are done, and the walk goes up. */
  lemma StepUp(bs: Node -> Balance, g: Store, c: Ctx, s: Tree, d: Ctx, u: Tree, header: Node, root: Node)
    requires Walk(bs, g, c, s, d, u, header, root) && !c.Top?
    requires (s.left.Bin? ==> u.left.Bin?) && (s.right.Bin? ==> u.right.Bin?)
    ensures !d.Top? && Walk(bs, g, c.up, Grown(c, s), d.up, Grown(d, u), header, root)
  {
    CopyComplete(bs, g.balance, s, u);
    Refocus(Crowned(g, root, header), d, u, header);
  }

  lemma MarksLeft(s: Tree, d: Ctx, u: Tree, root: Node, leftmost: Node, rightmost: Node, m: Node)
    requires s.Bin? && u.Bin? && Marks(s, d, u, root, leftmost, rightmost)
    requires s.left.Bin? && u.left.Leaf? && u.right.Leaf?
    ensures Marks(s.left, InLeft(d, u.node, Leaf), Bin(Leaf, m, Leaf), root, if rightmost == root then m
                  else leftmost, rightmost)
  {
    if rightmost != root {
      assert (Before(d) + [m])[0] == Before(d)[0] == (Before(d) + InOrder(u))[0];
    }
  }

  lemma MarksRight(s: Tree, d: Ctx, u: Tree, root: Node, leftmost: Node, rightmost: Node, m: Node)
    requires s.Bin? && u.Bin? && Marks(s, d, u, root, leftmost, rightmost)
    requires s.right.Bin? && u.right.Leaf? && m != root
    ensures Marks(s.right, InRight(d, u.left, u.node), Bin(Leaf, m, Leaf), root, leftmost, m)
  {
    assert Before(InRight(d, u.left, u.node)) == Before(d) + InOrder(u);
    assert (Before(d) + InOrder(u) + [m])[0] == (Before(d) + InOrder(u))[0];
  }

  lemma MarksUp(bs: Node -> Balance, bt: Node -> Balance, c: Ctx, s: Tree, d: Ctx, u: Tree, root: Node, leftmost: Node,
                rightmost: Node)
    requires s.Bin? && u.Bin? && Marks(s, d, u, root, leftmost, rightmost) && !c.Top? && PartialPath(bs, bt, c, d)
    ensures Marks(Grown(c, s), d.up, Grown(d, u), root, leftmost, rightmost)
  {
    MarksGrown(d, u);
    hide Copy, InOrder, Before;
  }

  /** Going up does not change what comes first. */
  lemma MarksGrown(d: Ctx, u: Tree)
    requires u.Bin? && !d.Top?
    ensures d.InLeft? && d.right.Leaf? ==>
      Before(d.up) == Before(d) && (Before(d.up) + InOrder(Grown(d, u)))[0] == (Before(d) + InOrder(u))[0]
    ensures d.InRight? ==>
      Before(d) != [] && (Before(d.up) + InOrder(Grown(d, u)))[0] == (Before(d) + InOrder(u))[0]
    ensures Before(d.up) != [] ==> Before(d) != []
  {
    if d.InLeft? {
      if d.right.Leaf? {
        assert InOrder(Grown(d, u)) == InOrder(u) + [d.node];
      }
    } else {
      assert Before(d.up) + InOrder(Grown(d, u)) == Before(d) + InOrder(u);
    }
  }

  // -------------------------------------------------------------- the walk

  /** How many nodes are still to be cloned below the place the walk stands at. */
  ghost function MissingBelow(s: Tree, u: Tree): nat
    requires s.Bin? && u.Bin?
  {
    (if u.left.Leaf? then |InOrder(s.left)| else 0) + (if u.right.Leaf? then |InOrder(s.right)| else 0)
  }

  /** And along the way up. */
  ghost function MissingAbove(c: Ctx): nat
  {
    match c
    case Top => 0
    case InLeft(up, _, r) => |InOrder(r)| + MissingAbove(up)
    case InRight(up, _, _) => MissingAbove(up)
  }

  ghost function Missing(c: Ctx, s: Tree, u: Tree): nat
    requires s.Bin? && u.Bin?
  {
    MissingAbove(c) + MissingBelow(s, u)
  }

  ghost function Depth(c: Ctx): nat
  {
    if c.Top? then 0 else 1 + Depth(c.up)
  }

  lemma MissingDown(c: Ctx, s: Tree, u: Tree, m: Node)
    requires s.Bin? && u.Bin? && u.right.Leaf?
    ensures s.left.Bin? && u.left.Leaf? ==>
      MissingAbove(InLeft(c, s.node, s.right)) + MissingBelow(s.left, Bin(Leaf, m, Leaf))
          < MissingAbove(c) + MissingBelow(s, u)
    ensures s.right.Bin? && (s.left.Leaf? || u.left.Bin?) ==>
      MissingAbove(InRight(c, s.left, s.node)) + MissingBelow(s.right, Bin(Leaf, m, Leaf))
          < MissingAbove(c) + MissingBelow(s, u)
  {
  }

  lemma MissingUp(bs: Node -> Balance, bt: Node -> Balance, c: Ctx, s: Tree, d: Ctx, u: Tree)
    requires s.Bin? && u.Bin? && !c.Top? && PartialPath(bs, bt, c, d)
    requires (s.left.Bin? ==> u.left.Bin?) && (s.right.Bin? ==> u.right.Bin?)
    ensures MissingAbove(c.up) + MissingBelow(Grown(c, s), Grown(d, u)) <= MissingAbove(c) + MissingBelow(s, u)
  {
    assert MissingBelow(s, u) == 0;
    if c.InRight? {
      CopyEmpty(bs, bt, c.left, d.left);
    }
  }

  lemma CopyEmpty(bs: Node -> Balance, bt: Node -> Balance, s: Tree, u: Tree)
    requires Copy(bs, bt, s, u)
    ensures s.Leaf? <==> u.Leaf?
  {
  }

  /** Hangs a new node, a leaf so far, below another one. */
  method HangLeaf(m: Node, parent: Node, left: bool, ghost g: Store) returns (ghost g': Store)
    requires Matches(g) && m in g.nodes && parent in g.nodes
    modifies m, parent
    ensures Matches(g')
    ensures var g1 := g.(left := Put(g.left, m, null), right := Put(g.right, m, null),
                         parent := Put(g.parent, m, parent));
      g' == if left then g1.(left := Put(g1.left, parent, m)) else g1.(right := Put(g1.right, parent, m))
  {
    g' := SetLeft(m, null, g);
    g' := SetRight(m, null, g');
    g' := SetParent(m, parent, g');
    if left {
      g' := SetLeft(parent, m, g');
    } else {
      g' := SetRight(parent, m, g');
    }
  }

  /** Clones a node and hangs the clone, still a leaf, below another one. */
  method CloneBelow(current: Node, parent: Node, left: bool, ghost gs: Store, ghost g: Store, ghost k: Ctx)
    returns (m: Node, ghost g': Store)
    requires Matches(gs) && current in gs.nodes && parent !in gs.nodes
    requires Matches(g) && parent in g.nodes && !k.Top? && k.node == parent && left == k.InLeft?
    modifies parent
    ensures fresh(m) && m !in g.nodes && m.key == current.key && Matches(g') && g' == Grew(g, k, m, gs.balance(current))
    ensures Matches(gs)
  {
    m, g' := CloneNode(current, g);
    g' := HangLeaf(m, parent, left, g');
  }

  /** Everything the walk keeps. */
  ghost predicate Walking(gs: Store, g: Store, c: Ctx, s: Tree, d: Ctx, u: Tree, t: Tree, sourceHeader: Node,
                          header: Node,
                          root: Node, leftmost: Node, rightmost: Node)
  {
    && Linked(gs, c, s, sourceHeader) && Plug(c, s) == t
    && Walk(gs.balance, g, c, s, d, u, header, root) && Marks(s, d, u, root, leftmost, rightmost)
    && root in g.nodes && CRoot(d, u.node) == root && Holds(g, d, u, header)
  }

  /** The store of the copy knows the nodes of the copy and its header, and no others. */
  ghost predicate Holds(g: Store, d: Ctx, u: Tree, header: Node)
  {
    g.nodes == CNodes(d) + Nodes(u) + {header}
  }

  lemma LeafNodes(n: Node)
    ensures Nodes(Bin(Leaf, n, Leaf)) == {n}
  {
    assert Nodes(Leaf) == {};
  }

  lemma HoldsLeft(g: Store, g': Store, d: Ctx, u: Tree, header: Node, m: Node)
    requires Holds(g, d, u, header) && u.Bin? && u.left.Leaf? && u.right.Leaf? && g'.nodes == g.nodes + {m}
    ensures Holds(g', InLeft(d, u.node, Leaf), Bin(Leaf, m, Leaf), header)
  {
    LeafNodes(u.node);
    LeafNodes(m);
    HoleNodes(InLeft(d, u.node, Leaf));
  }

  lemma HoldsRight(g: Store, g': Store, d: Ctx, u: Tree, header: Node, m: Node)
    requires Holds(g, d, u, header) && u.Bin? && u.right.Leaf? && g'.nodes == g.nodes + {m}
    ensures Holds(g', InRight(d, u.left, u.node), Bin(Leaf, m, Leaf), header)
  {
    LeafNodes(m);
    HoleNodes(InRight(d, u.left, u.node));
    assert Nodes(u) == Nodes(u.left) + {u.node};
  }

  lemma HoleNodes(k: Ctx)
    requires !k.Top?
    ensures CNodes(k) == CNodes(k.up) + {k.node} + Nodes(Side(k))
  {
  }

  lemma HoldsUp(g: Store, d: Ctx, u: Tree, header: Node)
    requires Holds(g, d, u, header) && !d.Top?
    ensures Holds(g, d.up, Grown(d, u), header)
  {
    assert Nodes(Grown(d, u)) == Nodes(u) + {d.node} + Nodes(Side(d));
    assert CNodes(d) == CNodes(d.up) + {d.node} + Nodes(Side(d));
  }


  lemma WalkKnown(gs: Store, g: Store, c: Ctx, s: Tree, d: Ctx, u: Tree, t: Tree, sourceHeader: Node, header: Node,
                  root: Node, leftmost: Node, rightmost: Node)
    requires Walking(gs, g, c, s, d, u, t, sourceHeader, header, root, leftmost, rightmost)
    ensures s.Bin? && u.Bin?
    ensures s.node in gs.nodes && gs.left(s.node) == Root(s.left) && gs.right(s.node) == Root(s.right)
    ensures Known(gs, Root(s.left)) && Known(gs, Root(s.right))
    ensures u.node in g.nodes && u.node != header && g.left(u.node) == Root(u.left) && g.right(u.node) == Root(u.right)
    ensures g.parent(u.node) == CParent(d, header) && header in g.nodes
    ensures c.Top? <==> gs.parent(sourceHeader) == s.node
    ensures !c.Top? ==> gs.parent(s.node) == c.node && !d.Top? && d.node in g.nodes && c.node in gs.nodes
  {
    ParentLinks(gs, c, s, sourceHeader);
    ChildLooks(gs, c, s, sourceHeader);
    ParentLinks(Crowned(g, root, header), d, u, header);
    if !c.Top? {
      AtParent(gs, c, s, sourceHeader);
      AtParent(Crowned(g, root, header), d, u, header);
    }
  }

  lemma GoLeft(gs: Store, g: Store, c: Ctx, s: Tree, d: Ctx, u: Tree, t: Tree, sourceHeader: Node, header: Node,
               root: Node, leftmost: Node, rightmost: Node, m: Node)
    requires Walking(gs, g, c, s, d, u, t, sourceHeader, header, root, leftmost, rightmost)
    requires s.left.Bin? && u.left.Leaf? && m !in g.nodes && m.key == s.left.node.key
    ensures var g' := Grew(g, InLeft(d, u.node, Leaf), m, gs.balance(s.left.node));
      Walking(gs, g', InLeft(c, s.node, s.right), s.left, InLeft(d, u.node, Leaf), Bin(Leaf, m, Leaf), t, sourceHeader,
              header,
              root, if rightmost == root then m else leftmost, rightmost)
    ensures MissingAbove(InLeft(c, s.node, s.right)) + MissingBelow(s.left, Bin(Leaf, m, Leaf))
        < MissingAbove(c) + MissingBelow(s, u)
  {
    StepLeft(gs.balance, g, c, s, d, u, header, root, m);
    HoldsLeft(g, Grew(g, InLeft(d, u.node, Leaf), m, gs.balance(s.left.node)), d, u, header, m);
    MarksLeft(s, d, u, root, leftmost, rightmost, m);
    MissingDown(c, s, u, m);
    Refocus(gs, InLeft(c, s.node, s.right), s.left, sourceHeader);
    RootHolds(InLeft(d, u.node, Leaf), m);
    if !d.Top? {
      RootHolds(d, u.node);
    }
  }

  lemma GoRight(gs: Store, g: Store, c: Ctx, s: Tree, d: Ctx, u: Tree, t: Tree, sourceHeader: Node, header: Node,
                root: Node, leftmost: Node, rightmost: Node, m: Node)
    requires Walking(gs, g, c, s, d, u, t, sourceHeader, header, root, leftmost, rightmost)
    requires s.right.Bin? && u.right.Leaf? && (s.left.Bin? ==> u.left.Bin?) && m !in g.nodes
        && m.key == s.right.node.key
    ensures var g' := Grew(g, InRight(d, u.left, u.node), m, gs.balance(s.right.node));
      Walking(gs, g', InRight(c, s.left, s.node), s.right, InRight(d, u.left, u.node), Bin(Leaf, m, Leaf), t,
              sourceHeader, header,
              root, leftmost, m)
    ensures MissingAbove(InRight(c, s.left, s.node)) + MissingBelow(s.right, Bin(Leaf, m, Leaf))
        < MissingAbove(c) + MissingBelow(s, u)
  {
    HoldsRight(g, Grew(g, InRight(d, u.left, u.node), m, gs.balance(s.right.node)), d, u, header, m);
    StepRight(gs.balance, g, c, s, d, u, header, root, m);
    MarksRight(s, d, u, root, leftmost, rightmost, m);
    MissingDown(c, s, u, m);
    Refocus(gs, InRight(c, s.left, s.node), s.right, sourceHeader);
    RootHolds(InRight(d, u.left, u.node), m);
    if !d.Top? {
      RootHolds(d, u.node);
    }
  }

  /** The left child is cloned. */
  method CloneLeft(current: Node, insertionPoint: Node, leftmost: Node, rightmost: Node, root: Node,
                   ghost gs: Store, ghost g: Store, ghost c: Ctx, ghost s: Tree, ghost d: Ctx, ghost u: Tree,
                   ghost t: Tree, ghost sourceHeader: Node, ghost header: Node)
    returns (next: Node, m: Node, leftmost': Node, ghost g': Store, ghost c': Ctx, ghost s': Tree, ghost d': Ctx,
             ghost u': Tree)
    requires Matches(gs) && Matches(g) && insertionPoint !in gs.nodes
    requires Walking(gs, g, c, s, d, u, t, sourceHeader, header, root, leftmost, rightmost)
    requires current == s.node && insertionPoint == u.node
    requires s.left.Bin? && u.left.Leaf?
    modifies insertionPoint
    ensures fresh(m) && Matches(gs) && Matches(g') && g'.nodes == g.nodes + {m} && m !in g.nodes
    ensures s'.Bin? && u'.Bin? && next == s'.node && m == u'.node
    ensures MissingAbove(c') + MissingBelow(s', u') < MissingAbove(c) + MissingBelow(s, u)
    ensures Walking(gs, g', c', s', d', u', t, sourceHeader, header, root, leftmost', rightmost)
  {
    WalkKnown(gs, g, c, s, d, u, t, sourceHeader, header, root, leftmost, rightmost);
    next := current.left;
    m, g' := CloneBelow(next, insertionPoint, true, gs, g, InLeft(d, u.node, Leaf));
    leftmost' := leftmost;
    if rightmost == root {
      leftmost' := m;
    }
    GoLeft(gs, g, c, s, d, u, t, sourceHeader, header, root, leftmost, rightmost, m);
    c', s', d', u' := InLeft(c, s.node, s.right), s.left, InLeft(d, u.node, Leaf), Bin(Leaf, m, Leaf);
  }

  /** The right child is cloned, and is the rightmost node for now. */
  method CloneRight(current: Node, insertionPoint: Node, leftmost: Node, rightmost: Node, root: Node,
                    ghost gs: Store, ghost g: Store, ghost c: Ctx, ghost s: Tree, ghost d: Ctx, ghost u: Tree,
                    ghost t: Tree, ghost sourceHeader: Node, ghost header: Node)
    returns (next: Node, m: Node, ghost g': Store, ghost c': Ctx, ghost s': Tree, ghost d': Ctx, ghost u': Tree)
    requires Matches(gs) && Matches(g) && insertionPoint !in gs.nodes
    requires Walking(gs, g, c, s, d, u, t, sourceHeader, header, root, leftmost, rightmost)
    requires current == s.node && insertionPoint == u.node
    requires s.right.Bin? && u.right.Leaf? && (s.left.Bin? ==> u.left.Bin?)
    modifies insertionPoint
    ensures fresh(m) && Matches(gs) && Matches(g') && g'.nodes == g.nodes + {m} && m !in g.nodes
    ensures s'.Bin? && u'.Bin? && next == s'.node && m == u'.node
    ensures MissingAbove(c') + MissingBelow(s', u') < MissingAbove(c) + MissingBelow(s, u)
    ensures Walking(gs, g', c', s', d', u', t, sourceHeader, header, root, leftmost, m)
  {
    WalkKnown(gs, g, c, s, d, u, t, sourceHeader, header, root, leftmost, rightmost);
    next := current.right;
    m, g' := CloneBelow(next, insertionPoint, false, gs, g, InRight(d, u.left, u.node));
    GoRight(gs, g, c, s, d, u, t, sourceHeader, header, root, leftmost, rightmost, m);
    c', s', d', u' := InRight(c, s.left, s.node), s.right, InRight(d, u.left, u.node), Bin(Leaf, m, Leaf);
  }

  lemma Climb(gs: Store, g: Store, c: Ctx, s: Tree, d: Ctx, u: Tree, t: Tree, sourceHeader: Node, header: Node,
              root: Node, leftmost: Node, rightmost: Node)
    requires Walking(gs, g, c, s, d, u, t, sourceHeader, header, root, leftmost, rightmost) && !c.Top?
    requires (s.left.Bin? ==> u.left.Bin?) && (s.right.Bin? ==> u.right.Bin?)
    ensures !d.Top?
    ensures Walking(gs, g, c.up, Grown(c, s), d.up, Grown(d, u), t, sourceHeader, header, root, leftmost, rightmost)
    ensures MissingAbove(c.up) + MissingBelow(Grown(c, s), Grown(d, u)) <= MissingAbove(c) + MissingBelow(s, u)
  {
    StepUp(gs.balance, g, c, s, d, u, header, root);
    MarksUp(gs.balance, g.balance, c, s, d, u, root, leftmost, rightmost);
    MissingUp(gs.balance, g.balance, c, s, d, u);
    HoldsUp(g, d, u, header);
    Refocus(gs, c, s, sourceHeader);
  }

  ghost predicate OnlyClones(g: Store, clones: set<Node>, header: Node)
  {
    header !in clones && g.nodes == clones + {header}
  }

  /** One turn of the walk: down to a child not cloned yet, or up, or done. */
  method WalkOn(current: Node, insertionPoint: Node, leftmost: Node, rightmost: Node, root: Node, sourceRoot: Node,
                ghost gs: Store, ghost g: Store, ghost c: Ctx, ghost s: Tree, ghost d: Ctx, ghost u: Tree,
                ghost t: Tree, ghost sourceHeader: Node, ghost header: Node, ghost clones: set<Node>)
    returns (next: Node, point: Node, leftmost': Node, rightmost': Node, done: bool,
             ghost g': Store, ghost c': Ctx, ghost s': Tree, ghost d': Ctx, ghost u': Tree, ghost clones': set<Node>)
    requires Matches(gs) && Matches(g) && insertionPoint !in gs.nodes && OnlyClones(g, clones, header)
    requires Walking(gs, g, c, s, d, u, t, sourceHeader, header, root, leftmost, rightmost)
    requires current == s.node && insertionPoint == u.node && sourceRoot == gs.parent(sourceHeader)
    modifies insertionPoint
    ensures Matches(gs) && Matches(g') && OnlyClones(g', clones', header)
    ensures clones' == clones || (clones' == clones + {point} && fresh(point))
    ensures Walking(gs, g', c', s', d', u', t, sourceHeader, header, root, leftmost', rightmost')
    ensures s'.Bin? && u'.Bin? && next == s'.node && point == u'.node && point in clones' && point != header
    ensures done ==> c'.Top? && (s'.left.Bin? ==> u'.left.Bin?) && (s'.right.Bin? ==> u'.right.Bin?)
    ensures !done ==>
        Missing(c', s', u') < Missing(c, s, u) || (Missing(c', s', u') == Missing(c, s, u) && Depth(c') < Depth(c))
  {
    hide Walking, Nodes, CNodes, MissingAbove, MissingBelow, InOrder, Plug, Height, Partial, Copy;
    WalkKnown(gs, g, c, s, d, u, t, sourceHeader, header, root, leftmost, rightmost);
    next, point, leftmost', rightmost', done, g' := current, insertionPoint, leftmost, rightmost, false, g;
    c', s', d', u', clones' := c, s, d, u, clones;
    if current.left != null && insertionPoint.left == null {
      next, point, leftmost', g', c', s', d', u' :=
        CloneLeft(current, insertionPoint, leftmost, rightmost, root, gs, g, c, s, d, u, t, sourceHeader, header);
      clones' := clones + {point};
    } else if current.right != null && insertionPoint.right == null {
      next, point, g', c', s', d', u' :=
        CloneRight(current, insertionPoint, leftmost, rightmost, root, gs, g, c, s, d, u, t, sourceHeader, header);
      rightmost', clones' := point, clones + {point};
    } else if current == sourceRoot {
      done := true;
    } else {
      Climb(gs, g, c, s, d, u, t, sourceHeader, header, root, leftmost, rightmost);
      next, point := current.parent, insertionPoint.parent;
      c', s', d', u' := c.up, Grown(c, s), d.up, Grown(d, u);
    }
    WalkKnown(gs, g', c', s', d', u', t, sourceHeader, header, root, leftmost', rightmost');
  }

  /** The root of the copy, and what the walk begins with. */
  method CloneRoot(sourceParent: Node, targetParent: Node, ghost gs: Store, ghost t: Tree, ghost g0: Store)
    returns (sourceRoot: Node, root: Node, ghost g: Store)
    requires Matches(gs) && Valid(gs, t, sourceParent) && t.Bin?
    requires Matches(g0) && g0.nodes == {targetParent} && targetParent !in gs.nodes
    ensures sourceRoot == t.node && sourceRoot == gs.parent(sourceParent)
    ensures fresh(root) && root != targetParent && Matches(g) && OnlyClones(g, {root}, targetParent)
    ensures Walking(gs, g, Top, t, Top, Bin(Leaf, root, Leaf), t, sourceParent, targetParent, root, root, root)
  {
    hide Walking, Nodes, InOrder, Valid, Linked, Unhung;
    WholeKnown(gs, t, sourceParent);
    sourceRoot := sourceParent.parent;
    root, g := CloneNode(sourceRoot, g0);
    g := MakeRoot(root, targetParent, g);
    WalkStart(gs, t, sourceParent, g0, root, targetParent);
  }

  method MakeRoot(root: Node, targetParent: Node, ghost g: Store) returns (ghost g': Store)
    requires Matches(g) && root in g.nodes
    modifies root
    ensures Matches(g')
    ensures g' == g.(left := Put(g.left, root, null), right := Put(g.right, root, null),
                     parent := Put(g.parent, root, targetParent))
  {
    g' := SetLeft(root, null, g);
    g' := SetRight(root, null, g');
    g' := SetParent(root, targetParent, g');
  }

  lemma WalkStart(gs: Store, t: Tree, sourceHeader: Node, g0: Store, root: Node, header: Node)
    requires Valid(gs, t, sourceHeader) && t.Bin? && g0.nodes == {header} && root != header && root.key == t.node.key
    ensures var g1 := Extended(g0, root, gs.balance(t.node));
      var g := g1.(left := Put(g1.left, root, null), right := Put(g1.right, root, null),
                   parent := Put(g1.parent, root, header));
      Walking(gs, g, Top, t, Top, Bin(Leaf, root, Leaf), t, sourceHeader, header, root, root, root)
  {
    var g1 := Extended(g0, root, gs.balance(t.node));
    var g := g1.(left := Put(g1.left, root, null), right := Put(g1.right, root, null),
                 parent := Put(g1.parent, root, header));
    RootDrawn(g, root, header);
    assert InOrder(Bin(Leaf, root, Leaf)) == [root];
  }

  lemma RootDrawn(g: Store, root: Node, header: Node)
    requires root != header && root in g.nodes && header in g.nodes
    requires g.left(root) == null && g.right(root) == null && g.parent(root) == header
    ensures Drawn(g, Top, Bin(Leaf, root, Leaf), header, root)
  {
    var t, g1 := Bin(Leaf, root, Leaf), Crowned(g, root, header);
    LeafNodes(root);
    LeafDown(g1, root, header);
    assert CNodes(Top) == {} && CDistinct(Top);
    assert Apart(Top, t, header);
    assert CDown(g1.left, g1.right, Top, root) && CUp(g1.parent, Top, header);
  }

  lemma LeafDown(g: Store, n: Node, p: Node)
    requires g.left(n) == null && g.right(n) == null && g.parent(n) == p
    ensures Distinct(Bin(Leaf, n, Leaf))
    ensures Down(g.left, g.right, Bin(Leaf, n, Leaf)) && Up(g.parent, Bin(Leaf, n, Leaf), p)
  {
    assert Down(g.left, g.right, Leaf) && Up(g.parent, Leaf, n) && Distinct(Leaf) && Nodes(Leaf) == {};
  }

  /** The walk, from the root on until it is back there with nothing missing. */
  method WalkAll(sourceRoot: Node, root: Node, ghost gs: Store, ghost g0: Store, ghost t: Tree,
                 ghost sourceHeader: Node, ghost header: Node)
    returns (leftmost: Node, rightmost: Node, ghost g: Store, ghost c: Ctx, ghost s: Tree, ghost d: Ctx, ghost u: Tree,
             ghost clones: set<Node>)
    requires Matches(gs) && Matches(g0) && root !in gs.nodes && root != header && OnlyClones(g0, {root}, header)
    requires Walking(gs, g0, Top, t, Top, Bin(Leaf, root, Leaf), t, sourceHeader, header, root, root, root)
    requires t.Bin? && sourceRoot == t.node && sourceRoot == gs.parent(sourceHeader)
    modifies root
    ensures Matches(gs) && Matches(g) && fresh(clones - {root}) && OnlyClones(g, clones, header)
    ensures Walking(gs, g, c, s, d, u, t, sourceHeader, header, root, leftmost, rightmost)
    ensures c.Top? && s.Bin? && u.Bin? && (s.left.Bin? ==> u.left.Bin?) && (s.right.Bin? ==> u.right.Bin?)
  {
    hide *;
    var current: Node, insertionPoint: Node := sourceRoot, root;
    leftmost, rightmost := root, root;
    g, c, s, d, u, clones := g0, Top, t, Top, Bin(Leaf, root, Leaf), {root};
    while true
      invariant Matches(gs) && Matches(g) && OnlyClones(g, clones, header)
      invariant Walking(gs, g, c, s, d, u, t, sourceHeader, header, root, leftmost, rightmost)
      invariant s.Bin? && u.Bin? && current == s.node && insertionPoint == u.node
      invariant insertionPoint in clones && fresh(clones - {root})
      decreases Missing(c, s, u), Depth(c)
    {
      var done;
      current, insertionPoint, leftmost, rightmost, done, g, c, s, d, u, clones :=
        WalkOn(current, insertionPoint, leftmost, rightmost, root, sourceRoot, gs, g, c, s, d, u, t, sourceHeader,
               header, clones);
      if done {
        break;
      }
    }
  }

  /** A copy of the whole tree, and the two nodes its header will name. */
  method CloneSubtree(sourceParent: Node, targetParent: Node, ghost gs: Store, ghost t: Tree, ghost g0: Store)
    returns (root: Node, leftmost: Node, rightmost: Node, ghost g: Store, ghost u: Tree, ghost clones: set<Node>)
    requires Matches(gs) && Valid(gs, t, sourceParent) && t.Bin?
    requires Matches(g0) && g0.nodes == {targetParent} && targetParent !in gs.nodes
    ensures Matches(gs) && Matches(g) && fresh(clones) && OnlyClones(g, clones, targetParent)
    ensures u.Bin? && root == u.node && Drawn(g, Top, u, targetParent, root) && Copy(gs.balance, g.balance, t, u)
    ensures g.nodes == Nodes(u) + {targetParent}
    ensures leftmost == MinNode(u) && rightmost == LastRight(u, root)
    ensures rightmost == MaxNode(u) <==> LeftOnly(MaxLeft(t))
  {
    hide *;
    var sourceRoot;
    sourceRoot, root, g := CloneRoot(sourceParent, targetParent, gs, t, g0);
    ghost var c, s, d;
    leftmost, rightmost, g, c, s, d, u, clones := WalkAll(sourceRoot, root, gs, g, t, sourceParent, targetParent);
    WalkEnd(gs, g, c, s, d, u, t, sourceParent, targetParent, root, leftmost, rightmost);
    RightmostIsLast(gs, g, t, u, targetParent, root);
  }

  lemma RightmostIsLast(gs: Store, g: Store, t: Tree, u: Tree, header: Node, root: Node)
    requires u.Bin? && root == u.node && Drawn(g, Top, u, header, root) && Copy(gs.balance, g.balance, t, u)
    ensures t.Bin? && (LastRight(u, root) == MaxNode(u) <==> LeftOnly(MaxLeft(t)))
  {
    LastRightIsLast(u);
    CopyLeftOnly(gs.balance, g.balance, t, u);
  }

  lemma WalkEnd(gs: Store, g: Store, c: Ctx, s: Tree, d: Ctx, u: Tree, t: Tree, sourceHeader: Node, header: Node,
                root: Node, leftmost: Node, rightmost: Node)
    requires Walking(gs, g, c, s, d, u, t, sourceHeader, header, root, leftmost, rightmost) && c.Top?
    requires (s.left.Bin? ==> u.left.Bin?) && (s.right.Bin? ==> u.right.Bin?)
    ensures root == u.node && Drawn(g, Top, u, header, root) && Copy(gs.balance, g.balance, t, u)
    ensures g.nodes == Nodes(u) + {header}
    ensures leftmost == MinNode(u) && rightmost == LastRight(u, root)
  {
    hide Linked, Copy, Nodes, InOrder, MinNode, LastRight;
    CopyComplete(gs.balance, g.balance, s, u);
    MinFacts(u);
    assert d == Top && Before(d) == [] && InOrder(u) != [];
    assert Before(d) + InOrder(u) == InOrder(u);
  }

  lemma WholeKnown(gs: Store, t: Tree, header: Node)
    requires Valid(gs, t, header) && t.Bin?
    ensures header in gs.nodes && gs.parent(header) == t.node && t.node in gs.nodes
  {
    assert t.node in Nodes(t);
  }

  /** `n` is in no tree any more. */
  ghost predicate Cleared(n: Node)
    reads n
  {
    n.parent == null && n.left == null && n.right == null
  }

  /** The links of `n` are those that `g` tells. */
  ghost predicate Unmoved(g: Store, n: Node)
    reads n
  {
    n.parent == g.parent(n) && n.left == g.left(n) && n.right == g.right(n) && n.balance == g.balance(n)
  }

  /** What the target held is disposed of; the store that is left knows its header only. */
  method MakeRoom(header: Node, ghost g0: Store, ghost t0: Tree) returns (disposed: seq<Node>, ghost g: Store)
    requires Matches(g0) && Valid(g0, t0, header)
    modifies g0.nodes
    ensures Matches(g) && g.nodes == {header} && g.balance == g0.balance
    ensures header in g0.nodes && header !in Nodes(t0) && Nodes(t0) <= g0.nodes
    ensures disposed == InOrder(t0) && forall n <- Nodes(t0) :: Cleared(n)
    ensures forall n <- g0.nodes :: n !in Nodes(t0) && n != header ==> Unmoved(g0, n)
  {
    disposed, g := [], g0;
    if header.parent != null {
      disposed, g := Drain.ClearAndDispose(header, g0, t0);
    }
    g := Store({header}, g.parent, g.left, g.right, g.balance);
  }

  /**
   Replaces the tree of one header by a copy of the tree of another.  The copy is right in all links,
   and the header names its first node; it names its last one only if the source meets a condition.
   */
  method CloneTree(sourceHeader: Node, targetHeader: Node, ghost gs: Store, ghost t: Tree, ghost g0: Store,
                   ghost t0: Tree)
    returns (disposed: seq<Node>, ghost g: Store, ghost u: Tree, ghost clones: set<Node>)
    requires Matches(gs) && Valid(gs, t, sourceHeader) && t.Bin?
    requires Matches(g0) && Valid(g0, t0, targetHeader) && g0.nodes !! gs.nodes
    modifies g0.nodes
    ensures Matches(gs) && Matches(g) && fresh(clones) && clones == Nodes(u) && OnlyClones(g, clones, targetHeader)
    ensures Linked(g, Top, u, targetHeader) && Copy(gs.balance, g.balance, t, u)
    ensures g.balance(targetHeader) == g0.balance(targetHeader)
    ensures u.Bin? && g.left(targetHeader) == MinNode(u) && g.right(targetHeader) == LastRight(u, u.node)
    ensures Valid(g, u, targetHeader) <==> LeftOnly(MaxLeft(t))
    ensures disposed == InOrder(t0) && forall n <- Nodes(t0) :: Cleared(n)
    ensures forall n <- g0.nodes :: n !in Nodes(t0) && n != targetHeader ==> Unmoved(g0, n)
  {
    hide *;
    disposed, g := MakeRoom(targetHeader, g0, t0);
    ghost var g1 := g;
    var newRoot, leftmost, rightmost;
    newRoot, leftmost, rightmost, g, u, clones := CloneSubtree(sourceHeader, targetHeader, gs, t, g);
    HeaderKept(g1, g, targetHeader);
    SameClones(g, clones, u, targetHeader, newRoot);
    CloneEnds(gs, g, t, u, targetHeader, newRoot, leftmost, rightmost);
    ghost var g2 := g;
    g := NameRoot(targetHeader, newRoot, leftmost, rightmost, gs, g);
    StillClones(g2, g, clones, targetHeader);
  }

  lemma StillClones(g: Store, g': Store, clones: set<Node>, header: Node)
    requires OnlyClones(g, clones, header) && g'.nodes == g.nodes
    ensures OnlyClones(g', clones, header)
  {
  }

  lemma HeaderKept(g1: Store, g: Store, header: Node)
    requires Matches(g1) && Matches(g) && header in g1.nodes && header in g.nodes
    ensures g.balance(header) == g1.balance(header)
  {
  }

  /** The clone of an AVL tree is an AVL tree with the same keys in the same order, made of new nodes only. */
  method Clone(sourceHeader: Node, targetHeader: Node, ghost gs: Store, ghost t: Tree, ghost g0: Store, ghost t0: Tree)
    returns (disposed: seq<Node>, ghost g: Store, ghost u: Tree, ghost clones: set<Node>)
    requires Matches(gs) && AvlValid(gs, t, sourceHeader) && t.Bin?
    requires Matches(g0) && AvlValid(g0, t0, targetHeader) && g0.nodes !! gs.nodes
    modifies g0.nodes
    ensures Matches(gs) && Matches(g) && fresh(clones) && clones == Nodes(u) && OnlyClones(g, clones, targetHeader)
    ensures AvlValid(g, u, targetHeader) && Copy(gs.balance, g.balance, t, u)
    ensures disposed == InOrder(t0) && forall n <- Nodes(t0) :: Cleared(n)
    ensures forall n <- g0.nodes :: n !in Nodes(t0) && n != targetHeader ==> Unmoved(g0, n)
  {
    hide *;
    AvlParts(gs, t, sourceHeader);
    AvlParts(g0, t0, targetHeader);
    disposed, g, u, clones := CloneTree(sourceHeader, targetHeader, gs, t, g0, t0);
    AvlLastRight(gs.balance, t);
    CopyShape(gs.balance, g.balance, t, u);
    AvlParts(g, u, targetHeader);
  }

  lemma AvlParts(g: Store, t: Tree, header: Node)
    ensures AvlValid(g, t, header) <==> Valid(g, t, header) && Avl(g.balance, t) && g.balance(header) == Zero
  {
    hide Linked, Ends, Avl;
  }

  /** Cloning the smallest crooked tree leaves a header that names the last node but one as the last. */
  method CloneCrooked(sourceHeader: Node, targetHeader: Node, a: Node, b: Node, r: Node, ghost gs: Store,
                      ghost g0: Store)
    returns (ghost g: Store, ghost u: Tree)
    requires Matches(gs) && Valid(gs, Crooked(a, b, r), sourceHeader)
    requires Matches(g0) && Valid(g0, Leaf, targetHeader) && g0.nodes !! gs.nodes
    modifies g0.nodes
    ensures Matches(g) && Linked(g, Top, u, targetHeader) && Copy(gs.balance, g.balance, Crooked(a, b, r), u)
    ensures !Valid(g, u, targetHeader) && |InOrder(u)| == 3 && g.right(targetHeader) == InOrder(u)[1]
  {
    ghost var clones;
    var disposed;
    CrookedDistinct(gs, a, b, r, sourceHeader);
    CrookedLast(a, b, r);
    disposed, g, u, clones := CloneTree(sourceHeader, targetHeader, gs, Crooked(a, b, r), g0, Leaf);
    CrookedCopy(gs.balance, g.balance, a, b, r, u);
  }

  lemma CrookedDistinct(g: Store, a: Node, b: Node, r: Node, header: Node)
    requires Valid(g, Crooked(a, b, r), header)
    ensures a != b && b != r && a != r
  {
    var t := Crooked(a, b, r);
    assert Distinct(t) && Distinct(t.left);
    assert b in Nodes(t.left.right) && a in Nodes(t.left) && b in Nodes(t.left);
  }

  lemma CrookedCopy(bs: Node -> Balance, bt: Node -> Balance, a: Node, b: Node, r: Node, u: Tree)
    requires Copy(bs, bt, Crooked(a, b, r), u)
    ensures u.Bin? && |InOrder(u)| == 3 && InOrder(u)[1] == LastRight(u, u.node)
  {
    var t := Crooked(a, b, r);
    assert Copy(bs, bt, t.left, u.left) && Copy(bs, bt, t.right, u.right);
    assert Copy(bs, bt, t.left.left, u.left.left) && Copy(bs, bt, t.left.right, u.left.right);
    var m := u.left.right;
    assert Copy(bs, bt, t.left.right.left, m.left) && Copy(bs, bt, t.left.right.right, m.right);
    assert InOrder(m) == [m.node];
    assert InOrder(u.left) == [u.left.node, m.node];
    assert LastRight(u.left, u.node) == LastRight(m, m.node) == m.node;
  }

  lemma SameClones(g: Store, clones: set<Node>, u: Tree, header: Node, root: Node)
    requires OnlyClones(g, clones, header) && g.nodes == Nodes(u) + {header} && Drawn(g, Top, u, header, root)
    ensures clones == Nodes(u) && header in g.nodes
  {
    assert header !in Nodes(u);
    forall n ensures n in clones <==> n in Nodes(u) {
      assert n in g.nodes <==> n in clones || n == header;
      assert n in g.nodes <==> n in Nodes(u) || n == header;
    }
  }

  method NameRoot(header: Node, root: Node, leftmost: Node, rightmost: Node, ghost gs: Store, ghost g: Store)
    returns (ghost g': Store)
    requires Matches(gs) && Matches(g) && header in g.nodes && header !in gs.nodes
    modifies header
    ensures Matches(gs) && Matches(g')
    ensures var g1 := Crowned(g, root, header);
      g' == g1.(left := Put(g1.left, header, leftmost), right := Put(g1.right, header, rightmost))
  {
    g' := SetParent(header, root, g);
    g' := SetLeft(header, leftmost, g');
    g' := SetRight(header, rightmost, g');
  }

  lemma CloneEnds(gs: Store, g: Store, t: Tree, u: Tree, header: Node, root: Node, leftmost: Node, rightmost: Node)
    requires u.Bin? && root == u.node && Drawn(g, Top, u, header, root) && Copy(gs.balance, g.balance, t, u)
    requires leftmost == MinNode(u) && rightmost == LastRight(u, root)
    requires rightmost == MaxNode(u) <==> t.Bin? && LeftOnly(MaxLeft(t))
    ensures var g1 := Crowned(g, root, header);
      var g2 := g1.(left := Put(g1.left, header, leftmost), right := Put(g1.right, header, rightmost));
      && Linked(g2, Top, u, header) && (Valid(g2, u, header) <==> t.Bin? && LeftOnly(MaxLeft(t)))
      && g2.nodes == g.nodes && g2.balance == g.balance && g2.left(header) == leftmost && g2.right(header) == rightmost
  {
    hide LastRight, LeftOnly, Copy;
    var g1 := Crowned(g, root, header);
    MinFacts(u);
    MaxFacts(u);
    FrameLinked(g1, g1.(left := Put(g1.left, header, leftmost), right := Put(g1.right, header, rightmost)), Top, u,
                header, {header});
  }
}

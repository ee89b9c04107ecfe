/** Rebalancing on the way up from a node that has just been linked. */
module AvlInsert {
  import opened TreeNodes
  import opened AvlBalance
  import opened Rotations
  import opened AvlTurns

  /** Below `x` all is right; above, everything expects the subtree to be one level lower. */
  ghost predicate Rising(g: Store, c: Ctx, t: Tree, header: Node, x: Node)
  {
    && Tilted(g, c, t, header, Height(t) - 1)
    && t.Bin? && t.node == x
    && (g.balance(x) == Zero ==> Height(t) == 1)
  }

  /** A level parent now leans to `x`, and the insertion goes on from there. */
  lemma Rise(g: Store, c: Ctx, t: Tree, header: Node, x: Node, b: Balance)
    requires !c.Top? && Rising(g, c, t, header, x) && g.balance(c.node) == Zero
    requires b == if c.InLeft? then Negative else Positive
    ensures Rising(g.(balance := Put(g.balance, c.node, b)), c.up, Grown(c, t), header, c.node)
  {
    SetAboveTilted(g, c, t, header, b, Height(t) - 1);
  }

  /** A parent that leaned away from `x` is now level, and the insertion is over. */
  lemma Settle(g: Store, c: Ctx, t: Tree, header: Node, x: Node)
    requires !c.Top? && Rising(g, c, t, header, x) && g.balance(c.node) == if c.InLeft? then Positive else Negative
    ensures Tilted(g.(balance := Put(g.balance, c.node, Zero)), c.up, Grown(c, t), header, Height(Grown(c, t)))
  {
    SetAboveTilted(g, c, t, header, Zero, Height(t) - 1);
  }

  /** A node on the way up from an insertion is never level when its parent must be rotated. */
  lemma NeverLevel(g: Store, c: Ctx, t: Tree, header: Node, x: Node)
    requires !c.Top? && Rising(g, c, t, header, x) && g.balance(c.node) == if c.InLeft? then Negative else Positive
    ensures g.balance(x) != Zero
    ensures Height(t) == Height(Side(c)) + 2 && GrownHeight(c, Height(t) - 1) == Height(t)
  {
  }

  /** Everything an iteration of the loop may rely on. */
  ghost predicate Climbing(g0: Store, g: Store, c: Ctx, t: Tree, header: Node, x: Node, s: seq<Node>, ns: set<Node>)
  {
    Rising(g, c, t, header, x) && Holds(g0, g, c, t, header, s, ns)
  }

  /** Everything is right again, and still the same nodes in the same order. */
  ghost predicate Restored(g0: Store, g: Store, c: Ctx, t: Tree, header: Node, s: seq<Node>, ns: set<Node>)
  {
    Tilted(g, c, t, header, Height(t)) && Holds(g0, g, c, t, header, s, ns)
  }

  lemma RiseOn(g0: Store, g: Store, c: Ctx, t: Tree, header: Node, x: Node, b: Balance, s: seq<Node>, ns: set<Node>)
    requires !c.Top? && Climbing(g0, g, c, t, header, x, s, ns) && g.balance(c.node) == Zero
    requires b == if c.InLeft? then Negative else Positive
    ensures Climbing(g0, g.(balance := Put(g.balance, c.node, b)), c.up, Grown(c, t), header, c.node, s, ns)
  {
    AtParent(g, c, t, header);
    Rise(g, c, t, header, x, b);
    SetLocal(g0, g, c, t, header, b, s, ns);
  }

  lemma SettleThere(g0: Store, g: Store, c: Ctx, t: Tree, header: Node, x: Node, s: seq<Node>, ns: set<Node>)
    requires !c.Top? && Climbing(g0, g, c, t, header, x, s, ns)
    requires g.balance(c.node) == if c.InLeft? then Positive else Negative
    ensures Restored(g0, g.(balance := Put(g.balance, c.node, Zero)), c.up, Grown(c, t), header, s, ns)
  {
    AtParent(g, c, t, header);
    Settle(g, c, t, header, x);
    SetLocal(g0, g, c, t, header, Zero, s, ns);
  }

  /** A right child that is too tall: one of the two left turns, and the node now on top. */
  ghost function TurnedAtRight(g: Store, c: Ctx, t: Tree): Tree
    requires c.InRight? && t.Bin? && (g.balance(t.node) == Negative ==> t.left.Bin?)
  {
    var a, p := c.left, c.node;
    if g.balance(t.node) == Negative
    then Bin(Bin(a, p, t.left.left), t.left.node, Bin(t.left.right, t.node, t.right))
    else Bin(Bin(a, p, t.left), t.node, t.right)
  }

  ghost function RelinkedAtRight(g: Store, c: Ctx, t: Tree, header: Node): Store
    requires c.InRight? && t.Bin? && (g.balance(t.node) == Negative ==> t.left.Bin?)
  {
    if g.balance(t.node) == Negative then AvlRotatedRightLeft(g, c.node, t.node, t.left.node, header)
    else AvlRotatedLeft(g, c.node, t.node, header)
  }

  lemma TurnAtRight(g0: Store, g: Store, c: Ctx, t: Tree, header: Node, x: Node, s: seq<Node>, ns: set<Node>)
    requires c.InRight? && Climbing(g0, g, c, t, header, x, s, ns) && g.balance(c.node) == Positive
    ensures g.balance(x) == Negative ==> t.left.Bin?
    ensures Restored(g0, RelinkedAtRight(g, c, t, header), c.up, TurnedAtRight(g, c, t), header, s, ns)
  {
    NeverLevel(g, c, t, header, x);
    Refocus(g, c, t, header);
    if g.balance(x) == Negative {
      TurnRightLeft(g0, g, c.up, c.left, c.node, t.left.left, t.left.node, t.left.right, x, t.right, header, Height(t),
                    s, ns);
    } else {
      TurnLeft(g0, g, c.up, c.left, c.node, t.left, x, t.right, header, Height(t), s, ns);
    }
  }

  ghost function TurnedAtLeft(g: Store, c: Ctx, t: Tree): Tree
    requires c.InLeft? && t.Bin? && (g.balance(t.node) == Positive ==> t.right.Bin?)
  {
    var p, d := c.node, c.right;
    if g.balance(t.node) == Positive
    then Bin(Bin(t.left, t.node, t.right.left), t.right.node, Bin(t.right.right, p, d))
    else Bin(t.left, t.node, Bin(t.right, p, d))
  }

  ghost function RelinkedAtLeft(g: Store, c: Ctx, t: Tree, header: Node): Store
    requires c.InLeft? && t.Bin? && (g.balance(t.node) == Positive ==> t.right.Bin?)
  {
    if g.balance(t.node) == Positive then AvlRotatedLeftRight(g, c.node, t.node, t.right.node, header)
    else AvlRotatedRight(g, c.node, t.node, header)
  }

  lemma TurnAtLeft(g0: Store, g: Store, c: Ctx, t: Tree, header: Node, x: Node, s: seq<Node>, ns: set<Node>)
    requires c.InLeft? && Climbing(g0, g, c, t, header, x, s, ns) && g.balance(c.node) == Negative
    ensures g.balance(x) == Positive ==> t.right.Bin?
    ensures Restored(g0, RelinkedAtLeft(g, c, t, header), c.up, TurnedAtLeft(g, c, t), header, s, ns)
  {
    NeverLevel(g, c, t, header, x);
    Refocus(g, c, t, header);
    hide Restored, InOrder, Plug, Unhung;
    if g.balance(x) == Positive {
      TurnLeftRight(g0, g, c.up, t.left, x, t.right.left, t.right.node, t.right.right, c.node, c.right, header,
                    Height(t), s, ns);
    } else {
      TurnRight(g0, g, c.up, t.left, x, t.right, c.node, c.right, header, Height(t), s, ns);
    }
  }

  /** What the rotations need to know about the nodes they are going to relink. */
  lemma TurnKnown(g: Store, c: Ctx, t: Tree, header: Node)
    requires !c.Top? && Linked(g, c, t, header) && t.Bin?
    ensures t.node in g.nodes && c.node in g.nodes && header in g.nodes && g.parent(c.node) in g.nodes
    ensures Known(g, g.left(t.node)) && Known(g, g.right(t.node))
    ensures g.left(t.node) == Root(t.left) && g.right(t.node) == Root(t.right)
  {
    LinksKnown(g, c, t, header);
    Refocus(g, c, t, header);
    LinksKnown(g, c.up, Grown(c, t), header);
  }

  lemma RightLeftKnown(g: Store, c: Ctx, t: Tree, header: Node)
    requires c.InRight? && Linked(g, c, t, header) && t.Bin? && t.left.Bin?
    ensures t.left.node in g.nodes && t.left.node != t.node
    ensures Known(g, g.left(t.left.node)) && Known(g, g.right(t.left.node))
    ensures RightRotated(g, t.node, t.left.node).parent(c.node) == g.parent(c.node)
  {
    ChildKnown(g, InLeft(c, t.node, t.right), t.left, header);
    Refocus(g, c, t, header);
    RightLeftFacts(g, c.up, c.left, c.node, t.left.left, t.left.node, t.left.right, t.node, t.right, header);
  }

  lemma LeftRightKnown(g: Store, c: Ctx, t: Tree, header: Node)
    requires c.InLeft? && Linked(g, c, t, header) && t.Bin? && t.right.Bin?
    ensures t.right.node in g.nodes && t.right.node != t.node
    ensures Known(g, g.left(t.right.node)) && Known(g, g.right(t.right.node))
    ensures LeftRotated(g, t.node, t.right.node).parent(c.node) == g.parent(c.node)
  {
    ChildKnown(g, InRight(c, t.left, t.node), t.right, header);
    Refocus(g, c, t, header);
    LeftRightFacts(g, c.up, t.left, t.node, t.right.left, t.right.node, t.right.right, c.node, c.right, header);
  }

  method RebalanceAfterInsertion(header: Node, x0: Node, ghost g0: Store, ghost c0: Ctx)
    returns (ghost g: Store, ghost c: Ctx, ghost t: Tree)
    requires Matches(g0) && Linked(g0, c0, Bin(Leaf, x0, Leaf), header) && CAvl(g0.balance, c0, 0)
    modifies g0.nodes
    ensures Matches(g)
    ensures Restored(g0, g, c, t, header, InOrder(Plug(c0, Bin(Leaf, x0, Leaf))), Nodes(Plug(c0, Bin(Leaf, x0, Leaf))))
  {
    c, t := c0, Bin(Leaf, x0, Leaf);
    ghost var s, ns := InOrder(Plug(c, t)), Nodes(Plug(c, t));
    var x: Node := x0;
    g := SetBalance(x, Zero, g0);
    StartClimb(g0, c0, x0, header);
    var root := header.parent;
    while x != root
      invariant Matches(g) && g.nodes == g0.nodes && root == g.parent(header) && header in g.nodes && x in g.nodes
      invariant Climbing(g0, g, c, t, header, x, s, ns)
      decreases c
    {
      assert !c.Top?;
      AtParent(g, c, t, header);
      TurnKnown(g, c, t, header);
      var xParent := x.parent;
      var xParentLeft := xParent.left;
      var xParentBalance := xParent.balance;
      var xIsLeftChild := x == xParentLeft;
      if xParentBalance == Zero {
        RiseOn(g0, g, c, t, header, x, if c.InLeft? then Negative else Positive, s, ns);
        g := SetBalance(xParent, if xIsLeftChild then Negative else Positive, g);
        x, c, t := xParent, c.up, Grown(c, t);
      } else if xParentBalance == Positive {
        if xIsLeftChild {
          SettleThere(g0, g, c, t, header, x, s, ns);
          g := SetBalance(xParent, Zero, g);
          c, t := c.up, Grown(c, t);
        } else {
          TurnAtRight(g0, g, c, t, header, x, s, ns);
          ghost var t' := TurnedAtRight(g, c, t);
          if x.balance == Negative {
            RightLeftKnown(g, c, t, header);
            var top;
            top, g := AvlRotateRightLeft(xParent, x, header, g);
          } else {
            g := AvlRotateLeft(xParent, x, header, g);
          }
          c, t := c.up, t';
        }
        return;
      } else {
        if xIsLeftChild {
          TurnAtLeft(g0, g, c, t, header, x, s, ns);
          ghost var t' := TurnedAtLeft(g, c, t);
          if x.balance == Positive {
            LeftRightKnown(g, c, t, header);
            var top;
            top, g := AvlRotateLeftRight(xParent, x, header, g);
          } else {
            g := AvlRotateRight(xParent, x, header, g);
          }
          c, t := c.up, t';
        } else {
          SettleThere(g0, g, c, t, header, x, s, ns);
          g := SetBalance(xParent, Zero, g);
          c, t := c.up, Grown(c, t);
        }
        return;
      }
      root := header.parent;
    }
    Reached(g, c, t, header);
  }

  lemma StartClimb(g0: Store, c0: Ctx, x0: Node, header: Node)
    requires Linked(g0, c0, Bin(Leaf, x0, Leaf), header) && CAvl(g0.balance, c0, 0)
    ensures header in g0.nodes && x0 in g0.nodes
    ensures var t := Bin(Leaf, x0, Leaf);
      Climbing(g0, g0.(balance := Put(g0.balance, x0, Zero)), c0, t, header, x0, InOrder(Plug(c0, t)),
               Nodes(Plug(c0, t)))
  {
    LinksKnown(g0, c0, Bin(Leaf, x0, Leaf), header);
    var t := Bin(Leaf, x0, Leaf);
    assert x0 in Nodes(t) && Height(t) == 1;
    FrameCAvl(g0.balance, Put(g0.balance, x0, Zero), c0, 0);
    assert Avl(Put(g0.balance, x0, Zero), t);
  }

  /** The root has been reached exactly when nothing is above the hole. */
  lemma Reached(g: Store, c: Ctx, t: Tree, header: Node)
    requires Linked(g, c, t, header) && g.parent(header) == Root(t)
    ensures c.Top?
  {
    if !c.Top? {
      RootAbove(c, Root(t));
    }
  }
}

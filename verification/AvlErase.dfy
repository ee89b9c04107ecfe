/** Rebalancing on the way up from a place where the tree has become one level lower. */
module AvlErase {
  import opened TreeNodes
  import opened Rotations
  import opened AvlBalance
  import opened AvlTurns
  import opened AvlInsert

  /** Below the hole all is right; above, everything expects the subtree to be one level higher. */
  ghost predicate Sinking(g0: Store, g: Store, c: Ctx, t: Tree, header: Node, s: seq<Node>, ns: set<Node>)
  {
    Tilted(g, c, t, header, Height(t) + 1) && Holds(g0, g, c, t, header, s, ns)
  }

  /** The parent's two links tell on which side the hole is, although the subtree in it may be empty. */
  lemma AtHole(g: Store, c: Ctx, t: Tree, header: Node)
    requires !c.Top? && Linked(g, c, t, header) && CAvl(g.balance, c, Height(t) + 1)
    ensures c.node in g.nodes && c.node != header && g.parent(header) != Root(t)
    ensures g.left(c.node) == (if c.InLeft? then Root(t) else Root(c.left))
    ensures g.right(c.node) == (if c.InRight? then Root(t) else Root(c.right))
    ensures g.balance(c.node) != (if c.InLeft? then Negative else Positive) ==>
      Side(c).Bin? && Side(c).node != Root(t) && Side(c).node in g.nodes
  {
    assert t.Bin? ==> t.node in Nodes(t);
    assert Side(c).Bin? ==> Side(c).node in CNodes(c);
    RootAbove(c, Root(t));
  }

  lemma LeanHeights(B: Node -> Balance, c: Ctx, t: Tree, b: Balance)
    requires !c.Top? && CAvl(B, c, Height(t) + 1) && B(c.node) == Zero && b == if c.InLeft? then Positive else Negative
    ensures if c.InLeft? then Fits(b, Height(t), Height(c.right)) else Fits(b, Height(c.left), Height(t))
    ensures GrownHeight(c, Height(t) + 1) == Height(Grown(c, t))
  {
  }

  lemma SinkHeights(B: Node -> Balance, c: Ctx, t: Tree)
    requires !c.Top? && CAvl(B, c, Height(t) + 1) && B(c.node) == if c.InLeft? then Negative else Positive
    ensures if c.InLeft? then Fits(Zero, Height(t), Height(c.right)) else Fits(Zero, Height(c.left), Height(t))
    ensures GrownHeight(c, Height(t) + 1) == Height(Grown(c, t)) + 1
  {
  }

  /** A level parent leans to the other side now; no height has changed. */
  lemma Lean(g0: Store, g: Store, c: Ctx, t: Tree, header: Node, b: Balance, s: seq<Node>, ns: set<Node>)
    requires !c.Top? && Sinking(g0, g, c, t, header, s, ns) && g.balance(c.node) == Zero
    requires b == if c.InLeft? then Positive else Negative
    ensures Restored(g0, g.(balance := Put(g.balance, c.node, b)), c.up, Grown(c, t), header, s, ns)
  {
    AtHole(g, c, t, header);
    LeanHeights(g.balance, c, t, b);
    SetAboveTilted(g, c, t, header, b, Height(t) + 1);
    SetLocal(g0, g, c, t, header, b, s, ns);
  }

  /** A parent that leaned to the hole is level now, and one level lower. */
  lemma Sink(g0: Store, g: Store, c: Ctx, t: Tree, header: Node, s: seq<Node>, ns: set<Node>)
    requires !c.Top? && Sinking(g0, g, c, t, header, s, ns)
    requires g.balance(c.node) == if c.InLeft? then Negative else Positive
    ensures Sinking(g0, g.(balance := Put(g.balance, c.node, Zero)), c.up, Grown(c, t), header, s, ns)
  {
    AtHole(g, c, t, header);
    SinkHeights(g.balance, c, t);
    SetAboveTilted(g, c, t, header, Zero, Height(t) + 1);
    SetLocal(g0, g, c, t, header, Zero, s, ns);
  }

  ghost predicate Resumed(g0: Store, g: Store, c: Ctx, t: Tree, header: Node, s: seq<Node>, ns: set<Node>, done: bool)
  {
    if done then Restored(g0, g, c, t, header, s, ns) else Sinking(g0, g, c, t, header, s, ns)
  }

  /** The same, seen from the parent of the hole, whose other subtree is two levels higher. */
  ghost predicate Lopsided(g0: Store, g: Store, c: Ctx, l: Tree, p: Node, r: Tree, header: Node, h: int, s: seq<Node>,
                           ns: set<Node>)
  {
    && Linked(g, c, Bin(l, p, r), header) && Holds(g0, g, c, Bin(l, p, r), header, s, ns)
    && Avl(g.balance, l) && Avl(g.balance, r) && CAvl(g.balance, c, h)
  }

  lemma LopsidedHeights(B: Node -> Balance, c: Ctx, t: Tree)
    requires !c.Top? && CAvl(B, c, Height(t) + 1) && B(c.node) == if c.InLeft? then Positive else Negative
    ensures Height(Side(c)) == Height(t) + 2 && Avl(B, Side(c)) && CAvl(B, c.up, Height(t) + 3)
  {
  }

  lemma FromParent(g0: Store, g: Store, c: Ctx, t: Tree, header: Node, s: seq<Node>, ns: set<Node>)
    requires !c.Top? && Sinking(g0, g, c, t, header, s, ns)
    requires g.balance(c.node) == if c.InLeft? then Positive else Negative
    ensures Height(Side(c)) == Height(t) + 2
    ensures c.InLeft? ==> Lopsided(g0, g, c.up, t, c.node, c.right, header, Height(t) + 3, s, ns)
    ensures c.InRight? ==> Lopsided(g0, g, c.up, c.left, c.node, t, header, Height(t) + 3, s, ns)
  {
    LopsidedHeights(g.balance, c, t);
    FromHole(g0, g, c, t, header, Height(t) + 3, s, ns);
  }

  lemma FromHole(g0: Store, g: Store, c: Ctx, t: Tree, header: Node, h: int, s: seq<Node>, ns: set<Node>)
    requires !c.Top? && Linked(g, c, t, header) && Holds(g0, g, c, t, header, s, ns)
    requires Avl(g.balance, t) && Avl(g.balance, Side(c)) && CAvl(g.balance, c.up, h)
    ensures c.InLeft? ==> Lopsided(g0, g, c.up, t, c.node, c.right, header, h, s, ns)
    ensures c.InRight? ==> Lopsided(g0, g, c.up, c.left, c.node, t, header, h, s, ns)
  {
    Refocus(g, c, t, header);
  }

  /** A subtree of two levels or more has a child on the side it leans to. */
  lemma TallChild(B: Node -> Balance, t: Tree)
    requires Avl(B, t) && Height(t) >= 2
    ensures t.Bin? && (B(t.node) == Positive ==> t.right.Bin?) && (B(t.node) == Negative ==> t.left.Bin?)
  {
  }

  /** The left subtree `l` of `p` is too high: what one of the two right turns leaves. */
  ghost function TurnedFromLeft(g: Store, l: Tree, p: Node, r: Tree): Tree
    requires l.Bin? && (g.balance(l.node) == Positive ==> l.right.Bin?)
  {
    if g.balance(l.node) == Positive
    then Bin(Bin(l.left, l.node, l.right.left), l.right.node, Bin(l.right.right, p, r))
    else Bin(l.left, l.node, Bin(l.right, p, r))
  }

  ghost function RelinkedFromLeft(g: Store, l: Tree, p: Node, header: Node): Store
    requires l.Bin? && (g.balance(l.node) == Positive ==> l.right.Bin?)
  {
    if g.balance(l.node) == Positive then AvlRotatedLeftRight(g, p, l.node, l.right.node, header)
    else AvlRotatedRight(g, p, l.node, header)
  }

  /** Nothing is left to do exactly when the subtree is as high as it is expected to be. */
  lemma Resume(g0: Store, g: Store, c: Ctx, t: Tree, header: Node, h: int, s: seq<Node>, ns: set<Node>, done: bool)
    requires Tilted(g, c, t, header, h) && Holds(g0, g, c, t, header, s, ns)
    requires h == Height(t) + if done then 0 else 1
    ensures Resumed(g0, g, c, t, header, s, ns, done)
  {
  }

  lemma TurnFromLeftTwice(g0: Store, g: Store, c: Ctx, l: Tree, p: Node, r: Tree, header: Node, s: seq<Node>,
                          ns: set<Node>)
    requires Lopsided(g0, g, c, l, p, r, header, Height(r) + 3, s, ns) && Height(l) == Height(r) + 2
    requires l.Bin? && g.balance(l.node) == Positive && l.right.Bin?
    ensures var g', t' := RelinkedFromLeft(g, l, p, header), TurnedFromLeft(g, l, p, r);
      g'.balance(t'.node) == Zero && Sinking(g0, g', c, t', header, s, ns)
  {
    var m := l.right;
    var t', h := Bin(Bin(l.left, l.node, m.left), m.node, Bin(m.right, p, r)), Height(r) + 3;
    TurnLeftRight(g0, g, c, l.left, l.node, m.left, m.node, m.right, p, r, header, h, s, ns);
    Resume(g0, AvlRotatedLeftRight(g, p, l.node, m.node, header), c, t', header, h, s, ns, false);
  }

  lemma TurnFromLeftOnce(g0: Store, g: Store, c: Ctx, l: Tree, p: Node, r: Tree, header: Node, s: seq<Node>,
                         ns: set<Node>)
    requires Lopsided(g0, g, c, l, p, r, header, Height(r) + 3, s, ns) && Height(l) == Height(r) + 2
    requires l.Bin? && g.balance(l.node) != Positive
    ensures var g', t' := RelinkedFromLeft(g, l, p, header), TurnedFromLeft(g, l, p, r);
      Resumed(g0, g', c, t', header, s, ns, g'.balance(t'.node) == Positive)
  {
    var g', t', h := AvlRotatedRight(g, p, l.node, header), Bin(l.left, l.node, Bin(l.right, p, r)), Height(r) + 3;
    TurnRight(g0, g, c, l.left, l.node, l.right, p, r, header, h, s, ns);
    Resume(g0, g', c, t', header, h, s, ns, g'.balance(t'.node) == Positive);
  }

  lemma TurnFromLeft(g0: Store, g: Store, c: Ctx, l: Tree, p: Node, r: Tree, header: Node, s: seq<Node>, ns: set<Node>)
    requires Lopsided(g0, g, c, l, p, r, header, Height(r) + 3, s, ns) && Height(l) == Height(r) + 2
    ensures l.Bin? && (g.balance(l.node) == Positive ==> l.right.Bin?)
    ensures var g', t' := RelinkedFromLeft(g, l, p, header), TurnedFromLeft(g, l, p, r);
      t'.Bin? && Resumed(g0, g', c, t', header, s, ns, g'.balance(t'.node) == Positive)
  {
    TallChild(g.balance, l);
    if g.balance(l.node) == Positive {
      TurnFromLeftTwice(g0, g, c, l, p, r, header, s, ns);
    } else {
      TurnFromLeftOnce(g0, g, c, l, p, r, header, s, ns);
    }
  }

  /** The right subtree `r` of `p` is too high. */
  ghost function TurnedFromRight(g: Store, l: Tree, p: Node, r: Tree): Tree
    requires r.Bin? && (g.balance(r.node) == Negative ==> r.left.Bin?)
  {
    if g.balance(r.node) == Negative
    then Bin(Bin(l, p, r.left.left), r.left.node, Bin(r.left.right, r.node, r.right))
    else Bin(Bin(l, p, r.left), r.node, r.right)
  }

  ghost function RelinkedFromRight(g: Store, p: Node, r: Tree, header: Node): Store
    requires r.Bin? && (g.balance(r.node) == Negative ==> r.left.Bin?)
  {
    if g.balance(r.node) == Negative then AvlRotatedRightLeft(g, p, r.node, r.left.node, header)
    else AvlRotatedLeft(g, p, r.node, header)
  }

  lemma TurnFromRightTwice(g0: Store, g: Store, c: Ctx, l: Tree, p: Node, r: Tree, header: Node, s: seq<Node>,
                           ns: set<Node>)
    requires Lopsided(g0, g, c, l, p, r, header, Height(l) + 3, s, ns) && Height(r) == Height(l) + 2
    requires r.Bin? && g.balance(r.node) == Negative && r.left.Bin?
    ensures var g', t' := RelinkedFromRight(g, p, r, header), TurnedFromRight(g, l, p, r);
      g'.balance(t'.node) == Zero && Sinking(g0, g', c, t', header, s, ns)
  {
    var m := r.left;
    var t', h := Bin(Bin(l, p, m.left), m.node, Bin(m.right, r.node, r.right)), Height(l) + 3;
    TurnRightLeft(g0, g, c, l, p, m.left, m.node, m.right, r.node, r.right, header, h, s, ns);
    Resume(g0, AvlRotatedRightLeft(g, p, r.node, m.node, header), c, t', header, h, s, ns, false);
  }

  lemma TurnFromRightOnce(g0: Store, g: Store, c: Ctx, l: Tree, p: Node, r: Tree, header: Node, s: seq<Node>,
                          ns: set<Node>)
    requires Lopsided(g0, g, c, l, p, r, header, Height(l) + 3, s, ns) && Height(r) == Height(l) + 2
    requires r.Bin? && g.balance(r.node) != Negative
    ensures var g', t' := RelinkedFromRight(g, p, r, header), TurnedFromRight(g, l, p, r);
      Resumed(g0, g', c, t', header, s, ns, g'.balance(t'.node) == Negative)
  {
    var g', t', h := AvlRotatedLeft(g, p, r.node, header), Bin(Bin(l, p, r.left), r.node, r.right), Height(l) + 3;
    TurnLeft(g0, g, c, l, p, r.left, r.node, r.right, header, h, s, ns);
    Resume(g0, g', c, t', header, h, s, ns, g'.balance(t'.node) == Negative);
  }

  lemma TurnFromRight(g0: Store, g: Store, c: Ctx, l: Tree, p: Node, r: Tree, header: Node, s: seq<Node>, ns: set<Node>)
    requires Lopsided(g0, g, c, l, p, r, header, Height(l) + 3, s, ns) && Height(r) == Height(l) + 2
    ensures r.Bin? && (g.balance(r.node) == Negative ==> r.left.Bin?)
    ensures var g', t' := RelinkedFromRight(g, p, r, header), TurnedFromRight(g, l, p, r);
      t'.Bin? && Resumed(g0, g', c, t', header, s, ns, g'.balance(t'.node) == Negative)
  {
    TallChild(g.balance, r);
    if g.balance(r.node) == Negative {
      TurnFromRightTwice(g0, g, c, l, p, r, header, s, ns);
    } else {
      TurnFromRightOnce(g0, g, c, l, p, r, header, s, ns);
    }
  }

  /** The sibling on the left is too high: rotate it over its parent, and go on from the new top. */
  method RotateFromLeft(xParent: Node, xParentLeft: Node, header: Node,
                        ghost g: Store, ghost c: Ctx, ghost l: Tree, ghost r: Tree) returns (x: Node, ghost g': Store)
    requires Matches(g) && Linked(g, c, Bin(l, xParent, r), header)
    requires l.Bin? && l.node == xParentLeft && (g.balance(l.node) == Positive ==> l.right.Bin?)
    modifies g.nodes
    ensures Matches(g') && g' == RelinkedFromLeft(g, l, xParent, header)
    ensures x == Root(TurnedFromLeft(g, l, xParent, r))
  {
    ghost var c1 := InLeft(c, xParent, r);
    Refocus(g, c1, l, header);
    TurnKnown(g, c1, l, header);
    if xParentLeft.balance == Positive {
      LeftRightKnown(g, c1, l, header);
      x, g' := AvlRotateLeftRight(xParent, xParentLeft, header, g);
    } else {
      g' := AvlRotateRight(xParent, xParentLeft, header, g);
      x := xParentLeft;
    }
  }

  method RotateFromRight(xParent: Node, xParentRight: Node, header: Node,
                         ghost g: Store, ghost c: Ctx, ghost l: Tree, ghost r: Tree) returns (x: Node, ghost g': Store)
    requires Matches(g) && Linked(g, c, Bin(l, xParent, r), header)
    requires r.Bin? && r.node == xParentRight && (g.balance(r.node) == Negative ==> r.left.Bin?)
    modifies g.nodes
    ensures Matches(g') && g' == RelinkedFromRight(g, xParent, r, header)
    ensures x == Root(TurnedFromRight(g, l, xParent, r))
  {
    ghost var c1 := InRight(c, l, xParent);
    Refocus(g, c1, r, header);
    TurnKnown(g, c1, r, header);
    if xParentRight.balance == Negative {
      RightLeftKnown(g, c1, r, header);
      x, g' := AvlRotateRightLeft(xParent, xParentRight, header, g);
    } else {
      g' := AvlRotateLeft(xParent, xParentRight, header, g);
      x := xParentRight;
    }
  }

  /** One turn of the loop at a parent leaning left; `done` when no height has changed in the end. */
  method LeaningLeft(x: Node?, xParent: Node, header: Node,
                     ghost g0: Store, ghost g: Store, ghost c: Ctx, ghost t: Tree, ghost s: seq<Node>,
                     ghost ns: set<Node>)
    returns (y: Node, done: bool, ghost g': Store, ghost t': Tree)
    requires Matches(g) && !c.Top? && Sinking(g0, g, c, t, header, s, ns) && g.balance(c.node) == Negative
    requires x == Root(t) && xParent == c.node
    modifies g.nodes
    ensures Matches(g') && y == Root(t')
    ensures Resumed(g0, g', c.up, t', header, s, ns, done)
  {
    AtHole(g, c, t, header);
    var xParentLeft := xParent.left;
    if x == xParentLeft {
      Sink(g0, g, c, t, header, s, ns);
      g' := SetBalance(xParent, Zero, g);
      y, done, t' := xParent, false, Grown(c, t);
    } else {
      FromParent(g0, g, c, t, header, s, ns);
      TurnFromLeft(g0, g, c.up, c.left, c.node, t, header, s, ns);
      y, g' := RotateFromLeft(xParent, xParentLeft, header, g, c.up, c.left, t);
      t' := TurnedFromLeft(g, c.left, c.node, t);
      done := y.balance == Positive;
    }
  }

  /** One turn of the loop at a parent leaning right; `done` when no height has changed in the end. */
  method LeaningRight(x: Node?, xParent: Node, header: Node,
                     ghost g0: Store, ghost g: Store, ghost c: Ctx, ghost t: Tree, ghost s: seq<Node>,
                     ghost ns: set<Node>)
    returns (y: Node, done: bool, ghost g': Store, ghost t': Tree)
    requires Matches(g) && !c.Top? && Sinking(g0, g, c, t, header, s, ns) && g.balance(c.node) == Positive
    requires x == Root(t) && xParent == c.node
    modifies g.nodes
    ensures Matches(g') && y == Root(t')
    ensures Resumed(g0, g', c.up, t', header, s, ns, done)
  {
    AtHole(g, c, t, header);
    var xParentRight := xParent.right;
    if x == xParentRight {
      Sink(g0, g, c, t, header, s, ns);
      g' := SetBalance(xParent, Zero, g);
      y, done, t' := xParent, false, Grown(c, t);
    } else {
      FromParent(g0, g, c, t, header, s, ns);
      TurnFromRight(g0, g, c.up, t, c.node, c.right, header, s, ns);
      y, g' := RotateFromRight(xParent, xParentRight, header, g, c.up, t, c.right);
      t' := TurnedFromRight(g, t, c.node, c.right);
      done := y.balance == Negative;
    }
  }

  /** One turn of the loop at a level parent: it leans to the other side now, and no height has changed. */
  method AtLevel(x: Node?, xParent: Node, header: Node,
                 ghost g0: Store, ghost g: Store, ghost c: Ctx, ghost t: Tree, ghost s: seq<Node>, ghost ns: set<Node>)
    returns (ghost g': Store)
    requires Matches(g) && !c.Top? && Sinking(g0, g, c, t, header, s, ns) && g.balance(c.node) == Zero
    requires x == Root(t) && xParent == c.node
    modifies g.nodes
    ensures Matches(g') && Restored(g0, g', c.up, Grown(c, t), header, s, ns)
  {
    AtHole(g, c, t, header);
    Lean(g0, g, c, t, header, if c.InLeft? then Positive else Negative, s, ns);
    g' := SetBalance(xParent, if x == xParent.right then Negative else Positive, g);
  }

  method Climb(x: Node?, xParent: Node, header: Node,
               ghost g0: Store, ghost g: Store, ghost c: Ctx, ghost t: Tree, ghost s: seq<Node>, ghost ns: set<Node>)
    returns (y: Node?, done: bool, ghost g': Store, ghost t': Tree)
    requires Matches(g) && !c.Top? && Sinking(g0, g, c, t, header, s, ns) && x == Root(t) && xParent == c.node
    modifies g.nodes
    ensures Matches(g') && Resumed(g0, g', c.up, t', header, s, ns, done)
    ensures !done ==> y == Root(t') && y != null
  {
    AtHole(g, c, t, header);
    var xParentBalance := xParent.balance;
    if xParentBalance == Zero {
      g' := AtLevel(x, xParent, header, g0, g, c, t, s, ns);
      y, done, t' := x, true, Grown(c, t);
    } else if xParentBalance == Negative {
      y, done, g', t' := LeaningLeft(x, xParent, header, g0, g, c, t, s, ns);
    } else {
      y, done, g', t' := LeaningRight(x, xParent, header, g0, g, c, t, s, ns);
    }
  }

  method RestoreInvariants(header: Node, x0: Node?, xParent0: Node, ghost g0: Store, ghost c0: Ctx, ghost t0: Tree)
    returns (ghost g: Store, ghost c: Ctx, ghost t: Tree)
    requires Matches(g0) && Linked(g0, c0, t0, header) && Avl(g0.balance, t0) && CAvl(g0.balance, c0, Height(t0) + 1)
    requires x0 == Root(t0) && xParent0 == CParent(c0, header)
    modifies g0.nodes
    ensures Matches(g)
    ensures Restored(g0, g, c, t, header, InOrder(Plug(c0, t0)), Nodes(Plug(c0, t0)))
  {
    hide Sinking, Restored, Linked, InOrder, Nodes, Plug, Avl, CAvl, Height;
    g, c, t := g0, c0, t0;
    ghost var s, ns := InOrder(Plug(c, t)), Nodes(Plug(c, t));
    SinkStart(g0, c0, t0, header);
    SinkingLooks(g0, g, c, t, header, s, ns);
    var x, xParent := x0, xParent0;
    var root := header.parent;
    while x != root
      invariant Matches(g) && g.nodes == g0.nodes && root == g.parent(header) && header in g.nodes
      invariant Sinking(g0, g, c, t, header, s, ns) && x == Root(t) && xParent == CParent(c, header)
      decreases c
    {
      SinkingLooks(g0, g, c, t, header, s, ns);
      var done;
      x, done, g, t := Climb(x, xParent, header, g0, g, c, t, s, ns);
      c := c.up;
      if done {
        return;
      }
      ResumedOn(g0, g, c, t, header, s, ns);
      root, xParent := header.parent, x.parent;
    }
    SinkingEnds(g0, g, c, t, header, s, ns);
  }

  lemma SinkStart(g: Store, c: Ctx, t: Tree, header: Node)
    requires Linked(g, c, t, header) && Avl(g.balance, t) && CAvl(g.balance, c, Height(t) + 1)
    ensures Sinking(g, g, c, t, header, InOrder(Plug(c, t)), Nodes(Plug(c, t)))
  {
  }

  lemma SinkingLooks(g0: Store, g: Store, c: Ctx, t: Tree, header: Node, s: seq<Node>, ns: set<Node>)
    requires Sinking(g0, g, c, t, header, s, ns)
    ensures header in g.nodes && g.nodes == g0.nodes && (c.Top? ==> g.parent(header) == Root(t))
  {
  }

  lemma ResumedOn(g0: Store, g: Store, c: Ctx, t: Tree, header: Node, s: seq<Node>, ns: set<Node>)
    requires Sinking(g0, g, c, t, header, s, ns) && t.Bin?
    ensures t.node in g.nodes && g.parent(t.node) == CParent(c, header) && header in g.nodes && g.nodes == g0.nodes
  {
  }

  /** The hole has reached the top. */
  lemma SinkingEnds(g0: Store, g: Store, c: Ctx, t: Tree, header: Node, s: seq<Node>, ns: set<Node>)
    requires Sinking(g0, g, c, t, header, s, ns) && g.parent(header) == Root(t)
    ensures Restored(g0, g, c, t, header, s, ns)
  {
    Reached(g, c, t, header);
  }
}

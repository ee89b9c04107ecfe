/** Taking a node out of a binary search tree, whatever its number of children. */
module BstErase {
  import opened TreeNodes
  import opened Rotations
  import opened TreeWalk

  // ---------------------------------------- a node with at most one child

  /** The node `z`, with one empty subtree, is bypassed: its other subtree `t` takes its place. */
  ghost function Bypassed(g: Store, z: Node, t: Tree, header: Node, top: Node): Store
  {
    var g1 := if t.Bin? then Reparented(g, t.node, top) else g;
    ChildSet(g1, header, Root(t), top, g.left(top) == z)
  }

  lemma BypassedLinked(g: Store, c: Ctx, z: Node, l: Tree, r: Tree, header: Node)
    requires Linked(g, c, Bin(l, z, r), header) && (l.Leaf? || r.Leaf?)
    ensures Linked(Bypassed(g, z, if l.Leaf? then r else l, header, CParent(c, header)), c, if l.Leaf? then r
                   else l, header)
  {
    var t, top := if l.Leaf? then r else l, CParent(c, header);
    var g1 := if t.Bin? then Reparented(g, t.node, top) else g;
    Reparent(g.parent, g1.parent, t, z, top);
    assert t.Bin? ==> t.node in Nodes(t);
    assert Nodes(t) <= Nodes(Bin(l, z, r)) && Apart(c, t, header);
    Replant(g, g1, c, Bin(l, z, r), t, header, Nodes(t));
    if !c.Top? {
      AtParent(g, c, Bin(l, z, r), header);
    }
    Hang(g1, c, t, header, z, g.left(top) == z);
  }

  // -------------------------------------------- a node replaced by another

  /** `y` takes over the links of `z`, except that nothing leads to it from above yet. */
  ghost function Adopted(g: Store, l: Tree, r: Tree, y: Node, top: Node): Store
  {
    var P0 := if l.Bin? then Put(g.parent, l.node, y) else g.parent;
    var P1 := if r.Bin? then Put(P0, r.node, y) else P0;
    g.(left := Put(g.left, y, Root(l)), right := Put(g.right, y, Root(r)), parent := Put(P1, y, top))
  }

  ghost function Replaced(g: Store, z: Node, l: Tree, r: Tree, y: Node, header: Node, top: Node): Store
  {
    ChildSet(Adopted(g, l, r, y, top), header, y, top, g.left(top) == z)
  }

  lemma AdoptedTree(g: Store, z: Node, l: Tree, r: Tree, y: Node, top: Node)
    requires Down(g.left, g.right, l) && Down(g.left, g.right, r) && Up(g.parent, l, z) && Up(g.parent, r, z)
    requires Distinct(l) && Distinct(r) && Nodes(l) !! Nodes(r) && y !in Nodes(l) && y !in Nodes(r)
    ensures Down(Adopted(g, l, r, y, top).left, Adopted(g, l, r, y, top).right, Bin(l, y, r))
    ensures Up(Adopted(g, l, r, y, top).parent, Bin(l, y, r), top)
    ensures SameOutside(g, Adopted(g, l, r, y, top), Nodes(Bin(l, y, r)))
  {
    var g1 := Adopted(g, l, r, y, top);
    assert l.Bin? ==> l.node in Nodes(l);
    assert r.Bin? ==> r.node in Nodes(r);
    FrameDown(g.left, g.right, g1.left, g1.right, l);
    FrameDown(g.left, g.right, g1.left, g1.right, r);
    Reparent(g.parent, g1.parent, l, z, y);
    Reparent(g.parent, g1.parent, r, z, y);
  }

  lemma ReplacedLinked(g: Store, c: Ctx, z: Node, l: Tree, r: Tree, y: Node, header: Node)
    requires Linked(g, c, Bin(l, z, r), header) && y in g.nodes && y != header
    requires y !in CNodes(c) && y !in Nodes(l) && y !in Nodes(r)
    ensures Linked(Replaced(g, z, l, r, y, header, CParent(c, header)), c, Bin(l, y, r), header)
  {
    var top := CParent(c, header);
    var g1 := Adopted(g, l, r, y, top);
    AdoptedTree(g, z, l, r, y, top);
    Replant(g, g1, c, Bin(l, z, r), Bin(l, y, r), header, Nodes(Bin(l, y, r)));
    if !c.Top? {
      AtParent(g, c, Bin(l, z, r), header);
    }
    Hang(g1, c, Bin(l, y, r), header, z, g.left(top) == z);
  }

  // --------------------------------------------- a node with two children

  /** What unlinking does when `y`, the successor of `z`, is not its right child. */
  ghost function FarMoved(g: Store, z: Node, zl: Node, zr: Node, y: Node, x: Node?, xp: Node, header: Node,
                          top: Node): Store
  {
    var P := Put(Put(g.parent, zl, y), zr, y);
    var g1 := g.(parent := Put(if x == null then P else Put(P, x, xp), y, top),
                 left := Put(Put(g.left, y, zl), xp, x),
                 right := Put(g.right, y, zr));
    ChildSet(g1, header, y, top, g.left(top) == z)
  }

  /** What it does when `y` is the right child of `z`. */
  ghost function NearMoved(g: Store, z: Node, zl: Node, y: Node, header: Node, top: Node): Store
  {
    ChildSet(g.(parent := Put(Put(g.parent, zl, y), y, top), left := Put(g.left, y, zl)), header, y, top,
             g.left(top) == z)
  }

  /** `n` is none of the nodes around the one that is erased. */
  ghost predicate Inner(n: Node, z: Node, zl: Node, top: Node, header: Node)
  {
    n != z && n != zl && n != top && n != header
  }

  ghost predicate FarApart(z: Node, zl: Node, zr: Node, y: Node, xt: Tree, xp: Node, top: Node, header: Node)
  {
    && Inner(y, z, zl, top, header) && y != zr && y != xp
    && Inner(xp, z, zl, top, header)
    && Inner(zr, z, zl, top, header)
    && zl != z && zl != top && zl != header && z != top && z != header
    && (xt.Bin? ==> Inner(xt.node, z, zl, top, header) && xt.node != zr && xt.node != xp && xt.node != y)
  }

  /** Moving the successor is taking it out, then letting it replace `z`. */
  lemma FarMovedIsReplaced(g: Store, z: Node, l: Tree, r': Tree, y: Node, xt: Tree, xp: Node, header: Node, top: Node)
    requires l.Bin? && r'.Bin? && FarApart(z, l.node, r'.node, y, xt, xp, top, header) && g.left(xp) == y
    ensures SameOutside(Replaced(Bypassed(g, y, xt, header, xp), z, l, r', y, header, top),
                        FarMoved(g, z, l.node, r'.node, y, Root(xt), xp, header, top), {})
  {
  }

  lemma NearMovedIsReplaced(g: Store, z: Node, l: Tree, y: Node, xt: Tree, header: Node, top: Node)
    requires l.Bin? && Inner(y, z, l.node, top, header) && l.node != z && l.node != top && l.node != header
    requires z != top && z != header && (xt.Bin? ==> Inner(xt.node, z, l.node, top, header) && xt.node != y)
    requires g.left(z) == l.node && g.right(y) == Root(xt) && (xt.Bin? ==> g.parent(xt.node) == y)
    ensures SameOutside(Replaced(Bypassed(g, y, xt, header, z), z, l, xt, y, header, top),
                           NearMoved(g, z, l.node, y, header, top), {z})
  {
  }

  lemma LeftwardParent(c: Ctx, t: Tree, header: Node)
    requires t.Bin?
    ensures t.left.Leaf? ==> CParent(Leftward(c, t), header) == CParent(c, header)
    ensures t.left.Bin? ==> Leftward(c, t).InLeft? && CParent(Leftward(c, t), header) in Nodes(t)
    decreases t
  {
    if t.left.Bin? && t.left.left.Bin? {
      LeftwardParent(InLeft(c, t.node, t.right), t.left, header);
    }
  }

  /** Taking out the successor of `z` in its right subtree `r`. */
  lemma SuccessorOut(g: Store, c: Ctx, l: Tree, z: Node, r: Tree, header: Node)
    requires Linked(g, c, Bin(l, z, r), header) && r.Bin?
    ensures var cy := Leftward(InRight(c, l, z), r);
      Linked(Bypassed(g, MinNode(r), MinRight(r), header, CParent(cy, header)), c, Bin(l, z, RemoveMin(r)), header)
  {
    var c1 := InRight(c, l, z);
    Refocus(g, c1, r, header);
    LeftwardLinked(g, c1, r, header);
    var cy := Leftward(c1, r);
    var g2 := Bypassed(g, MinNode(r), MinRight(r), header, CParent(cy, header));
    BypassedLinked(g, cy, MinNode(r), Leaf, MinRight(r), header);
    RemoveMinLinked(g2, c1, r, header);
    Refocus(g2, c1, RemoveMin(r), header);
  }

  lemma SuccessorApart(c: Ctx, l: Tree, z: Node, r: Tree, header: Node)
    requires Apart(c, Bin(l, z, r), header) && r.Bin?
    ensures MinNode(r) !in CNodes(c) && MinNode(r) !in Nodes(l) && MinNode(r) !in Nodes(RemoveMin(r))
    ensures MinNode(r) != z && MinNode(r) != header
  {
    MinFacts(r);
    MinDistinct(r);
  }

  lemma SuccessorReplaces(g: Store, c: Ctx, l: Tree, z: Node, r: Tree, header: Node)
    requires Linked(g, c, Bin(l, z, r), header) && r.Bin?
    ensures var y, top, yp := MinNode(r), CParent(c, header), CParent(Leftward(InRight(c, l, z), r), header);
      Linked(Replaced(Bypassed(g, y, MinRight(r), header, yp), z, l, RemoveMin(r), y, header, top), c,
             Bin(l, y, RemoveMin(r)), header)
  {
    var y, yp := MinNode(r), CParent(Leftward(InRight(c, l, z), r), header);
    SuccessorOut(g, c, l, z, r, header);
    SuccessorApart(c, l, z, r, header);
    MinFacts(r);
    ReplacedLinked(Bypassed(g, y, MinRight(r), header, yp), c, z, l, RemoveMin(r), y, header);
  }

  lemma LeftwardNodes(c: Ctx, t: Tree)
    requires t.Bin?
    ensures CNodes(c) <= CNodes(Leftward(c, t))
    ensures t.left.Bin? ==> t.node in CNodes(Leftward(c, t))
    decreases t
  {
    if t.left.Bin? {
      LeftwardNodes(InLeft(c, t.node, t.right), t.left);
    }
  }

  /** The successor and what hangs from it are apart from everything around them. */
  lemma SuccessorElsewhere(c: Ctx, l: Tree, z: Node, r: Tree, header: Node)
    requires r.Bin? && l.Bin?
    requires Apart(Leftward(InRight(c, l, z), r), Bin(Leaf, MinNode(r), MinRight(r)), header)
    ensures Inner(MinNode(r), z, l.node, CParent(c, header), header)
    ensures r.left.Bin? ==> MinNode(r) != r.node
    ensures MinRight(r).Bin? ==>
        Inner(MinRight(r).node, z, l.node, CParent(c, header), header) && MinRight(r).node != MinNode(r)
    ensures r.left.Bin? && MinRight(r).Bin? ==> MinRight(r).node != r.node
  {
    var cy, xt := Leftward(InRight(c, l, z), r), MinRight(r);
    LeftwardNodes(InRight(c, l, z), r);
    assert l.node in Nodes(l) && l.node in CNodes(cy) && z in CNodes(cy);
    assert !c.Top? ==> c.node in CNodes(c) && c.node in CNodes(cy);
    assert xt.Bin? ==> xt.node in Nodes(xt);
  }

  lemma Corners(c: Ctx, l: Tree, z: Node, r: Tree, xp: Node, header: Node)
    requires Apart(c, Bin(l, z, r), header) && l.Bin? && r.Bin? && xp in Nodes(r)
    ensures Inner(xp, z, l.node, CParent(c, header), header) && Inner(r.node, z, l.node, CParent(c, header), header)
    ensures l.node != z && l.node != CParent(c, header) && l.node != header && z != CParent(c, header) && z != header
  {
    assert l.node in Nodes(l) && r.node in Nodes(r);
    assert !c.Top? ==> c.node in CNodes(c);
  }

  lemma HoleParent(g: Store, c: Ctx, t: Tree, header: Node)
    requires Linked(g, c, t, header) && !c.Top?
    ensures c.InLeft? ==> g.left(c.node) == Root(t)
    ensures t.Bin? ==> c.node !in Nodes(t) && g.parent(t.node) == c.node
  {
    assert c.node in CNodes(c);
  }

  lemma FarFacts(g: Store, c: Ctx, l: Tree, z: Node, r: Tree, header: Node)
    requires Linked(g, c, Bin(l, z, r), header) && l.Bin? && r.Bin? && r.left.Bin?
    ensures var y, xt, xp := MinNode(r), MinRight(r), CParent(Leftward(InRight(c, l, z), r), header);
      g.left(xp) == y && xp in Nodes(r) && xp != y && (xt.Bin? ==> xt.node != xp)
      && Apart(Leftward(InRight(c, l, z), r), Bin(Leaf, y, xt), header)
  {
    var y, xt, c1 := MinNode(r), MinRight(r), InRight(c, l, z);
    Refocus(g, c1, r, header);
    LeftwardLinked(g, c1, r, header);
    LeftwardParent(c1, r, header);
    HoleParent(g, Leftward(c1, r), Bin(Leaf, y, xt), header);
    assert xt.Bin? ==> xt.node in Nodes(xt);
  }

  lemma FarCorners(c: Ctx, l: Tree, z: Node, r: Tree, y: Node, xt: Tree, xp: Node, header: Node)
    requires l.Bin? && r.Bin? && r.left.Bin? && y == MinNode(r) && xt == MinRight(r)
    requires Apart(c, Bin(l, z, r), header) && Apart(Leftward(InRight(c, l, z), r), Bin(Leaf, y, xt), header)
    requires xp in Nodes(r) && xp != y && (xt.Bin? ==> xt.node != xp)
    ensures FarApart(z, l.node, r.node, y, xt, xp, CParent(c, header), header)
  {
    SuccessorElsewhere(c, l, z, r, header);
    Corners(c, l, z, r, xp, header);
  }

  lemma FarMovedSame(g: Store, c: Ctx, l: Tree, z: Node, r: Tree, header: Node)
    requires Linked(g, c, Bin(l, z, r), header) && l.Bin? && r.Bin? && r.left.Bin?
    ensures var y, xp, top := MinNode(r), CParent(Leftward(InRight(c, l, z), r), header), CParent(c, header);
      SameOutside(Replaced(Bypassed(g, y, MinRight(r), header, xp), z, l, RemoveMin(r), y, header, top),
                  FarMoved(g, z, l.node, r.node, y, Root(MinRight(r)), xp, header, top), {})
  {
    var y, xt, xp := MinNode(r), MinRight(r), CParent(Leftward(InRight(c, l, z), r), header);
    FarFacts(g, c, l, z, r, header);
    FarCorners(c, l, z, r, y, xt, xp, header);
    FarMovedIsReplaced(g, z, l, RemoveMin(r), y, xt, xp, header, CParent(c, header));
  }

  lemma FarMovedNodes(g: Store, z: Node, zl: Node, zr: Node, y: Node, x: Node?, xp: Node, header: Node, top: Node,
                      l: Tree, xt: Tree, r': Tree)
    ensures FarMoved(g, z, zl, zr, y, x, xp, header, top).nodes == g.nodes
    ensures Replaced(Bypassed(g, y, xt, header, xp), z, l, r', y, header, top).nodes == g.nodes
  {
  }

  lemma FarMovedLinked(g: Store, c: Ctx, l: Tree, z: Node, r: Tree, header: Node)
    requires Linked(g, c, Bin(l, z, r), header) && l.Bin? && r.Bin? && r.left.Bin?
    ensures var y, xp := MinNode(r), CParent(Leftward(InRight(c, l, z), r), header);
      Linked(FarMoved(g, z, l.node, r.node, y, Root(MinRight(r)), xp, header, CParent(c, header)), c,
             Bin(l, y, RemoveMin(r)), header)
  {
    var y, xt, top := MinNode(r), MinRight(r), CParent(c, header);
    var xp := CParent(Leftward(InRight(c, l, z), r), header);
    hide *;
    FarMovedSame(g, c, l, z, r, header);
    SuccessorReplaces(g, c, l, z, r, header);
    FarMovedNodes(g, z, l.node, r.node, y, Root(xt), xp, header, top, l, xt, RemoveMin(r));
    FrameLinkedAll(Replaced(Bypassed(g, y, xt, header, xp), z, l, RemoveMin(r), y, header, top),
                   FarMoved(g, z, l.node, r.node, y, Root(xt), xp, header, top), c, Bin(l, y, RemoveMin(r)), header);
  }

  lemma NearMovedSame(g: Store, c: Ctx, l: Tree, z: Node, r: Tree, header: Node)
    requires Linked(g, c, Bin(l, z, r), header) && l.Bin? && r.Bin? && r.left.Leaf?
    ensures SameOutside(Replaced(Bypassed(g, r.node, r.right, header, z), z, l, r.right, r.node, header,
                                 CParent(c, header)),
                           NearMoved(g, z, l.node, r.node, header, CParent(c, header)), {z})
    ensures z != header && z !in CNodes(c) && z !in Nodes(Bin(l, r.node, r.right))
  {
    Refocus(g, InRight(c, l, z), r, header);
    SuccessorElsewhere(c, l, z, r, header);
    Corners(c, l, z, r, r.node, header);
    assert Up(g.parent, r, z) && Up(g.parent, r.right, r.node) && Down(g.left, g.right, r);
    NearMovedIsReplaced(g, z, l, r.node, r.right, header, CParent(c, header));
  }

  lemma NearMovedLinked(g: Store, c: Ctx, l: Tree, z: Node, r: Tree, header: Node)
    requires Linked(g, c, Bin(l, z, r), header) && l.Bin? && r.Bin? && r.left.Leaf?
    ensures Linked(NearMoved(g, z, l.node, r.node, header, CParent(c, header)), c, Bin(l, r.node, r.right), header)
  {
    var top := CParent(c, header);
    NearMovedSame(g, c, l, z, r, header);
    SuccessorReplaces(g, c, l, z, r, header);
    FrameLinkedBut(Replaced(Bypassed(g, r.node, r.right, header, z), z, l, r.right, r.node, header, top),
                   NearMoved(g, z, l.node, r.node, header, top), c, Bin(l, r.node, r.right), header, z);
  }

  // -------------------------------------------------------- the algorithm

  /** Links differ only among `ns` and in the header. */
  ghost predicate LinksWithin(g: Store, g': Store, ns: set<Node>, header: Node)
  {
    && g'.nodes == g.nodes && g'.balance == g.balance
    && forall n <- g.nodes :: n !in ns && n != header ==>
         g'.left(n) == g.left(n) && g'.right(n) == g.right(n) && g'.parent(n) == g.parent(n)
  }

  ghost predicate InTree(n: Node?, ns: set<Node>)
  {
    n == null || n in ns
  }

  lemma FarMovedWithin(g: Store, z: Node, zl: Node, zr: Node, y: Node, x: Node?, xp: Node, header: Node, top: Node,
                       ns: set<Node>)
    requires zl in ns && zr in ns && y in ns && InTree(x, ns) && xp in ns && header !in ns
        && (top == header || top in ns)
    ensures LinksWithin(g, FarMoved(g, z, zl, zr, y, x, xp, header, top), ns, header)
    ensures FarMoved(g, z, zl, zr, y, x, xp, header, top).left(header) == g.left(header)
    ensures FarMoved(g, z, zl, zr, y, x, xp, header, top).right(header) == g.right(header)
  {
  }

  lemma NearMovedWithin(g: Store, z: Node, zl: Node, y: Node, header: Node, top: Node, ns: set<Node>)
    requires zl in ns && y in ns && header !in ns && (top == header || top in ns)
    ensures LinksWithin(g, NearMoved(g, z, zl, y, header, top), ns, header)
    ensures NearMoved(g, z, zl, y, header, top).left(header) == g.left(header)
    ensures NearMoved(g, z, zl, y, header, top).right(header) == g.right(header)
  {
  }

  lemma BypassedWithin(g: Store, z: Node, t: Tree, header: Node, top: Node, ns: set<Node>)
    requires InTree(Root(t), ns) && header !in ns && (top == header || top in ns)
    ensures LinksWithin(g, Bypassed(g, z, t, header, top), ns, header)
    ensures Bypassed(g, z, t, header, top).left(header) == g.left(header)
    ensures Bypassed(g, z, t, header, top).right(header) == g.right(header)
  {
  }

  /** What is left in the place of `z`, as a context and the subtree the rebalancing starts from. */
  ghost function ErasedCtx(c: Ctx, l: Tree, r: Tree): Ctx
  {
    if l.Leaf? || r.Leaf? then c else Leftward(InRight(c, l, MinNode(r)), r)
  }

  ghost function ErasedTree(l: Tree, r: Tree): Tree
  {
    if l.Leaf? then r else if r.Leaf? then l else MinRight(r)
  }

  lemma LeftwardParentSame(c1: Ctx, c2: Ctx, t: Tree, header: Node)
    requires t.Bin? && t.left.Bin?
    ensures CParent(Leftward(c1, t), header) == CParent(Leftward(c2, t), header)
    decreases t
  {
    if t.left.left.Bin? {
      LeftwardParentSame(InLeft(c1, t.node, t.right), InLeft(c2, t.node, t.right), t.left, header);
    }
  }

  /** The right subtree of `z` moves under `y`, and `x` takes the old place of `y`. */
  method LinkFar(zRight: Node, y: Node, x: Node?, ghost g: Store) returns (xParent: Node, ghost g': Store)
    requires Matches(g) && zRight in g.nodes && y in g.nodes && Known(g, x) && y != zRight && g.parent(y) in g.nodes
    modifies g.nodes
    ensures Matches(g') && xParent == g.parent(y)
    ensures var P := Put(g.parent, zRight, y);
      g' == g.(right := Put(g.right, y, zRight), parent := if x == null then P else Put(P, x, xParent),
               left := Put(g.left, xParent, x))
  {
    g' := SetRight(y, zRight, g);
    g' := SetParent(zRight, y, g');
    xParent := y.parent;
    if x != null {
      g' := SetParent(x, xParent, g');
    }
    g' := SetLeft(xParent, x, g');
  }

  method RelinkSuccessor(header: Node, z: Node, zLeft: Node, zRight: Node, y: Node, x: Node?, zParent: Node,
                         zIsLeftChild: bool,
                         ghost g: Store, ghost c: Ctx, ghost l: Tree, ghost r: Tree)
    returns (xParent: Node, ghost g': Store)
    requires Matches(g) && Linked(g, c, Bin(l, z, r), header) && l.Bin? && r.Bin?
    requires zLeft == l.node && zRight == r.node && y == MinNode(r) && x == Root(MinRight(r))
    requires zParent == CParent(c, header) && zIsLeftChild == (g.left(zParent) == z)
    modifies g.nodes
    ensures Matches(g')
    ensures g' == ErasedStore(g, c, l, z, r, header) && xParent == CParent(ErasedCtx(c, l, r), header)
  {
    SuccessorKnown(g, c, l, z, r, header);
    g' := SetParent(zLeft, y, g);
    g' := SetLeft(y, zLeft, g');
    if y != zRight {
      LeftwardParentSame(InRight(c, l, z), InRight(c, l, y), r, header);
      xParent, g' := LinkFar(zRight, y, x, g');
    } else {
      xParent := y;
    }
    g' := SetParent(y, zParent, g');
    g' := SetChild(header, y, zParent, zIsLeftChild, g');
  }

  lemma SuccessorKnown(g: Store, c: Ctx, l: Tree, z: Node, r: Tree, header: Node)
    requires Linked(g, c, Bin(l, z, r), header) && l.Bin? && r.Bin?
    ensures l.node in g.nodes && r.node in g.nodes && MinNode(r) in g.nodes && header in g.nodes
        && CParent(c, header) in g.nodes
    ensures Known(g, Root(MinRight(r)))
    ensures l.node != MinNode(r) && z != MinNode(r) && g.right(MinNode(r)) == Root(MinRight(r))
    ensures r.left.Leaf? <==> MinNode(r) == r.node
    ensures r.left.Bin? ==> g.parent(MinNode(r)) == CParent(Leftward(InRight(c, l, z), r), header)
    ensures r.left.Bin? ==> CParent(Leftward(InRight(c, l, z), r), header) in Nodes(r)
    ensures Nodes(r) <= g.nodes
  {
    var c1 := InRight(c, l, z);
    Refocus(g, c1, r, header);
    LeftwardLinked(g, c1, r, header);
    LeftwardParent(c1, r, header);
    SuccessorElsewhere(c, l, z, r, header);
    MinFacts(r);
    MinDistinct(r);
    assert l.node in Nodes(l) && r.node in Nodes(r);
    assert !c.Top? ==> c.node in CNodes(c);
  }

  lemma LeftwardPlug(c: Ctx, t: Tree)
    requires t.Bin?
    ensures Plug(Leftward(c, t), MinRight(t)) == Plug(c, RemoveMin(t))
    decreases t
  {
    if t.left.Bin? {
      LeftwardPlug(InLeft(c, t.node, t.right), t.left);
    }
  }

  /** The order of what is left is the old order without `z`. */
  ghost function OrderWithout(c: Ctx, l: Tree, r: Tree): seq<Node>
  {
    Before(c) + InOrder(l) + InOrder(r) + After(c)
  }

  lemma ErasedOrder(c: Ctx, l: Tree, r: Tree)
    ensures InOrder(Plug(ErasedCtx(c, l, r), ErasedTree(l, r))) == OrderWithout(c, l, r)
  {
    if l.Leaf? {
      PlugOrder(c, r);
      assert Before(c) + InOrder(l) == Before(c);
    } else if r.Leaf? {
      PlugOrder(c, l);
      assert Before(c) + InOrder(l) + InOrder(r) == Before(c) + InOrder(l);
    } else {
      var y, r' := MinNode(r), RemoveMin(r);
      LeftwardPlug(InRight(c, l, y), r);
      PlugOrder(c, Bin(l, y, r'));
      MinFacts(r);
      assert Before(c) + (InOrder(l) + [y] + InOrder(r')) + After(c)
          == Before(c) + InOrder(l) + ([y] + InOrder(r')) + After(c);
    }
  }

  lemma BeforeNodes(c: Ctx, n: Node)
    ensures n in Before(c) || n in After(c) ==> n in CNodes(c)
  {
    if !c.Top? {
      BeforeNodes(c.up, n);
      OrderedNodes(Side(c));
    }
  }

  lemma FirstWithout(b: seq<Node>, z: Node, a: seq<Node>)
    requires z !in b
    ensures (b + [z] + a)[0] == z <==> b == []
    ensures b != [] ==> (b + [z] + a)[0] == (b + a)[0]
    ensures b == [] ==> b + a == a
  {
    assert b != [] ==> (b + [z] + a)[0] == b[0];
  }

  lemma LastWithout(b: seq<Node>, z: Node, a: seq<Node>)
    requires z !in a
    ensures var s := b + [z] + a; s[|s| - 1] == z <==> a == []
    ensures a != [] ==> var s, s' := b + [z] + a, b + a; s[|s| - 1] == s'[|s'| - 1]
    ensures a == [] ==> b + a == b
  {
    var s := b + [z] + a;
    assert a != [] ==> s[|s| - 1] == a[|a| - 1];
  }

  lemma NothingBefore(c: Ctx, header: Node)
    requires Before(c) == []
    ensures if After(c) == [] then CParent(c, header) == header else After(c)[0] == CParent(c, header)
  {
    assert !c.InRight?;
  }

  lemma NothingAfter(c: Ctx, header: Node)
    requires After(c) == []
    ensures if Before(c) == [] then CParent(c, header) == header else Before(c)[|Before(c)| - 1] == CParent(c, header)
  {
    assert !c.InLeft?;
  }

  lemma Regroup<T>(a: seq<T>, b: seq<T>, c: seq<T>, d: seq<T>, e: seq<T>)
    ensures a + (b + c + d) + e == a + b + c + (d + e)
    ensures a + b + d + e == a + b + (d + e)
  {
  }

  lemma NotAround(c: Ctx, l: Tree, z: Node, r: Tree, header: Node)
    requires Apart(c, Bin(l, z, r), header)
    ensures z !in Before(c) + InOrder(l) && z !in InOrder(r) + After(c)
  {
    BeforeNodes(c, z);
    OrderedNodes(l);
    OrderedNodes(r);
  }

  lemma OrderAround(c: Ctx, l: Tree, z: Node, r: Tree, header: Node)
    requires Apart(c, Bin(l, z, r), header)
    ensures var b, a := Before(c) + InOrder(l), InOrder(r) + After(c);
      InOrder(Plug(c, Bin(l, z, r))) == b + [z] + a && OrderWithout(c, l, r) == b + a && z !in b && z !in a
  {
    PlugOrder(c, Bin(l, z, r));
    NotAround(c, l, z, r, header);
    Regroup(Before(c), InOrder(l), [z], InOrder(r), After(c));
  }

  /** Who is leftmost, once `z` is gone. */
  ghost function NewFirst(c: Ctx, z: Node, r: Tree, header: Node, first: Node): Node
  {
    if first != z then first else if r.Bin? then MinNode(r) else CParent(c, header)
  }

  ghost function NewLast(c: Ctx, z: Node, l: Tree, header: Node, last: Node): Node
  {
    if last != z then last else if l.Bin? then MaxNode(l) else CParent(c, header)
  }

  lemma NewFirstRight(c: Ctx, l: Tree, z: Node, r: Tree, header: Node)
    requires Apart(c, Bin(l, z, r), header)
    ensures var s, s' := InOrder(Plug(c, Bin(l, z, r))), OrderWithout(c, l, r);
      s != [] && NewFirst(c, z, r, header, s[0]) == if s' == [] then header else s'[0]
  {
    var b, a := Before(c) + InOrder(l), InOrder(r) + After(c);
    OrderAround(c, l, z, r, header);
    FirstWithout(b, z, a);
    if b == [] {
      NothingBefore(c, header);
      if r.Bin? {
        MinFacts(r);
      }
    }
  }

  lemma NewLastRight(c: Ctx, l: Tree, z: Node, r: Tree, header: Node)
    requires Apart(c, Bin(l, z, r), header)
    ensures var s, s' := InOrder(Plug(c, Bin(l, z, r))), OrderWithout(c, l, r);
      s != [] && NewLast(c, z, l, header, s[|s| - 1]) == if s' == [] then header else s'[|s'| - 1]
  {
    var b, a := Before(c) + InOrder(l), InOrder(r) + After(c);
    OrderAround(c, l, z, r, header);
    LastWithout(b, z, a);
    if a == [] {
      NothingAfter(c, header);
      if l.Bin? {
        MaxFacts(l);
      }
    }
  }

  lemma OnlyChildKnown(g: Store, c: Ctx, l: Tree, z: Node, r: Tree, header: Node)
    requires Linked(g, c, Bin(l, z, r), header)
    ensures z in g.nodes && header in g.nodes && CParent(c, header) in g.nodes && g.parent(z) == CParent(c, header)
    ensures g.left(z) == Root(l) && g.right(z) == Root(r) && Known(g, Root(l)) && Known(g, Root(r))
    ensures Down(g.left, g.right, l) && Down(g.left, g.right, r) && Nodes(l) <= g.nodes && Nodes(r) <= g.nodes
    ensures header !in Nodes(l) && header !in Nodes(r)
  {
    assert l.Bin? ==> l.node in Nodes(l);
    assert r.Bin? ==> r.node in Nodes(r);
    assert !c.Top? ==> c.node in CNodes(c);
  }

  method LinkOnlyChild(header: Node, z: Node, x: Node?, zParent: Node, zIsLeftChild: bool, ghost g: Store,
                       ghost t: Tree)
    returns (ghost g': Store)
    requires Matches(g) && x == Root(t) && Known(g, x) && zParent in g.nodes && header in g.nodes
    requires zIsLeftChild == (g.left(zParent) == z)
    modifies g.nodes
    ensures Matches(g') && g' == Bypassed(g, z, t, header, zParent)
  {
    g' := g;
    if x != null {
      g' := SetParent(x, zParent, g');
    }
    g' := SetChild(header, x, zParent, zIsLeftChild, g');
  }

  ghost function FirstSet(g: Store, header: Node, z: Node, first: Node): Store
  {
    if g.left(header) == z then g.(left := Put(g.left, header, first)) else g
  }

  ghost function LastSet(g: Store, header: Node, z: Node, last: Node): Store
  {
    if g.right(header) == z then g.(right := Put(g.right, header, last)) else g
  }

  method UpdateLeftmost(header: Node, z: Node, zRight: Node?, zParent: Node, ghost g: Store, ghost c: Ctx,
                        ghost r: Tree)
    returns (ghost g': Store)
    requires Matches(g) && header in g.nodes && zRight == Root(r) && zParent == CParent(c, header)
    requires Nodes(r) <= g.nodes && Down(g.left, g.right, r)
    modifies g.nodes
    ensures Matches(g') && g' == FirstSet(g, header, z, NewFirst(c, z, r, header, z))
  {
    g' := g;
    if header.left == z {
      var first := zParent;
      if zRight != null {
        first := Minimum(zRight, g, r);
      }
      g' := SetLeft(header, first, g);
    }
  }

  method UpdateRightmost(header: Node, z: Node, zLeft: Node?, zParent: Node, ghost g: Store, ghost c: Ctx,
                         ghost l: Tree)
    returns (ghost g': Store)
    requires Matches(g) && header in g.nodes && zLeft == Root(l) && zParent == CParent(c, header)
    requires Nodes(l) <= g.nodes && Down(g.left, g.right, l)
    modifies g.nodes
    ensures Matches(g') && g' == LastSet(g, header, z, NewLast(c, z, l, header, z))
  {
    g' := g;
    if header.right == z {
      var last := zParent;
      if zLeft != null {
        last := Maximum(zLeft, g, l);
      }
      g' := SetRight(header, last, g);
    }
  }

  ghost function ErasedStore(g: Store, c: Ctx, l: Tree, z: Node, r: Tree, header: Node): Store
  {
    var top := CParent(c, header);
    if l.Bin? && r.Bin? then
      if r.left.Bin? then
        FarMoved(g, z, l.node, r.node, MinNode(r), Root(MinRight(r)), CParent(Leftward(InRight(c, l, z), r), header),
                 header, top)
      else NearMoved(g, z, l.node, r.node, header, top)
    else
      var g1 := Bypassed(g, z, ErasedTree(l, r), header, top);
      LastSet(FirstSet(g1, header, z, NewFirst(c, z, r, header, z)), header, z, NewLast(c, z, l, header, z))
  }

  /** The subtrees of a node with at most one child keep their downward links. */
  lemma LightDown(g: Store, c: Ctx, l: Tree, z: Node, r: Tree, header: Node, first: Node)
    requires Linked(g, c, Bin(l, z, r), header) && (l.Leaf? || r.Leaf?)
    ensures var g1 := Bypassed(g, z, ErasedTree(l, r), header, CParent(c, header));
      Down(g1.left, g1.right, r) && Down(FirstSet(g1, header, z, first).left, g1.right, l)
  {
    var t := ErasedTree(l, r);
    var g1 := Bypassed(g, z, t, header, CParent(c, header));
    BypassedLinked(g, c, z, l, r, header);
    FrameDown(g1.left, g1.right, FirstSet(g1, header, z, first).left, g1.right, t);
  }

  /** The node that will take the place of `z`, and the subtree that will take the place of that. */
  method FindSuccessor(z: Node, zLeft: Node?, zRight: Node?, header: Node, ghost g: Store, ghost c: Ctx, ghost l: Tree,
                       ghost r: Tree)
    returns (y: Node, x: Node?)
    requires Matches(g) && Linked(g, c, Bin(l, z, r), header) && zLeft == Root(l) && zRight == Root(r)
    ensures x == Root(ErasedTree(l, r))
    ensures if l.Bin? && r.Bin? then y == MinNode(r) && y != z else y == z
  {
    y := z;
    if zLeft == null {
      x := zRight;
    } else if zRight == null {
      x := zLeft;
    } else {
      OnlyChildKnown(g, c, l, z, r, header);
      SuccessorKnown(g, c, l, z, r, header);
      y := Minimum(zRight, g, r);
      x := y.right;
    }
  }

  /** `z` has at most one child. */
  method EraseLight(header: Node, z: Node, zLeft: Node?, zRight: Node?, x: Node?, zParent: Node, zIsLeftChild: bool,
                    ghost g: Store, ghost c: Ctx, ghost l: Tree, ghost r: Tree)
    returns (ghost g': Store)
    requires Matches(g) && Linked(g, c, Bin(l, z, r), header) && (l.Leaf? || r.Leaf?)
    requires zLeft == Root(l) && zRight == Root(r) && x == Root(ErasedTree(l, r))
    requires zParent == CParent(c, header) && zIsLeftChild == (g.left(zParent) == z)
    modifies g.nodes
    ensures Matches(g') && g' == ErasedStore(g, c, l, z, r, header)
  {
    OnlyChildKnown(g, c, l, z, r, header);
    LightDown(g, c, l, z, r, header, NewFirst(c, z, r, header, z));
    g' := LinkOnlyChild(header, z, x, zParent, zIsLeftChild, g, ErasedTree(l, r));
    g' := UpdateLeftmost(header, z, zRight, zParent, g', c, r);
    g' := UpdateRightmost(header, z, zLeft, zParent, g', c, l);
  }

  /** Erases `z` from the tree; `x`, `xParent` and `y` are what rebalancing needs to know. */
  method Erase(header: Node, z: Node, ghost g: Store, ghost c: Ctx, ghost l: Tree, ghost r: Tree)
    returns (x: Node?, xParent: Node, y: Node, ghost g': Store)
    requires Matches(g) && Linked(g, c, Bin(l, z, r), header)
    modifies g.nodes
    ensures Matches(g') && g' == ErasedStore(g, c, l, z, r, header)
    ensures x == Root(ErasedTree(l, r)) && xParent == CParent(ErasedCtx(c, l, r), header)
    ensures y == if l.Bin? && r.Bin? then MinNode(r) else z
  {
    OnlyChildKnown(g, c, l, z, r, header);
    var zLeft, zRight := z.left, z.right;
    y, x := FindSuccessor(z, zLeft, zRight, header, g, c, l, r);
    var zParent := z.parent;
    var zIsLeftChild := zParent.left == z;
    if y != z {
      xParent, g' := RelinkSuccessor(header, z, zLeft, zRight, y, x, zParent, zIsLeftChild, g, c, l, r);
    } else {
      xParent := zParent;
      g' := EraseLight(header, z, zLeft, zRight, x, zParent, zIsLeftChild, g, c, l, r);
    }
  }
}

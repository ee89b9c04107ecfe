/** Putting a subtree in the place of another, and the rotations. */
module Rotations {
  import opened TreeNodes

  // ------------------------------------------- filling the hole of a context

  ghost function ChildSet(g: Store, header: Node, newChild: Node?, newParent: Node, linkLeft: bool): Store
  {
    if newParent == header then g.(parent := Put(g.parent, header, newChild))
    else if linkLeft then g.(left := Put(g.left, newParent, newChild))
    else g.(right := Put(g.right, newParent, newChild))
  }

  method SetChild(header: Node, newChild: Node?, newParent: Node, linkLeft: bool, ghost g: Store)
    returns (ghost g': Store)
    requires Matches(g) && header in g.nodes && newParent in g.nodes
    modifies header`parent, newParent`left, newParent`right
    ensures Matches(g') && g' == ChildSet(g, header, newChild, newParent, linkLeft)
  {
    if newParent == header {
      g' := SetParent(header, newChild, g);
    } else if linkLeft {
      g' := SetLeft(newParent, newChild, g);
    } else {
      g' := SetRight(newParent, newChild, g);
    }
  }

  /** Setting the right child link of the parent, or the header's, hangs the subtree. */
  lemma Hang(g: Store, c: Ctx, t: Tree, header: Node, hole: Node?, linkLeft: bool)
    requires Unhung(g, c, t, header, hole)
    requires !c.Top? ==> linkLeft == c.InLeft?
    ensures Linked(ChildSet(g, header, Root(t), CParent(c, header), linkLeft), c, t, header)
  {
    var g' := ChildSet(g, header, Root(t), CParent(c, header), linkLeft);
    FrameDown(g.left, g.right, g'.left, g'.right, t);
    FrameUp(g.parent, g'.parent, t, CParent(c, header));
    Rehang(g.left, g.right, g'.left, g'.right, c, hole, Root(t));
    FrameCUp(g.parent, g'.parent, c, header);
  }

  /** Relinking nodes outside a context, and possibly bringing in new ones, leaves the context alone. */
  lemma Replant(g: Store, g': Store, c: Ctx, t: Tree, t': Tree, header: Node, s: set<Node>)
    requires Linked(g, c, t, header)
    requires g'.nodes == g.nodes && SameOutside(g, g', s) && s !! CNodes(c) && header !in s
    requires Apart(c, t', header) && Nodes(t') <= g.nodes
    requires Down(g'.left, g'.right, t') && Up(g'.parent, t', CParent(c, header))
    ensures Unhung(g', c, t', header, Root(t))
  {
    FrameCDown(g.left, g.right, g'.left, g'.right, c, Root(t));
    FrameCUp(g.parent, g'.parent, c, header);
  }

  /** `g'` and `g` have the same links outside `s`. */
  ghost predicate SameOutside(g: Store, g': Store, s: set<Node>)
  {
    forall n <- g.nodes :: n !in s ==>
        g'.left(n) == g.left(n) && g'.right(n) == g.right(n) && g'.parent(n) == g.parent(n)
  }

  // ------------------------------------------------------------ left rotation

  ghost function LeftRotated(g: Store, p: Node, q: Node): Store
  {
    var m := g.left(q);
    g.(right := Put(g.right, p, m),
       left := Put(g.left, q, p),
       parent := Put(if m == null then g.parent else Put(g.parent, m, p), p, q))
  }

  method RotateLeftNoParentFix(p: Node, pRight: Node, ghost g: Store) returns (ghost g': Store)
    requires Matches(g) && p in g.nodes && pRight in g.nodes && Known(g, pRight.left)
    modifies g.nodes
    ensures Matches(g') && g' == LeftRotated(g, p, pRight)
  {
    var pRightLeft := pRight.left;
    g' := SetRight(p, pRightLeft, g);
    if pRightLeft != null {
      g' := SetParent(pRightLeft, p, g');
    }
    g' := SetLeft(pRight, p, g');
    g' := SetParent(p, pRight, g');
  }

  lemma RotatedApart(a: Tree, p: Node, b: Tree, q: Node, d: Tree)
    requires Distinct(Bin(a, p, Bin(b, q, d)))
    ensures Nodes(Bin(Bin(a, p, b), q, d)) == Nodes(Bin(a, p, Bin(b, q, d)))
    ensures p != q && Distinct(a) && Distinct(b) && Distinct(d)
    ensures p !in Nodes(a) && p !in Nodes(b) && p !in Nodes(d)
    ensures q !in Nodes(a) && q !in Nodes(b) && q !in Nodes(d)
    ensures b.Bin? ==> b.node in Nodes(b) && b.node !in Nodes(a) && b.node !in Nodes(d)
    ensures Distinct(Bin(Bin(a, p, b), q, d))
  {
    assert Distinct(Bin(b, q, d)) && Nodes(Bin(b, q, d)) == Nodes(b) + {q} + Nodes(d);
    assert Nodes(Bin(a, p, b)) == Nodes(a) + {p} + Nodes(b);
  }

  lemma LeftRotatedDown(g: Store, a: Tree, p: Node, b: Tree, q: Node, d: Tree)
    requires Distinct(Bin(a, p, Bin(b, q, d)))
    requires Down(g.left, g.right, Bin(a, p, Bin(b, q, d)))
    ensures Down(Put(g.left, q, p), Put(g.right, p, Root(b)), Bin(Bin(a, p, b), q, d))
  {
    RotatedApart(a, p, b, q, d);
    var L, R := Put(g.left, q, p), Put(g.right, p, Root(b));
    assert Down(g.left, g.right, Bin(b, q, d));
    FrameDown(g.left, g.right, L, R, a);
    FrameDown(g.left, g.right, L, R, b);
    FrameDown(g.left, g.right, L, R, d);
    assert Down(L, R, Bin(a, p, b));
  }

  lemma LeftRotatedUp(g: Store, a: Tree, p: Node, b: Tree, q: Node, d: Tree, x: Node, top: Node)
    requires Distinct(Bin(a, p, Bin(b, q, d)))
    requires Up(g.parent, Bin(a, p, Bin(b, q, d)), x)
    requires g.left(q) == Root(b)
    ensures Up(Reparented(LeftRotated(g, p, q), q, top).parent, Bin(Bin(a, p, b), q, d), top)
  {
    RotatedApart(a, p, b, q, d);
    var P := Reparented(LeftRotated(g, p, q), q, top).parent;
    assert Up(g.parent, Bin(b, q, d), p) && Up(g.parent, b, q);
    FrameUp(g.parent, P, a, p);
    FrameUp(g.parent, P, d, q);
    Reparent(g.parent, P, b, q, p);
    assert Up(P, Bin(a, p, b), q);
  }

  lemma LeftRotatedOutside(g: Store, a: Tree, p: Node, b: Tree, q: Node, d: Tree, top: Node)
    requires g.left(q) == Root(b)
    ensures SameOutside(g, Reparented(LeftRotated(g, p, q), q, top), Nodes(Bin(a, p, Bin(b, q, d))))
  {
    assert Nodes(Bin(b, q, d)) == Nodes(b) + {q} + Nodes(d);
    assert b.Bin? ==> b.node in Nodes(b);
  }

  lemma LeftRotatedLinked(g: Store, c: Ctx, a: Tree, p: Node, b: Tree, q: Node, d: Tree, header: Node)
    requires Linked(g, c, Bin(a, p, Bin(b, q, d)), header)
    ensures Linked(RotatedLeft(g, p, q, CParent(c, header), header), c, Bin(Bin(a, p, b), q, d), header)
  {
    var t, t', top := Bin(a, p, Bin(b, q, d)), Bin(Bin(a, p, b), q, d), CParent(c, header);
    var g' := Reparented(LeftRotated(g, p, q), q, top);
    assert Down(g.left, g.right, t.right);
    RotatedApart(a, p, b, q, d);
    LeftRotatedDown(g, a, p, b, q, d);
    LeftRotatedUp(g, a, p, b, q, d, top, top);
    LeftRotatedOutside(g, a, p, b, q, d, top);
    Replant(g, g', c, t, t', header, Nodes(t));
    Hang(g', c, t', header, p, g.left(top) == p);
  }

  ghost function Reparented(g: Store, q: Node, top: Node): Store
  {
    g.(parent := Put(g.parent, q, top))
  }

  ghost function RotatedLeft(g: Store, p: Node, q: Node, pParent: Node, header: Node): Store
  {
    ChildSet(Reparented(LeftRotated(g, p, q), q, pParent), header, q, pParent, g.left(pParent) == p)
  }

  method RotateLeft(p: Node, pRight: Node, pParent: Node, header: Node, ghost g: Store) returns (ghost g': Store)
    requires Matches(g) && p in g.nodes && pRight in g.nodes && Known(g, pRight.left)
    requires pParent in g.nodes && header in g.nodes
    modifies g.nodes
    ensures Matches(g') && g' == RotatedLeft(g, p, pRight, pParent, header)
  {
    var pWasLeft := pParent.left == p;
    g' := RotateLeftNoParentFix(p, pRight, g);
    g' := SetParent(pRight, pParent, g');
    g' := SetChild(header, pRight, pParent, pWasLeft, g');
  }

  // ----------------------------------------------------------- right rotation

  ghost function RightRotated(g: Store, p: Node, q: Node): Store
  {
    var m := g.right(q);
    g.(left := Put(g.left, p, m),
       right := Put(g.right, q, p),
       parent := Put(if m == null then g.parent else Put(g.parent, m, p), p, q))
  }

  method RotateRightNoParentFix(p: Node, pLeft: Node, ghost g: Store) returns (ghost g': Store)
    requires Matches(g) && p in g.nodes && pLeft in g.nodes && Known(g, pLeft.right)
    modifies g.nodes
    ensures Matches(g') && g' == RightRotated(g, p, pLeft)
  {
    var pLeftRight := pLeft.right;
    g' := SetLeft(p, pLeftRight, g);
    if pLeftRight != null {
      g' := SetParent(pLeftRight, p, g');
    }
    g' := SetRight(pLeft, p, g');
    g' := SetParent(p, pLeft, g');
  }

  ghost function RotatedRight(g: Store, p: Node, q: Node, pParent: Node, header: Node): Store
  {
    ChildSet(Reparented(RightRotated(g, p, q), q, pParent), header, q, pParent, g.left(pParent) == p)
  }

  method RotateRight(p: Node, pLeft: Node, pParent: Node, header: Node, ghost g: Store) returns (ghost g': Store)
    requires Matches(g) && p in g.nodes && pLeft in g.nodes && Known(g, pLeft.right)
    requires pParent in g.nodes && header in g.nodes
    modifies g.nodes
    ensures Matches(g') && g' == RotatedRight(g, p, pLeft, pParent, header)
  {
    var pWasLeft := pParent.left == p;
    g' := RotateRightNoParentFix(p, pLeft, g);
    g' := SetParent(pLeft, pParent, g');
    g' := SetChild(header, pLeft, pParent, pWasLeft, g');
  }

  lemma UnrotatedApart(a: Tree, q: Node, b: Tree, p: Node, d: Tree)
    requires Distinct(Bin(Bin(a, q, b), p, d))
    ensures Nodes(Bin(a, q, Bin(b, p, d))) == Nodes(Bin(Bin(a, q, b), p, d))
    ensures p != q && Distinct(a) && Distinct(b) && Distinct(d)
    ensures p !in Nodes(a) && p !in Nodes(b) && p !in Nodes(d)
    ensures q !in Nodes(a) && q !in Nodes(b) && q !in Nodes(d)
    ensures b.Bin? ==> b.node in Nodes(b) && b.node !in Nodes(a) && b.node !in Nodes(d)
    ensures Distinct(Bin(a, q, Bin(b, p, d)))
  {
    assert Distinct(Bin(a, q, b)) && Nodes(Bin(a, q, b)) == Nodes(a) + {q} + Nodes(b);
    assert Nodes(Bin(b, p, d)) == Nodes(b) + {p} + Nodes(d);
  }

  lemma RightRotatedDown(g: Store, a: Tree, q: Node, b: Tree, p: Node, d: Tree)
    requires Distinct(Bin(Bin(a, q, b), p, d))
    requires Down(g.left, g.right, Bin(Bin(a, q, b), p, d))
    ensures Down(Put(g.left, p, Root(b)), Put(g.right, q, p), Bin(a, q, Bin(b, p, d)))
  {
    UnrotatedApart(a, q, b, p, d);
    var L, R := Put(g.left, p, Root(b)), Put(g.right, q, p);
    assert Down(g.left, g.right, Bin(a, q, b));
    FrameDown(g.left, g.right, L, R, a);
    FrameDown(g.left, g.right, L, R, b);
    FrameDown(g.left, g.right, L, R, d);
    assert Down(L, R, Bin(b, p, d));
  }

  lemma RightRotatedUp(g: Store, a: Tree, q: Node, b: Tree, p: Node, d: Tree, x: Node, top: Node)
    requires Distinct(Bin(Bin(a, q, b), p, d))
    requires Up(g.parent, Bin(Bin(a, q, b), p, d), x)
    requires g.right(q) == Root(b)
    ensures Up(Reparented(RightRotated(g, p, q), q, top).parent, Bin(a, q, Bin(b, p, d)), top)
  {
    UnrotatedApart(a, q, b, p, d);
    var P := Reparented(RightRotated(g, p, q), q, top).parent;
    assert Up(g.parent, Bin(a, q, b), p) && Up(g.parent, b, q);
    FrameUp(g.parent, P, a, q);
    FrameUp(g.parent, P, d, p);
    Reparent(g.parent, P, b, q, p);
    assert Up(P, Bin(b, p, d), q);
  }

  lemma RightRotatedOutside(g: Store, a: Tree, q: Node, b: Tree, p: Node, d: Tree, top: Node)
    requires g.right(q) == Root(b)
    ensures SameOutside(g, Reparented(RightRotated(g, p, q), q, top), Nodes(Bin(Bin(a, q, b), p, d)))
  {
    assert Nodes(Bin(a, q, b)) == Nodes(a) + {q} + Nodes(b);
    assert b.Bin? ==> b.node in Nodes(b);
  }

  lemma RightRotatedLinked(g: Store, c: Ctx, a: Tree, q: Node, b: Tree, p: Node, d: Tree, header: Node)
    requires Linked(g, c, Bin(Bin(a, q, b), p, d), header)
    ensures Linked(RotatedRight(g, p, q, CParent(c, header), header), c, Bin(a, q, Bin(b, p, d)), header)
  {
    var t, t', top := Bin(Bin(a, q, b), p, d), Bin(a, q, Bin(b, p, d)), CParent(c, header);
    var g' := Reparented(RightRotated(g, p, q), q, top);
    assert Down(g.left, g.right, t.left);
    UnrotatedApart(a, q, b, p, d);
    RightRotatedDown(g, a, q, b, p, d);
    RightRotatedUp(g, a, q, b, p, d, top, top);
    RightRotatedOutside(g, a, q, b, p, d, top);
    Replant(g, g', c, t, t', header, Nodes(t));
    Hang(g', c, t', header, p, g.left(top) == p);
  }

  // -------------------------------------------------------- double rotations

  /** Nodes that are not in the tree, and the header's own side links, do not matter. */
  lemma FrameLinked(g: Store, g': Store, c: Ctx, t: Tree, header: Node, s: set<Node>)
    requires Linked(g, c, t, header)
    requires g'.nodes == g.nodes && SameOutside(g, g', s) && s !! CNodes(c) && s !! Nodes(t)
    requires g'.parent(header) == g.parent(header)
    ensures Linked(g', c, t, header)
  {
    FrameDown(g.left, g.right, g'.left, g'.right, t);
    FrameUp(g.parent, g'.parent, t, CParent(c, header));
    FrameCDown(g.left, g.right, g'.left, g'.right, c, Root(t));
    FrameCUp(g.parent, g'.parent, c, header);
  }

  lemma FrameLinkedAll(g: Store, g': Store, c: Ctx, t: Tree, header: Node)
    requires Linked(g, c, t, header) && g'.nodes == g.nodes && SameOutside(g, g', {})
    ensures Linked(g', c, t, header)
  {
    hide Apart, Down, Up, CDown, CUp;
    FrameLinked(g, g', c, t, header, {});
  }

  lemma FrameLinkedBut(g: Store, g': Store, c: Ctx, t: Tree, header: Node, z: Node)
    requires Linked(g, c, t, header)
    requires g'.nodes == g.nodes && SameOutside(g, g', {z}) && z !in CNodes(c) && z !in Nodes(t) && z != header
    ensures Linked(g', c, t, header)
  {
    FrameLinked(g, g', c, t, header, {z});
  }

  /** Linking `m` below `p` in between would be overwritten by the second rotation. */
  lemma LeftRightShortcut(g: Store, b: Node, m: Node, p: Node, top: Node, header: Node)
    requires p != b && p != m && b != m && g.left(p) == b && top != p && top != b && top != m
    requires header != p && header != b && header != m
    requires g.left(m) != m && g.left(m) != b && g.left(m) != p
    requires g.right(m) != m && g.right(m) != b && g.right(m) != p
    ensures SameOutside(RotatedRight(RotatedLeft(g, b, m, p, header), p, m, top, header),
                        RotatedRight(LeftRotated(g, b, m), p, m, top, header), {})
  {
  }

  lemma LeftRightFacts(g: Store, c: Ctx, d: Tree, b: Node, e: Tree, m: Node, f: Tree, p: Node, h: Tree, header: Node)
    requires Linked(g, c, Bin(Bin(d, b, Bin(e, m, f)), p, h), header)
    ensures p != b && p != m && b != m && g.left(p) == b
    ensures CParent(c, header) !in {p, b, m} && header !in {p, b, m}
    ensures g.left(m) == null || g.left(m) !in {p, b, m}
    ensures g.right(m) == null || g.right(m) !in {p, b, m}
  {
    var u, w := Bin(e, m, f), Bin(d, b, Bin(e, m, f));
    assert Nodes(u) == Nodes(e) + {m} + Nodes(f) && Nodes(w) == Nodes(d) + {b} + Nodes(u);
    assert Distinct(w) && Distinct(u);
    assert Down(g.left, g.right, w) && Down(g.left, g.right, u);
    assert e.Bin? ==> e.node in Nodes(e);
    assert f.Bin? ==> f.node in Nodes(f);
    assert !c.Top? ==> c.node in CNodes(c);
  }

  lemma RotatedTwice(g: Store, c: Ctx, d: Tree, b: Node, e: Tree, m: Node, f: Tree, p: Node, h: Tree, header: Node)
    requires Linked(g, c, Bin(Bin(d, b, Bin(e, m, f)), p, h), header)
    ensures Linked(RotatedRight(RotatedLeft(g, b, m, p, header), p, m, CParent(c, header), header), c,
                   Bin(Bin(d, b, e), m, Bin(f, p, h)), header)
  {
    var c1, g1 := InLeft(c, p, h), RotatedLeft(g, b, m, p, header);
    Refocus(g, c1, Bin(d, b, Bin(e, m, f)), header);
    LeftRotatedLinked(g, c1, d, b, e, m, f, header);
    Refocus(g1, c1, Bin(Bin(d, b, e), m, f), header);
    RightRotatedLinked(g1, c, Bin(d, b, e), m, f, p, h, header);
  }

  /** The middle node is never linked below `p` between the two rotations; it need not be. */
  lemma LeftRightRotatedLinked(g: Store, c: Ctx, d: Tree, b: Node, e: Tree, m: Node, f: Tree, p: Node, h: Tree,
                               header: Node)
    requires Linked(g, c, Bin(Bin(d, b, Bin(e, m, f)), p, h), header)
    ensures Linked(RotatedRight(LeftRotated(g, b, m), p, m, CParent(c, header), header), c,
                   Bin(Bin(d, b, e), m, Bin(f, p, h)), header)
  {
    var top := CParent(c, header);
    RotatedTwice(g, c, d, b, e, m, f, p, h, header);
    LeftRightFacts(g, c, d, b, e, m, f, p, h, header);
    LeftRightShortcut(g, b, m, p, top, header);
    FrameLinked(RotatedRight(RotatedLeft(g, b, m, p, header), p, m, top, header),
                RotatedRight(LeftRotated(g, b, m), p, m, top, header), c,
                Bin(Bin(d, b, e), m, Bin(f, p, h)), header, {});
  }

  lemma RightLeftShortcut(g: Store, b: Node, m: Node, p: Node, top: Node, header: Node)
    requires p != b && p != m && b != m && g.right(p) == b && g.left(p) != b && top != p && top != b && top != m
    requires header != p && header != b && header != m
    requires g.left(m) != m && g.left(m) != b && g.left(m) != p
    requires g.right(m) != m && g.right(m) != b && g.right(m) != p
    ensures SameOutside(RotatedLeft(RotatedRight(g, b, m, p, header), p, m, top, header),
                        RotatedLeft(RightRotated(g, b, m), p, m, top, header), {})
  {
  }

  lemma RightLeftFacts(g: Store, c: Ctx, h: Tree, p: Node, e: Tree, m: Node, f: Tree, b: Node, d: Tree, header: Node)
    requires Linked(g, c, Bin(h, p, Bin(Bin(e, m, f), b, d)), header)
    ensures p != b && p != m && b != m && g.right(p) == b && g.left(p) != b
    ensures CParent(c, header) !in {p, b, m} && header !in {p, b, m}
    ensures g.left(m) == null || g.left(m) !in {p, b, m}
    ensures g.right(m) == null || g.right(m) !in {p, b, m}
  {
    var u, w := Bin(e, m, f), Bin(Bin(e, m, f), b, d);
    assert Nodes(u) == Nodes(e) + {m} + Nodes(f) && Nodes(w) == Nodes(u) + {b} + Nodes(d);
    assert Distinct(w) && Distinct(u);
    assert Down(g.left, g.right, w) && Down(g.left, g.right, u);
    assert e.Bin? ==> e.node in Nodes(e);
    assert f.Bin? ==> f.node in Nodes(f);
    assert h.Bin? ==> h.node in Nodes(h);
    assert !c.Top? ==> c.node in CNodes(c);
  }

  lemma UnrotatedTwice(g: Store, c: Ctx, h: Tree, p: Node, e: Tree, m: Node, f: Tree, b: Node, d: Tree, header: Node)
    requires Linked(g, c, Bin(h, p, Bin(Bin(e, m, f), b, d)), header)
    ensures Linked(RotatedLeft(RotatedRight(g, b, m, p, header), p, m, CParent(c, header), header), c,
                   Bin(Bin(h, p, e), m, Bin(f, b, d)), header)
  {
    var c1, g1 := InRight(c, h, p), RotatedRight(g, b, m, p, header);
    Refocus(g, c1, Bin(Bin(e, m, f), b, d), header);
    RightRotatedLinked(g, c1, e, m, f, b, d, header);
    Refocus(g1, c1, Bin(e, m, Bin(f, b, d)), header);
    LeftRotatedLinked(g1, c, h, p, e, m, Bin(f, b, d), header);
  }

  lemma RightLeftRotatedLinked(g: Store, c: Ctx, h: Tree, p: Node, e: Tree, m: Node, f: Tree, b: Node, d: Tree,
                               header: Node)
    requires Linked(g, c, Bin(h, p, Bin(Bin(e, m, f), b, d)), header)
    ensures Linked(RotatedLeft(RightRotated(g, b, m), p, m, CParent(c, header), header), c,
                   Bin(Bin(h, p, e), m, Bin(f, b, d)), header)
  {
    var top := CParent(c, header);
    UnrotatedTwice(g, c, h, p, e, m, f, b, d, header);
    RightLeftFacts(g, c, h, p, e, m, f, b, d, header);
    RightLeftShortcut(g, b, m, p, top, header);
    FrameLinked(RotatedLeft(RotatedRight(g, b, m, p, header), p, m, top, header),
                RotatedLeft(RightRotated(g, b, m), p, m, top, header), c,
                Bin(Bin(h, p, e), m, Bin(f, b, d)), header, {});
  }
}

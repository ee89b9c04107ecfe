/** Balance factors: what they mean, and what a rotation does to them. */
module AvlBalance {
  import opened TreeNodes
  import opened Rotations

  /** The balance factor says which subtree is taller, by exactly one level. */
  ghost predicate Fits(b: Balance, leftHeight: int, rightHeight: int)
  {
    match b
    case Negative => leftHeight == rightHeight + 1
    case Zero => leftHeight == rightHeight
    case Positive => rightHeight == leftHeight + 1
  }

  ghost predicate Avl(B: Node -> Balance, t: Tree)
  {
    t.Bin? ==> Fits(B(t.node), Height(t.left), Height(t.right)) && Avl(B, t.left) && Avl(B, t.right)
  }

  /** The balance factors of a context are right for a subtree of height `h` in its hole. */
  ghost predicate CAvl(B: Node -> Balance, c: Ctx, h: int)
  {
    !c.Top? ==>
      && (if c.InLeft? then Fits(B(c.node), h, Height(c.right)) else Fits(B(c.node), Height(c.left), h))
      && Avl(B, Side(c)) && CAvl(B, c.up, GrownHeight(c, h))
  }

  ghost function GrownHeight(c: Ctx, h: int): int
    requires !c.Top?
  {
    1 + if h > Height(Side(c)) then h else Height(Side(c))
  }

  lemma FrameAvl(B: Node -> Balance, B': Node -> Balance, t: Tree)
    requires Avl(B, t)
    requires forall n <- Nodes(t) :: B'(n) == B(n)
    ensures Avl(B', t)
  {
  }

  lemma FrameCAvl(B: Node -> Balance, B': Node -> Balance, c: Ctx, h: int)
    requires CAvl(B, c, h)
    requires forall n <- CNodes(c) :: B'(n) == B(n)
    ensures CAvl(B', c, h)
  {
    if !c.Top? {
      FrameAvl(B, B', Side(c));
    }
  }

  lemma PlugAvl(B: Node -> Balance, c: Ctx, t: Tree)
    requires Avl(B, t) && CAvl(B, c, Height(t))
    ensures Avl(B, Plug(c, t))
  {
    if !c.Top? {
      PlugAvl(B, c.up, Grown(c, t));
    }
  }

  /** A balance factor set above the hole, right for what is now in the hole. */
  lemma SetAbove(B: Node -> Balance, c: Ctx, t: Tree, b: Balance, h: int)
    requires !c.Top? && CDistinct(c) && CNodes(c) !! Nodes(t)
    requires Avl(B, t) && CAvl(B, c, h)
    requires if c.InLeft? then Fits(b, Height(t), Height(c.right)) else Fits(b, Height(c.left), Height(t))
    ensures Avl(Put(B, c.node, b), Grown(c, t))
    ensures CAvl(Put(B, c.node, b), c.up, GrownHeight(c, h))
  {
    var B' := Put(B, c.node, b);
    assert c.node in CNodes(c);
    FrameAvl(B, B', t);
    FrameAvl(B, B', Side(c));
    FrameCAvl(B, B', c.up, GrownHeight(c, h));
  }

  // ------------------------------------------------------ single rotations

  ghost function LeanedLeft(B: Node -> Balance, x: Node, q: Node): Node -> Balance
  {
    if B(q) == Positive then Put(Put(B, x, Zero), q, Zero) else Put(Put(B, x, Positive), q, Negative)
  }

  ghost function AvlRotatedLeft(g: Store, x: Node, q: Node, header: Node): Store
  {
    var top := g.parent(x);
    if top == null then g else RotatedLeft(g, x, q, top, header).(balance := LeanedLeft(g.balance, x, q))
  }

  method AvlRotateLeft(x: Node, xOldRight: Node, hdr: Node, ghost g: Store) returns (ghost g': Store)
    requires Matches(g) && x in g.nodes && xOldRight in g.nodes && Known(g, xOldRight.left)
    requires x.parent != null && x.parent in g.nodes && hdr in g.nodes
    modifies g.nodes
    ensures Matches(g') && g' == AvlRotatedLeft(g, x, xOldRight, hdr)
  {
    g' := RotateLeft(x, xOldRight, x.parent, hdr, g);
    if xOldRight.balance == Positive {
      g' := SetBalance(x, Zero, g');
      g' := SetBalance(xOldRight, Zero, g');
    } else {
      g' := SetBalance(x, Positive, g');
      g' := SetBalance(xOldRight, Negative, g');
    }
  }

  ghost function LeanedRight(B: Node -> Balance, x: Node, q: Node): Node -> Balance
  {
    if B(q) == Negative then Put(Put(B, x, Zero), q, Zero) else Put(Put(B, x, Negative), q, Positive)
  }

  ghost function AvlRotatedRight(g: Store, x: Node, q: Node, header: Node): Store
  {
    var top := g.parent(x);
    if top == null then g else RotatedRight(g, x, q, top, header).(balance := LeanedRight(g.balance, x, q))
  }

  method AvlRotateRight(x: Node, xOldLeft: Node, hdr: Node, ghost g: Store) returns (ghost g': Store)
    requires Matches(g) && x in g.nodes && xOldLeft in g.nodes && Known(g, xOldLeft.right)
    requires x.parent != null && x.parent in g.nodes && hdr in g.nodes
    modifies g.nodes
    ensures Matches(g') && g' == AvlRotatedRight(g, x, xOldLeft, hdr)
  {
    g' := RotateRight(x, xOldLeft, x.parent, hdr, g);
    if xOldLeft.balance == Negative {
      g' := SetBalance(x, Zero, g');
      g' := SetBalance(xOldLeft, Zero, g');
    } else {
      g' := SetBalance(x, Negative, g');
      g' := SetBalance(xOldLeft, Positive, g');
    }
  }

  // ------------------------------------------------------ double rotations

  ghost function Shared(B: Node -> Balance, a: Node, b: Node, c: Node): Node -> Balance
  {
    match B(c)
    case Negative => Put(Put(Put(B, c, Zero), a, Positive), b, Zero)
    case Zero => Put(Put(Put(B, c, Zero), a, Zero), b, Zero)
    case Positive => Put(Put(Put(B, c, Zero), a, Zero), b, Negative)
  }

  method LeftRightBalancing(a: Node, b: Node, c: Node, ghost g: Store) returns (ghost g': Store)
    requires Matches(g) && a in g.nodes && b in g.nodes && c in g.nodes
    modifies g.nodes
    ensures Matches(g') && g' == g.(balance := Shared(g.balance, a, b, c))
  {
    var cBalance := c.balance;
    g' := SetBalance(c, Zero, g);
    if cBalance == Negative {
      g' := SetBalance(a, Positive, g');
      g' := SetBalance(b, Zero, g');
    } else if cBalance == Zero {
      g' := SetBalance(a, Zero, g');
      g' := SetBalance(b, Zero, g');
    } else {
      g' := SetBalance(a, Zero, g');
      g' := SetBalance(b, Negative, g');
    }
  }

  ghost function AvlRotatedLeftRight(g: Store, a: Node, b: Node, m: Node, header: Node): Store
  {
    var g1 := LeftRotated(g, b, m);
    var top := g1.parent(a);
    if top == null then g else RotatedRight(g1, a, m, top, header).(balance := Shared(g.balance, a, b, m))
  }

  method AvlRotateLeftRight(a: Node, aOldLeft: Node, hdr: Node, ghost g: Store) returns (c: Node, ghost g': Store)
    requires Matches(g) && a in g.nodes && hdr in g.nodes && aOldLeft in g.nodes && aOldLeft.right != null
    requires aOldLeft.right in g.nodes && aOldLeft.right != aOldLeft
    requires Known(g, aOldLeft.right.left) && Known(g, aOldLeft.right.right)
    requires LeftRotated(g, aOldLeft, aOldLeft.right).parent(a) in g.nodes
    modifies g.nodes
    ensures c == g.right(aOldLeft)
    ensures Matches(g') && g' == AvlRotatedLeftRight(g, a, aOldLeft, c, hdr)
  {
    c := aOldLeft.right;
    g' := RotateLeftNoParentFix(aOldLeft, c, g);
    g' := RotateRight(a, c, a.parent, hdr, g');
    g' := LeftRightBalancing(a, aOldLeft, c, g');
  }

  ghost function AvlRotatedRightLeft(g: Store, a: Node, b: Node, m: Node, header: Node): Store
  {
    var g1 := RightRotated(g, b, m);
    var top := g1.parent(a);
    if top == null then g else RotatedLeft(g1, a, m, top, header).(balance := Shared(g.balance, b, a, m))
  }

  method AvlRotateRightLeft(a: Node, aOldRight: Node, hdr: Node, ghost g: Store) returns (c: Node, ghost g': Store)
    requires Matches(g) && a in g.nodes && hdr in g.nodes && aOldRight in g.nodes && aOldRight.left != null
    requires aOldRight.left in g.nodes && aOldRight.left != aOldRight
    requires Known(g, aOldRight.left.left) && Known(g, aOldRight.left.right)
    requires RightRotated(g, aOldRight, aOldRight.left).parent(a) in g.nodes
    modifies g.nodes
    ensures c == g.left(aOldRight)
    ensures Matches(g') && g' == AvlRotatedRightLeft(g, a, aOldRight, c, hdr)
  {
    c := aOldRight.left;
    g' := RotateRightNoParentFix(aOldRight, c, g);
    g' := RotateLeft(a, c, a.parent, hdr, g');
    g' := LeftRightBalancing(aOldRight, a, c, g');
  }

  // ------------------------------------- what the four rotations restore

  /** Linked, with right balance factors, but the context still expects a subtree of height `h`. */
  ghost predicate Tilted(g: Store, c: Ctx, t: Tree, header: Node, h: int)
  {
    Linked(g, c, t, header) && Avl(g.balance, t) && CAvl(g.balance, c, h)
  }

  lemma Level(B: Node -> Balance, a: Tree, p: Node, b: Tree)
    requires Avl(B, a) && Avl(B, b) && Fits(B(p), Height(a), Height(b))
    ensures Avl(B, Bin(a, p, b))
    ensures Height(Bin(a, p, b)) == 1 + if B(p) == Positive then Height(b) else Height(a)
  {
  }

  lemma FramePairAvl(B: Node -> Balance, t: Tree, p: Node, x: Balance, q: Node, y: Balance)
    requires Avl(B, t) && p !in Nodes(t) && q !in Nodes(t)
    ensures Avl(Put(Put(B, p, x), q, y), t)
  {
    FrameAvl(B, Put(Put(B, p, x), q, y), t);
  }

  lemma LeanedLeftAvl(B: Node -> Balance, a: Tree, p: Node, b: Tree, q: Node, d: Tree)
    requires p != q && p !in Nodes(a) && p !in Nodes(b) && p !in Nodes(d)
    requires q !in Nodes(a) && q !in Nodes(b) && q !in Nodes(d)
    requires Avl(B, a) && Avl(B, b) && Avl(B, d)
    requires Fits(B(q), Height(b), Height(d)) && B(q) != Negative && Height(a) + 1 == Height(d)
    ensures Avl(LeanedLeft(B, p, q), Bin(Bin(a, p, b), q, d))
    ensures Height(Bin(Bin(a, p, b), q, d)) == Height(a) + if B(q) == Positive then 2 else 3
  {
    var x, y := if B(q) == Positive then Zero else Positive, if B(q) == Positive then Zero else Negative;
    var B' := Put(Put(B, p, x), q, y);
    FramePairAvl(B, a, p, x, q, y);
    FramePairAvl(B, b, p, x, q, y);
    FramePairAvl(B, d, p, x, q, y);
    Level(B', a, p, b);
    Level(B', Bin(a, p, b), q, d);
  }

  /** A pair of nodes below the hole is not in the context. */
  lemma PairApart(c: Ctx, a: Tree, p: Node, b: Tree, q: Node, d: Tree, header: Node)
    requires Apart(c, Bin(a, p, Bin(b, q, d)), header)
    ensures p !in CNodes(c) && q !in CNodes(c)
  {
    assert q in Nodes(Bin(b, q, d));
  }

  lemma LeanedCAvl(B: Node -> Balance, c: Ctx, p: Node, q: Node, h: int)
    requires CAvl(B, c, h) && p !in CNodes(c) && q !in CNodes(c)
    ensures CAvl(LeanedLeft(B, p, q), c, h)
    ensures CAvl(LeanedRight(B, p, q), c, h)
  {
    FrameCAvl(B, LeanedLeft(B, p, q), c, h);
    FrameCAvl(B, LeanedRight(B, p, q), c, h);
  }

  lemma LeanLeft(g: Store, c: Ctx, a: Tree, p: Node, b: Tree, q: Node, d: Tree, header: Node, h: int)
    requires Linked(g, c, Bin(a, p, Bin(b, q, d)), header) && CAvl(g.balance, c, h)
    requires Avl(g.balance, a) && Avl(g.balance, Bin(b, q, d))
    requires Height(Bin(b, q, d)) == Height(a) + 2 && g.balance(q) != Negative
    ensures Tilted(AvlRotatedLeft(g, p, q, header), c, Bin(Bin(a, p, b), q, d), header, h)
    ensures Height(Bin(Bin(a, p, b), q, d)) == Height(a) + if g.balance(q) == Positive then 2 else 3
  {
    LeftRotatedLinked(g, c, a, p, b, q, d, header);
    PairApart(c, a, p, b, q, d, header);
    RotatedApart(a, p, b, q, d);
    LeanedLeftAvl(g.balance, a, p, b, q, d);
    LeanedCAvl(g.balance, c, p, q, h);
  }

  lemma LeanedRightAvl(B: Node -> Balance, a: Tree, q: Node, b: Tree, p: Node, d: Tree)
    requires p != q && p !in Nodes(a) && p !in Nodes(b) && p !in Nodes(d)
    requires q !in Nodes(a) && q !in Nodes(b) && q !in Nodes(d)
    requires Avl(B, a) && Avl(B, b) && Avl(B, d)
    requires Fits(B(q), Height(a), Height(b)) && B(q) != Positive && Height(d) + 1 == Height(a)
    ensures Avl(LeanedRight(B, p, q), Bin(a, q, Bin(b, p, d)))
    ensures Height(Bin(a, q, Bin(b, p, d))) == Height(d) + if B(q) == Negative then 2 else 3
  {
    var x, y := if B(q) == Negative then Zero else Negative, if B(q) == Negative then Zero else Positive;
    var B' := Put(Put(B, p, x), q, y);
    FramePairAvl(B, a, p, x, q, y);
    FramePairAvl(B, b, p, x, q, y);
    FramePairAvl(B, d, p, x, q, y);
    Level(B', b, p, d);
    Level(B', a, q, Bin(b, p, d));
  }

  lemma PairApart'(c: Ctx, a: Tree, q: Node, b: Tree, p: Node, d: Tree, header: Node)
    requires Apart(c, Bin(Bin(a, q, b), p, d), header)
    ensures p !in CNodes(c) && q !in CNodes(c)
  {
    assert q in Nodes(Bin(a, q, b));
  }

  lemma LeanRight(g: Store, c: Ctx, a: Tree, q: Node, b: Tree, p: Node, d: Tree, header: Node, h: int)
    requires Linked(g, c, Bin(Bin(a, q, b), p, d), header) && CAvl(g.balance, c, h)
    requires Avl(g.balance, Bin(a, q, b)) && Avl(g.balance, d)
    requires Height(Bin(a, q, b)) == Height(d) + 2 && g.balance(q) != Positive
    ensures Tilted(AvlRotatedRight(g, p, q, header), c, Bin(a, q, Bin(b, p, d)), header, h)
    ensures Height(Bin(a, q, Bin(b, p, d))) == Height(d) + if g.balance(q) == Negative then 2 else 3
  {
    RightRotatedLinked(g, c, a, q, b, p, d, header);
    PairApart'(c, a, q, b, p, d, header);
    UnrotatedApart(a, q, b, p, d);
    LeanedRightAvl(g.balance, a, q, b, p, d);
    LeanedCAvl(g.balance, c, p, q, h);
  }

  // ------------------------------------------------ and the double rotations

  lemma FrameTripleAvl(B: Node -> Balance, a: Node, b: Node, m: Node, t: Tree)
    requires Avl(B, t) && a !in Nodes(t) && b !in Nodes(t) && m !in Nodes(t)
    ensures Avl(Shared(B, a, b, m), t)
  {
    FrameAvl(B, Shared(B, a, b, m), t);
  }

  lemma FrameTripleCAvl(B: Node -> Balance, a: Node, b: Node, m: Node, c: Ctx, h: int)
    requires CAvl(B, c, h) && a !in CNodes(c) && b !in CNodes(c) && m !in CNodes(c)
    ensures CAvl(Shared(B, a, b, m), c, h)
  {
    FrameCAvl(B, Shared(B, a, b, m), c, h);
  }

  /** The upper node leans to `b`, `b` leans to `m`: all three become level enough. */
  lemma SharedAvl(B: Node -> Balance, d: Tree, b: Node, e: Tree, m: Node, f: Tree, a: Node, h: Tree)
    requires a != b && a != m && b != m
    requires Avl(Shared(B, a, b, m), d) && Avl(Shared(B, a, b, m), e) && Avl(Shared(B, a, b, m), f)
        && Avl(Shared(B, a, b, m), h)
    requires Fits(B(m), Height(e), Height(f))
    requires Height(d) == Height(h) == if Height(e) > Height(f) then Height(e) else Height(f)
    ensures Avl(Shared(B, a, b, m), Bin(Bin(d, b, e), m, Bin(f, a, h)))
    ensures Height(Bin(Bin(d, b, e), m, Bin(f, a, h))) == Height(h) + 2
    ensures Shared(B, a, b, m)(m) == Zero
  {
    Level(Shared(B, a, b, m), d, b, e);
    Level(Shared(B, a, b, m), f, a, h);
  }

  lemma PairInside(d: Tree, b: Node, e: Tree, m: Node, f: Tree)
    ensures b in Nodes(Bin(d, b, Bin(e, m, f))) && m in Nodes(Bin(d, b, Bin(e, m, f)))
    ensures Nodes(d) <= Nodes(Bin(d, b, Bin(e, m, f)))
    ensures Nodes(e) <= Nodes(Bin(d, b, Bin(e, m, f)))
    ensures Nodes(f) <= Nodes(Bin(d, b, Bin(e, m, f)))
  {
    assert Nodes(Bin(e, m, f)) == Nodes(e) + {m} + Nodes(f);
  }

  lemma Elsewhere(w: Tree, h: Tree, b: Node, m: Node)
    requires Nodes(w) !! Nodes(h) && b in Nodes(w) && m in Nodes(w)
    ensures b !in Nodes(h) && m !in Nodes(h)
  {
  }

  lemma TripleDistinct(w: Tree, d: Tree, b: Node, e: Tree, m: Node, f: Tree, a: Node, h: Tree)
    requires w == Bin(d, b, Bin(e, m, f))
    requires a !in Nodes(w) && a !in Nodes(h) && Nodes(w) !! Nodes(h)
    ensures a !in Nodes(d) && a !in Nodes(e) && a !in Nodes(f) && a !in Nodes(h)
    ensures b !in Nodes(h) && m !in Nodes(h)
  {
    PairInside(d, b, e, m, f);
    Elsewhere(w, h, b, m);
  }

  lemma TripleApart(c: Ctx, d: Tree, b: Node, e: Tree, m: Node, f: Tree, a: Node, h: Tree, header: Node)
    requires Apart(c, Bin(Bin(d, b, Bin(e, m, f)), a, h), header)
    ensures a !in CNodes(c) && b !in CNodes(c) && m !in CNodes(c)
  {
    assert m in Nodes(Bin(e, m, f));
    assert m in Nodes(Bin(d, b, Bin(e, m, f))) && b in Nodes(Bin(d, b, Bin(e, m, f)));
  }

  lemma LeanLeftRight(g: Store, c: Ctx, d: Tree, b: Node, e: Tree, m: Node, f: Tree, a: Node, h: Tree, header: Node,
                      k: int)
    requires Linked(g, c, Bin(Bin(d, b, Bin(e, m, f)), a, h), header) && CAvl(g.balance, c, k)
    requires Avl(g.balance, Bin(d, b, Bin(e, m, f))) && Avl(g.balance, Bin(e, m, f)) && Avl(g.balance, h)
    requires Height(Bin(d, b, Bin(e, m, f))) == Height(h) + 2 && g.balance(b) == Positive
    ensures Tilted(AvlRotatedLeftRight(g, a, b, m, header), c, Bin(Bin(d, b, e), m, Bin(f, a, h)), header, k)
    ensures Height(Bin(Bin(d, b, e), m, Bin(f, a, h))) == Height(h) + 2
    ensures AvlRotatedLeftRight(g, a, b, m, header).balance(m) == Zero
  {
    LeftRightFacts(g, c, d, b, e, m, f, a, h, header);
    LeftRightRotatedLinked(g, c, d, b, e, m, f, a, h, header);
    TripleDistinct(Bin(d, b, Bin(e, m, f)), d, b, e, m, f, a, h);
    RotatedApart(d, b, e, m, f);
    TripleApart(c, d, b, e, m, f, a, h, header);
    FrameTripleAvl(g.balance, a, b, m, d);
    FrameTripleAvl(g.balance, a, b, m, e);
    FrameTripleAvl(g.balance, a, b, m, f);
    FrameTripleAvl(g.balance, a, b, m, h);
    FrameTripleCAvl(g.balance, a, b, m, c, k);
    SharedAvl(g.balance, d, b, e, m, f, a, h);
  }

  lemma PairInside'(e: Tree, m: Node, f: Tree, b: Node, d: Tree)
    ensures b in Nodes(Bin(Bin(e, m, f), b, d)) && m in Nodes(Bin(Bin(e, m, f), b, d))
    ensures Nodes(d) <= Nodes(Bin(Bin(e, m, f), b, d))
    ensures Nodes(e) <= Nodes(Bin(Bin(e, m, f), b, d))
    ensures Nodes(f) <= Nodes(Bin(Bin(e, m, f), b, d))
  {
    assert Nodes(Bin(e, m, f)) == Nodes(e) + {m} + Nodes(f);
  }

  lemma TripleDistinct'(w: Tree, h: Tree, a: Node, e: Tree, m: Node, f: Tree, b: Node, d: Tree)
    requires w == Bin(Bin(e, m, f), b, d)
    requires a !in Nodes(w) && a !in Nodes(h) && Nodes(w) !! Nodes(h)
    ensures a !in Nodes(d) && a !in Nodes(e) && a !in Nodes(f) && a !in Nodes(h)
    ensures b !in Nodes(h) && m !in Nodes(h)
  {
    PairInside'(e, m, f, b, d);
    Elsewhere(w, h, b, m);
  }

  lemma TripleApart'(c: Ctx, h: Tree, a: Node, e: Tree, m: Node, f: Tree, b: Node, d: Tree, header: Node)
    requires Apart(c, Bin(h, a, Bin(Bin(e, m, f), b, d)), header)
    ensures a !in CNodes(c) && b !in CNodes(c) && m !in CNodes(c)
  {
    assert m in Nodes(Bin(e, m, f));
    assert m in Nodes(Bin(Bin(e, m, f), b, d)) && b in Nodes(Bin(Bin(e, m, f), b, d));
  }

  lemma LeanRightLeft(g: Store, c: Ctx, h: Tree, a: Node, e: Tree, m: Node, f: Tree, b: Node, d: Tree, header: Node,
                      k: int)
    requires Linked(g, c, Bin(h, a, Bin(Bin(e, m, f), b, d)), header) && CAvl(g.balance, c, k)
    requires Avl(g.balance, Bin(Bin(e, m, f), b, d)) && Avl(g.balance, Bin(e, m, f)) && Avl(g.balance, h)
    requires Height(Bin(Bin(e, m, f), b, d)) == Height(h) + 2 && g.balance(b) == Negative
    ensures Tilted(AvlRotatedRightLeft(g, a, b, m, header), c, Bin(Bin(h, a, e), m, Bin(f, b, d)), header, k)
    ensures Height(Bin(Bin(h, a, e), m, Bin(f, b, d))) == Height(h) + 2
    ensures AvlRotatedRightLeft(g, a, b, m, header).balance(m) == Zero
  {
    RightLeftFacts(g, c, h, a, e, m, f, b, d, header);
    RightLeftRotatedLinked(g, c, h, a, e, m, f, b, d, header);
    TripleDistinct'(Bin(Bin(e, m, f), b, d), h, a, e, m, f, b, d);
    UnrotatedApart(e, m, f, b, d);
    TripleApart'(c, h, a, e, m, f, b, d, header);
    FrameTripleAvl(g.balance, b, a, m, d);
    FrameTripleAvl(g.balance, b, a, m, e);
    FrameTripleAvl(g.balance, b, a, m, f);
    FrameTripleAvl(g.balance, b, a, m, h);
    FrameTripleCAvl(g.balance, b, a, m, c, k);
    SharedAvl(g.balance, h, a, e, m, f, b, d);
  }

  // ------------------------- a rotation stays inside the tree it is done in

  lemma AvlRotatedLeftLocal(g: Store, p: Node, q: Node, header: Node, s: set<Node>)
    requires p in s && q in s && header !in s && (g.left(q) == null || g.left(q) in s)
    requires g.parent(p) == header || g.parent(p) in s
    ensures Local(g, AvlRotatedLeft(g, p, q, header), s, header)
  {
  }

  lemma AvlRotatedRightLocal(g: Store, p: Node, q: Node, header: Node, s: set<Node>)
    requires p in s && q in s && header !in s && (g.right(q) == null || g.right(q) in s)
    requires g.parent(p) == header || g.parent(p) in s
    ensures Local(g, AvlRotatedRight(g, p, q, header), s, header)
  {
  }

  lemma AvlRotatedLeftRightLocal(g: Store, a: Node, b: Node, m: Node, header: Node, s: set<Node>)
    requires a in s && b in s && m in s && header !in s && b != m
    requires (g.left(m) == null || g.left(m) in s) && (g.right(m) == null || g.right(m) in s)
    requires g.parent(a) == header || g.parent(a) in s
    ensures Local(g, AvlRotatedLeftRight(g, a, b, m, header), s, header)
  {
  }

  lemma AvlRotatedRightLeftLocal(g: Store, a: Node, b: Node, m: Node, header: Node, s: set<Node>)
    requires a in s && b in s && m in s && header !in s && b != m
    requires (g.left(m) == null || g.left(m) in s) && (g.right(m) == null || g.right(m) in s)
    requires g.parent(a) == header || g.parent(a) in s
    ensures Local(g, AvlRotatedRightLeft(g, a, b, m, header), s, header)
  {
  }
}

/** One rotation of a linked, nearly balanced tree: what it keeps and what it restores. */
module AvlTurns {
  import opened TreeNodes
  import opened Rotations
  import opened AvlBalance

  /** The tree with `t` in the hole of `c` holds `s` in order, and nothing else has moved since `g0`. */
  ghost predicate Holds(g0: Store, g: Store, c: Ctx, t: Tree, header: Node, s: seq<Node>, ns: set<Node>)
  {
    InOrder(Plug(c, t)) == s && Nodes(Plug(c, t)) == ns && Local(g0, g, ns, header)
  }

  lemma SetAboveTilted(g: Store, c: Ctx, t: Tree, header: Node, b: Balance, h: int)
    requires !c.Top? && Tilted(g, c, t, header, h)
    requires if c.InLeft? then Fits(b, Height(t), Height(c.right)) else Fits(b, Height(c.left), Height(t))
    ensures Tilted(g.(balance := Put(g.balance, c.node, b)), c.up, Grown(c, t), header, GrownHeight(c, h))
  {
    Refocus(g, c, t, header);
    SetAbove(g.balance, c, t, b, h);
  }

  lemma SetLocal(g0: Store, g: Store, c: Ctx, t: Tree, header: Node, b: Balance, s: seq<Node>, ns: set<Node>)
    requires !c.Top? && Holds(g0, g, c, t, header, s, ns) && c.node != header
    ensures Holds(g0, g.(balance := Put(g.balance, c.node, b)), c.up, Grown(c, t), header, s, ns)
  {
    PlugNodes(c, t);
  }

  /** What a rotation below `c` finds and leaves, as far as the whole tree is concerned. */
  lemma Turned(g0: Store, g: Store, g': Store, c: Ctx, t: Tree, t': Tree, header: Node, s: seq<Node>, ns: set<Node>)
    requires Holds(g0, g, c, t, header, s, ns) && InOrder(t') == InOrder(t) && Nodes(t') == Nodes(t)
    requires Local(g, g', ns, header)
    ensures Holds(g0, g', c, t', header, s, ns)
  {
    PlugSwap(c, t, t');
  }

  /** The links of a linked node lead to known nodes, inside the tree or to the header. */
  lemma LinksKnown(g: Store, c: Ctx, t: Tree, header: Node)
    requires Linked(g, c, t, header) && t.Bin?
    ensures t.node in g.nodes && t.node in Nodes(Plug(c, t)) && header !in Nodes(Plug(c, t)) && header in g.nodes
    ensures Known(g, g.left(t.node)) && (t.left.Bin? ==> t.left.node in Nodes(Plug(c, t)))
    ensures Known(g, g.right(t.node)) && (t.right.Bin? ==> t.right.node in Nodes(Plug(c, t)))
    ensures g.left(t.node) == Root(t.left) && g.right(t.node) == Root(t.right)
    ensures g.parent(t.node) in g.nodes && (g.parent(t.node) == header || g.parent(t.node) in Nodes(Plug(c, t)))
  {
    PlugNodes(c, t);
    assert t.left.Bin? ==> t.left.node in Nodes(t.left);
    assert t.right.Bin? ==> t.right.node in Nodes(t.right);
    assert !c.Top? ==> c.node in CNodes(c);
  }

  lemma SingleTurnOrder(a: Tree, p: Node, b: Tree, q: Node, d: Tree)
    ensures InOrder(Bin(Bin(a, p, b), q, d)) == InOrder(Bin(a, p, Bin(b, q, d)))
    ensures Nodes(Bin(Bin(a, p, b), q, d)) == Nodes(Bin(a, p, Bin(b, q, d)))
  {
    assert InOrder(Bin(b, q, d)) == InOrder(b) + [q] + InOrder(d);
    assert InOrder(Bin(a, p, b)) == InOrder(a) + [p] + InOrder(b);
    assert Nodes(Bin(b, q, d)) == Nodes(b) + {q} + Nodes(d);
    assert Nodes(Bin(a, p, b)) == Nodes(a) + {p} + Nodes(b);
  }

  /** The same, seen from one level below. */
  lemma ChildKnown(g: Store, c: Ctx, t: Tree, header: Node)
    requires !c.Top? && Linked(g, c.up, Grown(c, t), header) && t.Bin?
    ensures t.node in g.nodes && t.node in Nodes(Plug(c, t))
    ensures Known(g, g.left(t.node)) && (t.left.Bin? ==> t.left.node in Nodes(Plug(c, t)))
    ensures Known(g, g.right(t.node)) && (t.right.Bin? ==> t.right.node in Nodes(Plug(c, t)))
    ensures g.left(t.node) == Root(t.left) && g.right(t.node) == Root(t.right)
    ensures Linked(g, c, t, header)
  {
    Refocus(g, c, t, header);
    LinksKnown(g, c, t, header);
  }

  lemma DoubleTurnOrder(d: Tree, b: Node, e: Tree, m: Node, f: Tree, a: Node, h: Tree)
    ensures InOrder(Bin(Bin(d, b, e), m, Bin(f, a, h))) == InOrder(Bin(Bin(d, b, Bin(e, m, f)), a, h))
    ensures Nodes(Bin(Bin(d, b, e), m, Bin(f, a, h))) == Nodes(Bin(Bin(d, b, Bin(e, m, f)), a, h))
    ensures InOrder(Bin(Bin(d, b, e), m, Bin(f, a, h))) == InOrder(Bin(d, b, Bin(Bin(e, m, f), a, h)))
    ensures Nodes(Bin(Bin(d, b, e), m, Bin(f, a, h))) == Nodes(Bin(d, b, Bin(Bin(e, m, f), a, h)))
  {
    SingleTurnOrder(d, b, e, m, f);
    SingleTurnOrder(Bin(d, b, e), m, f, a, h);
    SingleTurnOrder(e, m, f, a, h);
    SingleTurnOrder(d, b, e, m, Bin(f, a, h));
  }

  lemma TurnLeft(g0: Store, g: Store, c: Ctx, a: Tree, p: Node, b: Tree, q: Node, d: Tree, header: Node, h: int,
                 s: seq<Node>, ns: set<Node>)
    requires Linked(g, c, Bin(a, p, Bin(b, q, d)), header) && CAvl(g.balance, c, h)
    requires Avl(g.balance, a) && Avl(g.balance, Bin(b, q, d))
    requires Height(Bin(b, q, d)) == Height(a) + 2 && g.balance(q) != Negative
    requires Holds(g0, g, c, Bin(a, p, Bin(b, q, d)), header, s, ns)
    ensures Tilted(AvlRotatedLeft(g, p, q, header), c, Bin(Bin(a, p, b), q, d), header, h)
    ensures Holds(g0, AvlRotatedLeft(g, p, q, header), c, Bin(Bin(a, p, b), q, d), header, s, ns)
    ensures Height(Bin(Bin(a, p, b), q, d)) == Height(a) + if g.balance(q) == Positive then 2 else 3
    ensures AvlRotatedLeft(g, p, q, header).balance(q) == if g.balance(q) == Positive then Zero else Negative
  {
    LeanLeft(g, c, a, p, b, q, d, header, h);
    SingleTurnOrder(a, p, b, q, d);
    LinksKnown(g, c, Bin(a, p, Bin(b, q, d)), header);
    ChildKnown(g, InRight(c, a, p), Bin(b, q, d), header);
    AvlRotatedLeftLocal(g, p, q, header, ns);
    Turned(g0, g, AvlRotatedLeft(g, p, q, header), c, Bin(a, p, Bin(b, q, d)), Bin(Bin(a, p, b), q, d), header, s, ns);
  }

  lemma TurnRight(g0: Store, g: Store, c: Ctx, a: Tree, q: Node, b: Tree, p: Node, d: Tree, header: Node, h: int,
                  s: seq<Node>, ns: set<Node>)
    requires Linked(g, c, Bin(Bin(a, q, b), p, d), header) && CAvl(g.balance, c, h)
    requires Avl(g.balance, Bin(a, q, b)) && Avl(g.balance, d)
    requires Height(Bin(a, q, b)) == Height(d) + 2 && g.balance(q) != Positive
    requires Holds(g0, g, c, Bin(Bin(a, q, b), p, d), header, s, ns)
    ensures Tilted(AvlRotatedRight(g, p, q, header), c, Bin(a, q, Bin(b, p, d)), header, h)
    ensures Holds(g0, AvlRotatedRight(g, p, q, header), c, Bin(a, q, Bin(b, p, d)), header, s, ns)
    ensures Height(Bin(a, q, Bin(b, p, d))) == Height(d) + if g.balance(q) == Negative then 2 else 3
    ensures AvlRotatedRight(g, p, q, header).balance(q) == if g.balance(q) == Negative then Zero else Positive
  {
    LeanRight(g, c, a, q, b, p, d, header, h);
    SingleTurnOrder(a, q, b, p, d);
    LinksKnown(g, c, Bin(Bin(a, q, b), p, d), header);
    ChildKnown(g, InLeft(c, p, d), Bin(a, q, b), header);
    AvlRotatedRightLocal(g, p, q, header, ns);
    Turned(g0, g, AvlRotatedRight(g, p, q, header), c, Bin(Bin(a, q, b), p, d), Bin(a, q, Bin(b, p, d)), header, s, ns);
  }

  lemma TurnLeftRight(g0: Store, g: Store, c: Ctx, d: Tree, b: Node, e: Tree, m: Node, f: Tree, a: Node, k: Tree,
                      header: Node, h: int, s: seq<Node>, ns: set<Node>)
    requires Linked(g, c, Bin(Bin(d, b, Bin(e, m, f)), a, k), header) && CAvl(g.balance, c, h)
    requires Avl(g.balance, Bin(d, b, Bin(e, m, f))) && Avl(g.balance, k)
    requires Height(Bin(d, b, Bin(e, m, f))) == Height(k) + 2 && g.balance(b) == Positive
    requires Holds(g0, g, c, Bin(Bin(d, b, Bin(e, m, f)), a, k), header, s, ns)
    ensures Tilted(AvlRotatedLeftRight(g, a, b, m, header), c, Bin(Bin(d, b, e), m, Bin(f, a, k)), header, h)
    ensures Holds(g0, AvlRotatedLeftRight(g, a, b, m, header), c, Bin(Bin(d, b, e), m, Bin(f, a, k)), header, s, ns)
    ensures Height(Bin(Bin(d, b, e), m, Bin(f, a, k))) == Height(k) + 2
    ensures AvlRotatedLeftRight(g, a, b, m, header).balance(m) == Zero
  {
    var t, t' := Bin(Bin(d, b, Bin(e, m, f)), a, k), Bin(Bin(d, b, e), m, Bin(f, a, k));
    assert Avl(g.balance, Bin(e, m, f));
    LeanLeftRight(g, c, d, b, e, m, f, a, k, header, h);
    DoubleTurnOrder(d, b, e, m, f, a, k);
    LinksKnown(g, c, t, header);
    ChildKnown(g, InLeft(c, a, k), Bin(d, b, Bin(e, m, f)), header);
    ChildKnown(g, InRight(InLeft(c, a, k), d, b), Bin(e, m, f), header);
    LeftRightFacts(g, c, d, b, e, m, f, a, k, header);
    AvlRotatedLeftRightLocal(g, a, b, m, header, ns);
    Turned(g0, g, AvlRotatedLeftRight(g, a, b, m, header), c, t, t', header, s, ns);
  }

  lemma TurnRightLeft(g0: Store, g: Store, c: Ctx, k: Tree, a: Node, e: Tree, m: Node, f: Tree, b: Node, d: Tree,
                      header: Node, h: int, s: seq<Node>, ns: set<Node>)
    requires Linked(g, c, Bin(k, a, Bin(Bin(e, m, f), b, d)), header) && CAvl(g.balance, c, h)
    requires Avl(g.balance, Bin(Bin(e, m, f), b, d)) && Avl(g.balance, k)
    requires Height(Bin(Bin(e, m, f), b, d)) == Height(k) + 2 && g.balance(b) == Negative
    requires Holds(g0, g, c, Bin(k, a, Bin(Bin(e, m, f), b, d)), header, s, ns)
    ensures Tilted(AvlRotatedRightLeft(g, a, b, m, header), c, Bin(Bin(k, a, e), m, Bin(f, b, d)), header, h)
    ensures Holds(g0, AvlRotatedRightLeft(g, a, b, m, header), c, Bin(Bin(k, a, e), m, Bin(f, b, d)), header, s, ns)
    ensures Height(Bin(Bin(k, a, e), m, Bin(f, b, d))) == Height(k) + 2
    ensures AvlRotatedRightLeft(g, a, b, m, header).balance(m) == Zero
  {
    var t, t' := Bin(k, a, Bin(Bin(e, m, f), b, d)), Bin(Bin(k, a, e), m, Bin(f, b, d));
    assert Avl(g.balance, Bin(e, m, f));
    LeanRightLeft(g, c, k, a, e, m, f, b, d, header, h);
    DoubleTurnOrder(k, a, e, m, f, b, d);
    LinksKnown(g, c, t, header);
    ChildKnown(g, InRight(c, k, a), Bin(Bin(e, m, f), b, d), header);
    ChildKnown(g, InLeft(InRight(c, k, a), b, d), Bin(e, m, f), header);
    RightLeftFacts(g, c, k, a, e, m, f, b, d, header);
    AvlRotatedRightLeftLocal(g, a, b, m, header, ns);
    Turned(g0, g, AvlRotatedRightLeft(g, a, b, m, header), c, t, t', header, s, ns);
  }
}

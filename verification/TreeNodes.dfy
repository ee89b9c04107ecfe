/**
 The nodes of an intrusive binary search tree, and the ghost values that say
 what a set of linked nodes looks like: a tree of nodes, and a tree with a hole.
 */
module TreeNodes {
  import opened Ordering

  datatype Balance = Negative | Zero | Positive

  class Node {
    const key: Key
    var parent: Node?
    var left: Node?
    var right: Node?
    var balance: Balance

    constructor (k: Key)
      ensures key == k && parent == left == right == null
    {
      key := k;
      parent, left, right, balance := null, null, null, Zero;
    }
  }

  // --------------------------------------------------------------- trees

  datatype Tree = Leaf | Bin(left: Tree, node: Node, right: Tree)

  ghost function Root(t: Tree): Node?
  {
    if t.Leaf? then null else t.node
  }

  ghost function Nodes(t: Tree): set<Node>
  {
    if t.Leaf? then {} else Nodes(t.left) + {t.node} + Nodes(t.right)
  }

  ghost function InOrder(t: Tree): seq<Node>
  {
    if t.Leaf? then [] else InOrder(t.left) + [t.node] + InOrder(t.right)
  }

  ghost function Height(t: Tree): nat
  {
    if t.Leaf? then 0
    else 1 + if Height(t.left) > Height(t.right) then Height(t.left) else Height(t.right)
  }

  /** No node occurs twice. */
  ghost predicate Distinct(t: Tree)
  {
    t.Bin? ==>
      && t.node !in Nodes(t.left) && t.node !in Nodes(t.right)
      && Nodes(t.left) !! Nodes(t.right)
      && Distinct(t.left) && Distinct(t.right)
  }

  // ----------------------------------------------- trees with one hole

  datatype Ctx = Top | InLeft(up: Ctx, node: Node, right: Tree) | InRight(up: Ctx, left: Tree, node: Node)

  ghost function Plug(c: Ctx, t: Tree): Tree
  {
    match c
    case Top => t
    case InLeft(up, n, r) => Plug(up, Bin(t, n, r))
    case InRight(up, l, n) => Plug(up, Bin(l, n, t))
  }

  /** The node the hole hangs from; `top` above the root. */
  ghost function CParent(c: Ctx, top: Node): Node
  {
    if c.Top? then top else c.node
  }

  /** The root once `hole` is put in the hole. */
  ghost function CRoot(c: Ctx, hole: Node?): Node?
  {
    if c.Top? then hole else CRoot(c.up, c.node)
  }

  ghost function Side(c: Ctx): Tree
    requires !c.Top?
  {
    if c.InLeft? then c.right else c.left
  }

  ghost function CNodes(c: Ctx): set<Node>
  {
    if c.Top? then {} else CNodes(c.up) + {c.node} + Nodes(Side(c))
  }

  /** What precedes the hole in order. */
  ghost function Before(c: Ctx): seq<Node>
  {
    match c
    case Top => []
    case InLeft(up, n, r) => Before(up)
    case InRight(up, l, n) => Before(up) + InOrder(l) + [n]
  }

  /** What follows the hole in order. */
  ghost function After(c: Ctx): seq<Node>
  {
    match c
    case Top => []
    case InLeft(up, n, r) => [n] + InOrder(r) + After(up)
    case InRight(up, l, n) => After(up)
  }

  ghost predicate CDistinct(c: Ctx)
  {
    !c.Top? ==>
      && c.node !in Nodes(Side(c)) && c.node !in CNodes(c.up)
      && Nodes(Side(c)) !! CNodes(c.up)
      && Distinct(Side(c)) && CDistinct(c.up)
  }

  /** All the nodes of `c` and `t`, and `header`, are different nodes. */
  ghost predicate Apart(c: Ctx, t: Tree, header: Node)
  {
    && CDistinct(c) && Distinct(t) && CNodes(c) !! Nodes(t)
    && header !in CNodes(c) && header !in Nodes(t)
  }

  // ------------------------------------------------- the links of nodes

  type Link = Node -> Node?

  /** What the fields of the nodes of `nodes` hold at one moment. */
  datatype Store = Store(nodes: set<Node>, parent: Link, left: Link, right: Link, balance: Node -> Balance)

  ghost predicate Matches(g: Store)
    reads g.nodes
  {
    && (forall n <- g.nodes :: n.parent == g.parent(n))
    && (forall n <- g.nodes :: n.left == g.left(n))
    && (forall n <- g.nodes :: n.right == g.right(n))
    && (forall n <- g.nodes :: n.balance == g.balance(n))
  }

  ghost predicate Known(g: Store, n: Node?)
  {
    n == null || n in g.nodes
  }

  ghost function Put<T>(f: Node -> T, n: Node, x: T): Node -> T
  {
    (m: Node) => if m == n then x else f(m)
  }

  method SetParent(n: Node, x: Node?, ghost g: Store) returns (ghost g': Store)
    requires Matches(g) && n in g.nodes
    modifies n`parent
    ensures g' == g.(parent := Put(g.parent, n, x)) && Matches(g')
  {
    n.parent := x;
    g' := g.(parent := Put(g.parent, n, x));
  }

  method SetLeft(n: Node, x: Node?, ghost g: Store) returns (ghost g': Store)
    requires Matches(g) && n in g.nodes
    modifies n`left
    ensures g' == g.(left := Put(g.left, n, x)) && Matches(g')
  {
    n.left := x;
    g' := g.(left := Put(g.left, n, x));
  }

  method SetRight(n: Node, x: Node?, ghost g: Store) returns (ghost g': Store)
    requires Matches(g) && n in g.nodes
    modifies n`right
    ensures g' == g.(right := Put(g.right, n, x)) && Matches(g')
  {
    n.right := x;
    g' := g.(right := Put(g.right, n, x));
  }

  method SetBalance(n: Node, b: Balance, ghost g: Store) returns (ghost g': Store)
    requires Matches(g) && n in g.nodes
    modifies n`balance
    ensures g' == g.(balance := Put(g.balance, n, b)) && Matches(g')
  {
    n.balance := b;
    g' := g.(balance := Put(g.balance, n, b));
  }

  /** Marks a node as being in no tree. */
  method Init(n: Node, ghost g: Store) returns (ghost g': Store)
    requires Matches(g) && n in g.nodes
    modifies n
    ensures Matches(g')
    ensures g' == g.(parent := Put(g.parent, n, null), left := Put(g.left, n, null), right := Put(g.right, n, null))
  {
    g' := SetParent(n, null, g);
    g' := SetLeft(n, null, g');
    g' := SetRight(n, null, g');
  }

  /** The left links `L` and the right links `R` draw `t`. */
  ghost predicate Down(L: Link, R: Link, t: Tree)
  {
    t.Bin? ==>
      && L(t.node) == Root(t.left) && R(t.node) == Root(t.right)
      && Down(L, R, t.left) && Down(L, R, t.right)
  }

  /** The parent links `P` draw `t`, hanging from `p`. */
  ghost predicate Up(P: Link, t: Tree, p: Node)
  {
    t.Bin? ==>
      && P(t.node) == p
      && Up(P, t.left, t.node) && Up(P, t.right, t.node)
  }

  ghost predicate CDown(L: Link, R: Link, c: Ctx, hole: Node?)
  {
    !c.Top? ==>
      && L(c.node) == (if c.InLeft? then hole else Root(c.left))
      && R(c.node) == (if c.InRight? then hole else Root(c.right))
      && Down(L, R, Side(c)) && CDown(L, R, c.up, c.node)
  }

  ghost predicate CUp(P: Link, c: Ctx, top: Node)
  {
    !c.Top? ==>
      && P(c.node) == CParent(c.up, top)
      && Up(P, Side(c), c.node) && CUp(P, c.up, top)
  }

  /**
   The header's parent link and the links of all nodes draw `t` in the hole
   of `c`, except that the hole holds `hole` rather than the root of `t`.
   */
  ghost predicate Unhung(g: Store, c: Ctx, t: Tree, header: Node, hole: Node?)
  {
    && Apart(c, t, header)
    && header in g.nodes && CNodes(c) <= g.nodes && Nodes(t) <= g.nodes
    && Down(g.left, g.right, t) && Up(g.parent, t, CParent(c, header))
    && CDown(g.left, g.right, c, hole) && CUp(g.parent, c, header)
    && g.parent(header) == CRoot(c, hole)
  }

  /** The header's parent link and the links of all nodes draw `t` in the hole of `c`. */
  ghost predicate Linked(g: Store, c: Ctx, t: Tree, header: Node)
  {
    Unhung(g, c, t, header, Root(t))
  }

  /** The subtree one step up from the hole of `c`, with `t` in the hole. */
  ghost function Grown(c: Ctx, t: Tree): Tree
    requires !c.Top?
  {
    if c.InLeft? then Bin(t, c.node, c.right) else Bin(c.left, c.node, t)
  }

  /** Where one looks from does not matter. */
  lemma Refocus(g: Store, c: Ctx, t: Tree, header: Node)
    requires !c.Top?
    ensures Linked(g, c, t, header) <==> Linked(g, c.up, Grown(c, t), header)
  {
    assert Nodes(Grown(c, t)) == Nodes(t) + {c.node} + Nodes(Side(c));
    assert CNodes(c) == CNodes(c.up) + {c.node} + Nodes(Side(c));
    assert Distinct(Grown(c, t)) <==>
        c.node !in Nodes(t) && c.node !in Nodes(Side(c)) && Nodes(t) !! Nodes(Side(c)) && Distinct(t)
            && Distinct(Side(c));
    assert Apart(c, t, header) <==> Apart(c.up, Grown(c, t), header);
  }

  lemma {:induction false} PlugLinked(g: Store, c: Ctx, t: Tree, header: Node)
    ensures Linked(g, c, t, header) <==> Linked(g, Top, Plug(c, t), header)
    decreases c
  {
    if !c.Top? {
      Refocus(g, c, t, header);
      PlugLinked(g, c.up, Grown(c, t), header);
    }
  }

  lemma PlugOrder(c: Ctx, t: Tree)
    ensures InOrder(Plug(c, t)) == Before(c) + InOrder(t) + After(c)
    decreases c
  {
    if !c.Top? {
      PlugOrder(c.up, Grown(c, t));
    }
  }

  lemma PlugNodes(c: Ctx, t: Tree)
    ensures Nodes(Plug(c, t)) == CNodes(c) + Nodes(t)
    decreases c
  {
    if !c.Top? {
      PlugNodes(c.up, Grown(c, t));
    }
  }

  lemma PlugSwap(c: Ctx, t: Tree, t': Tree)
    requires InOrder(t') == InOrder(t) && Nodes(t') == Nodes(t)
    ensures InOrder(Plug(c, t')) == InOrder(Plug(c, t)) && Nodes(Plug(c, t')) == Nodes(Plug(c, t))
  {
    PlugOrder(c, t);
    PlugOrder(c, t');
    PlugNodes(c, t);
    PlugNodes(c, t');
  }

  /** Above a hole that is not at the top, the root is a node of the context. */
  lemma RootAbove(c: Ctx, hole: Node?)
    requires !c.Top?
    ensures CRoot(c, hole) != null && CRoot(c, hole) in CNodes(c)
  {
    if !c.up.Top? {
      RootAbove(c.up, c.node);
    }
  }

  lemma AtParent(g: Store, c: Ctx, t: Tree, header: Node)
    requires Linked(g, c, t, header) && t.Bin? && !c.Top?
    ensures g.parent(t.node) == c.node && c.node in g.nodes && t.node in g.nodes && c.node != header
    ensures g.left(c.node) == t.node <==> c.InLeft?
    ensures g.right(c.node) == t.node <==> c.InRight?
    ensures g.parent(header) != t.node
  {
    assert Side(c).Bin? ==> Side(c).node in CNodes(c);
    RootAbove(c, t.node);
  }

  /** Only links and balance factors of `s`, and the parent link of `header`, differ. */
  ghost predicate Local(g: Store, g': Store, s: set<Node>, header: Node)
  {
    && g'.nodes == g.nodes
    && g'.left(header) == g.left(header) && g'.right(header) == g.right(header)
        && g'.balance(header) == g.balance(header)
    && forall n <- g.nodes :: n !in s && n != header ==>
         && g'.parent(n) == g.parent(n) && g'.left(n) == g.left(n)
         && g'.right(n) == g.right(n) && g'.balance(n) == g.balance(n)
  }

  // ------------------------------------------------------------ framing

  lemma FrameDown(L: Link, R: Link, L': Link, R': Link, t: Tree)
    requires Down(L, R, t)
    requires forall n <- Nodes(t) :: L'(n) == L(n) && R'(n) == R(n)
    ensures Down(L', R', t)
  {
  }

  lemma FrameUp(P: Link, P': Link, t: Tree, p: Node)
    requires Up(P, t, p)
    requires forall n <- Nodes(t) :: P'(n) == P(n)
    ensures Up(P', t, p)
  {
  }

  lemma FrameCUp(P: Link, P': Link, c: Ctx, top: Node)
    requires CUp(P, c, top)
    requires forall n <- CNodes(c) :: P'(n) == P(n)
    ensures CUp(P', c, top)
  {
    if !c.Top? {
      FrameUp(P, P', Side(c), c.node);
    }
  }

  lemma FrameCDown(L: Link, R: Link, L': Link, R': Link, c: Ctx, hole: Node?)
    requires CDown(L, R, c, hole)
    requires forall n <- CNodes(c) :: L'(n) == L(n) && R'(n) == R(n)
    ensures CDown(L', R', c, hole)
  {
    if !c.Top? {
      FrameDown(L, R, L', R', Side(c));
    }
  }

  /** A subtree that is hung from another node keeps its own links. */
  lemma Reparent(P: Link, P': Link, t: Tree, p: Node, p': Node)
    requires Up(P, t, p) && Distinct(t)
    requires forall n <- Nodes(t) :: P'(n) == if n == t.node then p' else P(n)
    ensures Up(P', t, p')
  {
    if t.Bin? {
      FrameUp(P, P', t.left, t.node);
      FrameUp(P, P', t.right, t.node);
    }
  }

  /** A context whose hole is filled with another subtree keeps its own links. */
  lemma Rehang(L: Link, R: Link, L': Link, R': Link, c: Ctx, hole: Node?, hole': Node?)
    requires CDown(L, R, c, hole) && CDistinct(c)
    requires forall n <- CNodes(c) :: L'(n) == if c.InLeft? && n == c.node then hole' else L(n)
    requires forall n <- CNodes(c) :: R'(n) == if c.InRight? && n == c.node then hole' else R(n)
    ensures CDown(L', R', c, hole')
  {
    if !c.Top? {
      FrameDown(L, R, L', R', Side(c));
      FrameCDown(L, R, L', R', c.up, c.node);
    }
  }
}

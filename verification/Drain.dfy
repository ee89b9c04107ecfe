/**
 Emptying a tree from the left, one node at a time.  In between the nodes do not form a tree: all that
 is left to rely on is a ladder of parent links from the leftmost node up to the root, with a right
 subtree hanging from every rung.
 */
module Drain {
  import opened TreeNodes
  import opened Rotations
  import opened TreeWalk
  import opened DayStoutWarren

  /** Only left subtrees have been entered. */
  ghost predicate Rungs(c: Ctx)
  {
    !c.Top? ==> c.InLeft? && Rungs(c.up)
  }

  /** The right links lead to the subtrees of the rungs; of the left links of the rungs nothing is said. */
  ghost predicate RungsDown(L: Link, R: Link, c: Ctx)
  {
    c.InLeft? ==> R(c.node) == Root(c.right) && Down(L, R, c.right) && RungsDown(L, R, c.up)
  }

  /** What repeated unlinking keeps: the nodes still to come are those after the hole of `c`. */
  ghost predicate Ladder(g: Store, c: Ctx, header: Node)
  {
    && Rungs(c) && CDistinct(c) && header !in CNodes(c) && header in g.nodes && CNodes(c) <= g.nodes
    && CUp(g.parent, c, header) && RungsDown(g.left, g.right, c)
    && g.parent(header) == CRoot(c, null) && g.left(header) == CParent(c, header)
    && (c.Top? ==> g.right(header) == header)
  }

  /** The rungs of a subtree whose leftmost node comes next. */
  ghost function Descended(c: Ctx, t: Tree): Ctx
    requires t.Bin?
  {
    InLeft(Leftward(c, t), MinNode(t), MinRight(t))
  }

  lemma {:induction false} DescendedOrder(c: Ctx, t: Tree)
    requires t.Bin?
    ensures After(Descended(c, t)) == InOrder(t) + After(c)
    decreases t
  {
    if t.left.Bin? {
      DescendedOrder(InLeft(c, t.node, t.right), t.left);
      assert InOrder(t.left) + ([t.node] + InOrder(t.right) + After(c)) == InOrder(t) + After(c);
    }
  }

  lemma {:induction false} DescendedNodes(c: Ctx, t: Tree)
    requires t.Bin?
    ensures CNodes(Descended(c, t)) == Nodes(t) + CNodes(c)
    ensures Rungs(c) ==> Rungs(Descended(c, t))
    ensures CRoot(Descended(c, t), null) == CRoot(c, t.node)
    decreases t
  {
    if t.left.Bin? {
      DescendedNodes(InLeft(c, t.node, t.right), t.left);
    }
  }

  lemma {:induction false} DescendedApart(c: Ctx, t: Tree)
    requires t.Bin? && CDistinct(c) && Distinct(t) && CNodes(c) !! Nodes(t)
    ensures CDistinct(Descended(c, t))
    decreases t
  {
    if t.left.Bin? {
      var c' := InLeft(c, t.node, t.right);
      assert CNodes(c') == CNodes(c) + {t.node} + Nodes(t.right);
      DescendedApart(c', t.left);
    }
  }

  lemma {:induction false} DescendedLinks(g: Store, c: Ctx, t: Tree, header: Node)
    requires t.Bin? && Down(g.left, g.right, t) && Up(g.parent, t, CParent(c, header))
    requires CUp(g.parent, c, header) && RungsDown(g.left, g.right, c)
    ensures CUp(g.parent, Descended(c, t), header) && RungsDown(g.left, g.right, Descended(c, t))
    decreases t
  {
    if t.left.Bin? {
      DescendedLinks(g, InLeft(c, t.node, t.right), t.left, header);
    }
  }

  /** A valid tree can be emptied. */
  lemma LadderStart(g: Store, t: Tree, header: Node)
    requires Valid(g, t, header)
    ensures var c := if t.Leaf? then Top else Descended(Top, t);
      Ladder(g, c, header) && After(c) == InOrder(t) && CNodes(c) == Nodes(t)
  {
    if t.Bin? {
      DescendedOrder(Top, t);
      DescendedNodes(Top, t);
      DescendedApart(Top, t);
      DescendedLinks(g, Top, t, header);
      MinFacts(t);
    }
  }

  /** `x` is one of the rungs. */
  ghost predicate Rung(c: Ctx, x: Node)
  {
    c.InLeft? && (c.node == x || Rung(c.up, x))
  }

  lemma {:induction false} RungInside(c: Ctx, x: Node)
    requires Rung(c, x)
    ensures x in CNodes(c)
  {
    if c.node != x {
      RungInside(c.up, x);
    }
  }

  /** The root is a rung, and does not depend on what is in the hole. */
  lemma {:induction false} RootOfRungs(c: Ctx, hole: Node?)
    requires c.InLeft? && Rungs(c)
    ensures CRoot(c, hole) == CRoot(c, null) != null && Rung(c, CRoot(c, null))
  {
    if !c.up.Top? {
      RootOfRungs(c.up, c.node);
    }
  }

  /** The left link of a rung does not matter. */
  lemma {:induction false} FrameRungsDown(L: Link, R: Link, L': Link, c: Ctx, x: Node)
    requires RungsDown(L, R, c) && CDistinct(c) && (x !in CNodes(c) || Rung(c, x))
    requires forall n <- CNodes(c) :: n != x ==> L'(n) == L(n)
    ensures RungsDown(L', R, c)
    decreases c
  {
    if c.InLeft? {
      if x in CNodes(c) && x != c.node {
        RungInside(c.up, x);
      }
      FrameRungsDown(L, R, L', c.up, x);
      FrameDown(L, R, L', R, c.right);
    }
  }

  // ------------------------------------------------------------- one step

  /** The leftmost node has a right subtree, which moves up to the next rung, or to the header. */
  ghost function RightMovedUp(g: Store, c: Ctx, header: Node): Store
    requires c.InLeft? && c.right.Bin?
  {
    var r := c.right;
    var P, L := Put(g.parent, r.node, CParent(c.up, header)), Put(g.left, header, MinNode(r));
    if c.up.Top? || P(header) == null then g.(parent := Put(P, header, r.node), left := L)
    else g.(parent := P, left := Put(L, P(header), r.node))
  }

  lemma RightMovedUpLinks(g: Store, c: Ctx, header: Node)
    requires Ladder(g, c, header) && c.InLeft? && c.right.Bin?
    ensures var g', r := RightMovedUp(g, c, header), c.right;
      && Down(g'.left, g'.right, r) && Up(g'.parent, r, CParent(c.up, header))
      && CUp(g'.parent, c.up, header) && RungsDown(g'.left, g'.right, c.up)
  {
    var g', r, up := RightMovedUp(g, c, header), c.right, c.up;
    assert r.node in Nodes(r) && Rungs(up);
    var x := if up.Top? then header else CRoot(up, null);
    if !up.Top? {
      RootOfRungs(up, null);
      RootOfRungs(up, c.node);
      RungInside(up, x);
    }
    Reparent(g.parent, g'.parent, r, c.node, CParent(up, header));
    FrameCUp(g.parent, g'.parent, up, header);
    FrameDown(g.left, g.right, g'.left, g'.right, r);
    FrameRungsDown(g.left, g.right, g'.left, up, x);
  }

  lemma RightMovedUpLadder(g: Store, c: Ctx, header: Node)
    requires Ladder(g, c, header) && c.InLeft? && c.right.Bin?
    ensures Ladder(RightMovedUp(g, c, header), Descended(c.up, c.right), header)
  {
    var g', r, up := RightMovedUp(g, c, header), c.right, c.up;
    RightMovedUpLinks(g, c, header);
    DescendedLinks(g', up, r, header);
    DescendedNodes(up, r);
    DescendedApart(up, r);
    assert r.node in Nodes(r);
    if !up.Top? {
      RootOfRungs(up, c.node);
      RootOfRungs(up, r.node);
      RootAbove(up, r.node);
    }
  }

  lemma RungGoneLadder(g: Store, c: Ctx, header: Node)
    requires Ladder(g, c, header) && c.InLeft? && c.right.Leaf? && !c.up.Top?
    ensures Ladder(g.(left := Put(Put(g.left, c.up.node, null), header, c.up.node)), c.up, header)
  {
    var L := Put(Put(g.left, c.up.node, null), header, c.up.node);
    assert Rungs(c.up) && c.up.node in CNodes(c.up) && Rung(c.up, c.up.node);
    FrameRungsDown(g.left, g.right, L, c.up, c.up.node);
    RootOfRungs(c.up, c.node);
  }

  lemma LadderLooks(g: Store, c: Ctx, header: Node)
    requires Ladder(g, c, header)
    ensures c.Top? <==> g.left(header) == header
    ensures c.InLeft? ==>
      && c.node in g.nodes && c.node != header && g.parent(c.node) == CParent(c.up, header)
          && CParent(c.up, header) in g.nodes
      && (CParent(c.up, header) == header <==> c.up.Top?)
      && g.right(c.node) == Root(c.right) && Known(g, Root(c.right)) && Root(c.right) != header
    ensures c.InLeft? && !c.up.Top? ==>
        g.parent(header) != null && g.parent(header) in g.nodes && g.parent(header) != header
  {
    assert !c.Top? ==> c.node in CNodes(c);
    assert c.InLeft? && !c.up.Top? ==> c.up.node in CNodes(c.up) && c.up.node in CNodes(c);
    assert c.InLeft? && c.right.Bin? ==> c.right.node in Nodes(c.right) && c.right.node in CNodes(c);
    if !c.Top? {
      RootAbove(c, null);
    }
  }

  /** The leftmost node has been taken off the ladder. */
  ghost predicate Popped(g': Store, c: Ctx, c': Ctx, header: Node)
  {
    && !c.Top? && Ladder(g', c', header) && c.node !in CNodes(c')
    && After(c) != [] && After(c)[0] == c.node && After(c') == After(c)[1..]
  }

  lemma MovedUpPopped(g: Store, c: Ctx, header: Node)
    requires Ladder(g, c, header) && c.InLeft? && c.right.Bin?
    ensures Popped(RightMovedUp(g, c, header), c, Descended(c.up, c.right), header)
  {
    RungFirst(c);
    LadderOwn(g, c, header);
    hide RightMovedUp, Descended, Ladder, After, InOrder, CNodes, Nodes;
    RightMovedUpLadder(g, c, header);
    DescendedOrder(c.up, c.right);
    DescendedNodes(c.up, c.right);
  }

  lemma RungFirst(c: Ctx)
    requires c.InLeft?
    ensures After(c) != [] && After(c)[0] == c.node && After(c)[1..] == InOrder(c.right) + After(c.up)
  {
  }

  lemma LadderOwn(g: Store, c: Ctx, header: Node)
    requires Ladder(g, c, header) && c.InLeft?
    ensures c.node !in CNodes(c.up) && c.node !in Nodes(c.right)
  {
  }

  /** The leftmost node has nothing on its right. */
  method TakeRung(header: Node, leftmostParent: Node, ghost g: Store, ghost c: Ctx) returns (ghost g': Store)
    requires Matches(g) && Ladder(g, c, header) && c.InLeft? && c.right.Leaf? && !c.up.Top?
        && leftmostParent == c.up.node
    modifies g.nodes
    ensures Matches(g') && g'.nodes == g.nodes && Popped(g', c, c.up, header)
  {
    LadderLooks(g, c, header);
    RungGoneLadder(g, c, header);
    g' := SetLeft(leftmostParent, null, g);
    g' := SetLeft(header, leftmostParent, g');
  }

  /** The leftmost node is all there is. */
  method TakeLast(header: Node, ghost g: Store, ghost c: Ctx) returns (ghost g': Store)
    requires Matches(g) && Ladder(g, c, header) && c.InLeft? && c.right.Leaf? && c.up.Top?
    modifies g.nodes
    ensures Matches(g') && g'.nodes == g.nodes && Popped(g', c, Top, header)
  {
    g' := SetParent(header, null, g);
    g' := SetLeft(header, header, g');
    g' := SetRight(header, header, g');
  }

  method UnlinkLeftmostWithoutRebalance(header: Node, ghost g: Store, ghost c: Ctx)
    returns (n: Node?, ghost g': Store, ghost c': Ctx)
    requires Matches(g) && Ladder(g, c, header)
    modifies g.nodes
    ensures Matches(g') && g'.nodes == g.nodes
    ensures n == null <==> c.Top?
    ensures n == null ==> g' == g && c' == c && Emptied(g', header)
    ensures n != null ==> n == c.node && Popped(g', c, c', header)
  {
    LadderLooks(g, c, header);
    var leftmost := header.left;
    g', c' := g, c;
    if leftmost == header {
      return null, g', c';
    }
    var leftmostParent := leftmost.parent;
    var leftmostRight := leftmost.right;
    var isRoot := leftmostParent == header;
    if leftmostRight != null {
      g' := MoveRightUp(header, leftmostParent, leftmostRight, isRoot, g, c);
      MovedUpPopped(g, c, header);
      c' := Descended(c.up, c.right);
    } else if isRoot {
      g' := TakeLast(header, g, c);
      c' := Top;
    } else {
      g' := TakeRung(header, leftmostParent, g, c);
      c' := c.up;
    }
    n := leftmost;
  }

  ghost predicate Emptied(g: Store, header: Node)
  {
    g.parent(header) == null && g.left(header) == header && g.right(header) == header
  }

  method MoveRightUp(header: Node, leftmostParent: Node, leftmostRight: Node, isRoot: bool, ghost g: Store,
                     ghost c: Ctx)
    returns (ghost g': Store)
    requires Matches(g) && Ladder(g, c, header) && c.InLeft? && c.right.Bin? && leftmostRight == c.right.node
    requires leftmostParent == CParent(c.up, header) && isRoot == c.up.Top?
    modifies g.nodes
    ensures Matches(g') && g' == RightMovedUp(g, c, header)
  {
    LadderLooks(g, c, header);
    g' := SetParent(leftmostRight, leftmostParent, g);
    var first := Minimum(leftmostRight, g', c.right);
    g' := SetLeft(header, first, g');
    if isRoot {
      g' := SetParent(header, leftmostRight, g');
    } else {
      g' := SetLeft(header.parent, leftmostRight, g');
    }
  }

  lemma HeadMoves(a: seq<Node>, b: seq<Node>)
    requires b != []
    ensures (a + [b[0]]) + b[1..] == a + b
  {
  }

  /** Step by step destruction, as a caller does it: every node comes out once, in order, until none is left. */
  method Destroy(header: Node, ghost g: Store, ghost t: Tree) returns (removed: seq<Node>, ghost g': Store)
    requires Matches(g) && Valid(g, t, header)
    modifies g.nodes
    ensures Matches(g') && removed == InOrder(t) && Emptied(g', header)
  {
    LadderStart(g, t, header);
    ghost var c := if t.Leaf? then Top else Descended(Top, t);
    ghost var todo, s := After(c), InOrder(t);
    removed, g' := [], g;
    while true
      invariant Matches(g') && g'.nodes == g.nodes && Ladder(g', c, header)
      invariant removed + todo == s && todo == After(c)
      decreases |todo|
    {
      var n;
      n, g', c := UnlinkLeftmostWithoutRebalance(header, g', c);
      if n == null {
        break;
      }
      HeadMoves(removed, todo);
      var first: Node := n;
      removed, todo := removed + [first], todo[1..];
    }
  }

  // ----------------------------------------------------- disposing at once

  /** `n` is in no tree. */
  ghost predicate Inited(g: Store, n: Node)
  {
    g.parent(n) == null && g.left(n) == null && g.right(n) == null
  }

  /** The nodes still to be disposed of, drawn by their left and right links alone. */
  ghost predicate Disposing(g0: Store, g: Store, t: Tree, gone: set<Node>, ns: set<Node>)
  {
    && Distinct(t) && Down(g.left, g.right, t) && Nodes(t) <= g.nodes && gone !! Nodes(t) && gone + Nodes(t) == ns
    && (forall n <- gone :: Inited(g, n))
    && g.nodes == g0.nodes && g.balance == g0.balance && SameOutside(g0, g, ns)
  }

  ghost function TurnedOver(g: Store, x: Node, save: Node): Store
  {
    g.(left := Put(g.left, x, g.right(save)), right := Put(g.right, save, x))
  }

  lemma DisposeTurn(g0: Store, g: Store, a: Tree, q: Node, b: Tree, p: Node, d: Tree, gone: set<Node>, ns: set<Node>)
    requires Disposing(g0, g, Bin(Bin(a, q, b), p, d), gone, ns)
    ensures Disposing(g0, TurnedOver(g, p, q), Bin(a, q, Bin(b, p, d)), gone, ns)
  {
    var t := Bin(Bin(a, q, b), p, d);
    assert Down(g.left, g.right, t.left) && g.right(q) == Root(b);
    UnrotatedApart(a, q, b, p, d);
    RightRotatedDown(g, a, q, b, p, d);
    assert p in Nodes(t) && q in Nodes(t.left) && q in Nodes(t);
  }

  lemma DisposeFirst(g0: Store, g: Store, t: Tree, gone: set<Node>, ns: set<Node>)
    requires Disposing(g0, g, t, gone, ns) && t.Bin? && t.left.Leaf?
    ensures var n := t.node;
      Disposing(g0, g.(parent := Put(g.parent, n, null), left := Put(g.left, n, null), right := Put(g.right, n, null)),
                t.right, gone + {n}, ns)
  {
    FrameDown(g.left, g.right, Put(g.left, t.node, null), Put(g.right, t.node, null), t.right);
  }

  /** One turn of the loop: a rotation while there is something on the left, else the first node goes. */
  method DisposeTurned(x: Node, save: Node, ghost g: Store) returns (ghost g': Store)
    requires Matches(g) && x in g.nodes && save in g.nodes && x != save
    modifies g.nodes
    ensures Matches(g') && g' == TurnedOver(g, x, save)
  {
    g' := SetLeft(x, save.right, g);
    g' := SetRight(save, x, g');
  }

  lemma DisposeKnown(g0: Store, g: Store, t: Tree, gone: set<Node>, ns: set<Node>)
    requires Disposing(g0, g, t, gone, ns) && t.Bin?
    ensures t.node in g.nodes && g.left(t.node) == Root(t.left) && g.right(t.node) == Root(t.right)
    ensures t.left.Bin? ==> t.left.node in g.nodes && t.left.node != t.node && Spine(t) > 0
  {
    assert t.left.Bin? ==> t.left.node in Nodes(t.left);
  }

  /** Every node of the subtree is handed to the disposer once, in order and in no tree any more. */
  method DisposeSubtree(x0: Node?, ghost g0: Store, ghost t0: Tree) returns (disposed: seq<Node>, ghost g: Store)
    requires Matches(g0) && x0 == Root(t0) && Distinct(t0) && Down(g0.left, g0.right, t0) && Nodes(t0) <= g0.nodes
    modifies g0.nodes
    ensures Matches(g) && g.nodes == g0.nodes && disposed == InOrder(t0)
    ensures (forall n <- Nodes(t0) :: Inited(g, n)) && SameOutside(g0, g, Nodes(t0)) && g.balance == g0.balance
  {
    disposed, g := [], g0;
    var x := x0;
    ghost var t: Tree, gone: set<Node>, todo := t0, {}, InOrder(t0);
    while x != null
      invariant Matches(g) && Disposing(g0, g, t, gone, Nodes(t0)) && x == Root(t)
      invariant todo == InOrder(t) && disposed + todo == InOrder(t0)
      decreases Todo(t)
    {
      DisposeKnown(g0, g, t, gone, Nodes(t0));
      var save := x.left;
      if save != null {
        DisposeTurn(g0, g, t.left.left, save, t.left.right, x, t.right, gone, Nodes(t0));
        TodoTurn(t.left.left, save, t.left.right, x, t.right);
        UnrotatedOrder(t.left.left, save, t.left.right, x, t.right);
        g := DisposeTurned(x, save, g);
        t := Bin(t.left.left, save, Bin(t.left.right, x, t.right));
      } else {
        DisposeFirst(g0, g, t, gone, Nodes(t0));
        TodoDown(t);
        MinFacts(t);
        HeadMoves(disposed, todo);
        save := x.right;
        g := Init(x, g);
        var n: Node := x;
        disposed, todo := disposed + [n], todo[1..];
        t, gone := t.right, gone + {n};
      }
      x := save;
    }
  }

  /** The whole tree is disposed of, and its header is that of an empty tree. */
  method ClearAndDispose(header: Node, ghost g0: Store, ghost t0: Tree) returns (disposed: seq<Node>, ghost g: Store)
    requires Matches(g0) && Valid(g0, t0, header)
    modifies g0.nodes
    ensures Matches(g) && g.nodes == g0.nodes && disposed == InOrder(t0) && Valid(g, Leaf, header)
    ensures (forall n <- Nodes(t0) :: Inited(g, n)) && SameOutside(g0, g, Nodes(t0) + {header})
        && g.balance == g0.balance
  {
    hide *;
    disposed, g := [], g0;
    TreeKnown(g0, t0, header);
    var sourceRoot := header.parent;
    if sourceRoot != null {
      disposed, g := DisposeSubtree(sourceRoot, g0, t0);
      ghost var g1 := g;
      g := ClearHeader(header, g);
      AllCleared(g0, g1, g, t0, header);
    }
  }

  lemma TreeKnown(g: Store, t: Tree, header: Node)
    requires Matches(g) && Valid(g, t, header)
    ensures header in g.nodes && header !in Nodes(t) && header.parent == Root(t)
    ensures Distinct(t) && Down(g.left, g.right, t) && Nodes(t) <= g.nodes
    ensures Root(t) == null ==>
        t == Leaf && InOrder(t) == [] && Nodes(t) == {} && SameOutside(g, g, Nodes(t) + {header})
  {
  }

  lemma AllCleared(g0: Store, g1: Store, g: Store, t: Tree, header: Node)
    requires g1.nodes == g0.nodes && (forall n <- Nodes(t) :: Inited(g1, n)) && SameOutside(g0, g1, Nodes(t))
        && header !in Nodes(t)
    requires g == g1.(parent := Put(g1.parent, header, null), left := Put(g1.left, header, header),
                      right := Put(g1.right, header, header))
    ensures (forall n <- Nodes(t) :: Inited(g, n)) && SameOutside(g0, g, Nodes(t) + {header})
  {
  }

  method ClearHeader(header: Node, ghost g: Store) returns (ghost g': Store)
    requires Matches(g) && header in g.nodes
    modifies header
    ensures Matches(g') && Valid(g', Leaf, header)
    ensures g' == g.(parent := Put(g.parent, header, null), left := Put(g.left, header, header),
                     right := Put(g.right, header, header))
  {
    g' := SetParent(header, null, g);
    g' := SetLeft(header, header, g');
    g' := SetRight(header, header, g');
  }
}

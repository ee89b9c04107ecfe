/** Rebalancing a subtree by flattening it into a vine and compressing the vine again. */
module DayStoutWarren {
  import opened Division
  import opened TreeNodes
  import opened Rotations
  import opened TreeWalk

  // ------------------------------------------------- the shapes of the trees

  /** Every node hangs to the right of the one before. */
  ghost predicate Vine(t: Tree)
  {
    t.Bin? ==> t.left.Leaf? && Vine(t.right)
  }

  ghost function Spine(t: Tree): nat
  {
    if t.Leaf? then 0 else 1 + Spine(t.right)
  }

  /** The first `d` levels are full. */
  ghost predicate LevelsFull(t: Tree, d: nat)
  {
    d > 0 ==> t.Bin? && LevelsFull(t.left, d - 1) && LevelsFull(t.right, d - 1)
  }

  /** Only level `d`, the last one, may have gaps. */
  ghost predicate FullBut(t: Tree, d: nat)
  {
    LevelsFull(t, d) && Height(t) <= d + 1
  }

  lemma {:induction false} FullButSize(t: Tree, d: nat)
    ensures LevelsFull(t, d) ==> Pow2(d) - 1 <= |InOrder(t)| && Height(t) >= d
    ensures LevelsFull(t, d) && Height(t) > d ==> Pow2(d) <= |InOrder(t)|
    ensures Height(t) <= d ==> |InOrder(t)| <= Pow2(d) - 1
  {
    if t.Bin? && d > 0 {
      FullButSize(t.left, d - 1);
      FullButSize(t.right, d - 1);
    }
  }

  /** One level less would not have room for that many nodes. */
  ghost predicate Lowest(t: Tree)
  {
    t.Bin? ==> Pow2(Height(t) - 1) <= |InOrder(t)|
  }

  lemma FullButLowest(t: Tree, d: nat)
    requires FullBut(t, d)
    ensures Lowest(t)
  {
    FullButSize(t, d);
  }

  /** No tree of as many nodes is lower. */
  lemma LowestIsLeast(t: Tree, s: Tree)
    requires Lowest(t) && |InOrder(s)| >= |InOrder(t)|
    ensures Height(t) <= Height(s)
  {
    if Height(s) < Height(t) {
      FullButSize(s, Height(t) - 1);
    }
  }

  /** `k` rotations to the left along the right spine. */
  ghost function Compress(t: Tree, k: nat): Tree
    requires Spine(t) >= 2 * k
    decreases k
  {
    if k == 0 then t
    else
      assert Spine(t.right) >= 2 * k - 1;
      Bin(Bin(t.left, t.node, t.right.left), t.right.node, Compress(t.right.right, k - 1))
  }

  /** `v` spine nodes, each with a subtree full but for level `d`, and after them one more such subtree. */
  ghost predicate Ready(t: Tree, v: nat, d: nat)
  {
    if v == 0 then FullBut(t, d) else t.Bin? && FullBut(t.left, d) && Ready(t.right, v - 1, d)
  }

  lemma {:induction false} ReadySpine(t: Tree, v: nat, d: nat)
    requires Ready(t, v, d)
    ensures Spine(t) >= v
  {
    if v > 0 {
      ReadySpine(t.right, v - 1, d);
    }
  }

  /** Compressing `k` of `2 * k + 1` spine nodes makes the subtrees one level higher. */
  lemma {:induction false} CompressReady(t: Tree, k: nat, d: nat)
    requires Ready(t, 2 * k + 1, d)
    ensures Spine(t) >= 2 * k && Ready(Compress(t, k), k, d + 1)
    decreases k
  {
    ReadySpine(t, 2 * k + 1, d);
    if k > 0 {
      var r := t.right;
      assert Ready(r, 2 * k, d) && Ready(r.right, 2 * (k - 1) + 1, d);
      CompressReady(r.right, k - 1, d);
      assert FullBut(Bin(t.left, t.node, r.left), d + 1);
    }
  }

  lemma {:induction false} VineSpine(t: Tree)
    requires Vine(t)
    ensures Spine(t) == |InOrder(t)|
  {
    if t.Bin? {
      VineSpine(t.right);
    }
  }

  /** The first compression puts the nodes of the last level in place. */
  lemma {:induction false} CompressVine(t: Tree, k: nat)
    requires Vine(t) && Spine(t) >= 2 * k
    ensures Ready(Compress(t, k), Spine(t) - k, 0)
    decreases t
  {
    if k > 0 {
      CompressVine(t.right.right, k - 1);
      assert FullBut(Bin(Leaf, t.node, Leaf), 0);
    } else if t.Bin? {
      CompressVine(t.right, 0);
    }
  }

  lemma {:induction false} CompressOrder(t: Tree, k: nat)
    requires Spine(t) >= 2 * k
    ensures InOrder(Compress(t, k)) == InOrder(t) && Nodes(Compress(t, k)) == Nodes(t)
        && Spine(Compress(t, k)) == Spine(t) - k
    decreases k
  {
    if k > 0 {
      var r := t.right;
      CompressOrder(r.right, k - 1);
      assert InOrder(r) == InOrder(r.left) + [r.node] + InOrder(r.right);
      assert Nodes(r) == Nodes(r.left) + {r.node} + Nodes(r.right);
      assert InOrder(Bin(t.left, t.node, r.left)) == InOrder(t.left) + [t.node] + InOrder(r.left);
    }
  }

  // ---------------------------------------------- a tree under a false root

  /** `t` in the hole of `c` hangs from `sup` as a right subtree; of the parent links nothing is said. */
  ghost predicate Hung(g: Store, c: Ctx, t: Tree, sup: Node)
  {
    && Apart(c, t, sup) && sup in g.nodes && CNodes(c) <= g.nodes && Nodes(t) <= g.nodes
    && Down(g.left, g.right, t) && CDown(g.left, g.right, c, Root(t)) && g.right(sup) == CRoot(c, Root(t))
  }

  /** Only right subtrees have been entered. */
  ghost predicate Chain(c: Ctx)
  {
    !c.Top? ==> c.InRight? && Chain(c.up)
  }

  /** Links and balance factors are those of `g` but for the nodes of `ns` and the right link of `sup`. */
  ghost predicate Confined(g: Store, g': Store, ns: set<Node>, sup: Node)
  {
    && g'.nodes == g.nodes && g'.balance == g.balance && g'.left(sup) == g.left(sup) && g'.parent(sup) == g.parent(sup)
    && forall n <- g.nodes :: n !in ns && n != sup ==>
         g'.left(n) == g.left(n) && g'.right(n) == g.right(n) && g'.parent(n) == g.parent(n)
  }

  lemma HungRefocus(g: Store, c: Ctx, t: Tree, sup: Node)
    requires !c.Top?
    ensures Hung(g, c, t, sup) <==> Hung(g, c.up, Grown(c, t), sup)
  {
    assert Nodes(Grown(c, t)) == Nodes(t) + {c.node} + Nodes(Side(c));
    assert CNodes(c) == CNodes(c.up) + {c.node} + Nodes(Side(c));
    assert Distinct(Grown(c, t)) <==>
        c.node !in Nodes(t) && c.node !in Nodes(Side(c)) && Nodes(t) !! Nodes(Side(c)) && Distinct(t)
            && Distinct(Side(c));
    assert Apart(c, t, sup) <==> Apart(c.up, Grown(c, t), sup);
  }

  lemma {:induction false} HungPlug(g: Store, c: Ctx, t: Tree, sup: Node)
    ensures Hung(g, c, t, sup) <==> Hung(g, Top, Plug(c, t), sup)
    decreases c
  {
    if !c.Top? {
      HungRefocus(g, c, t, sup);
      HungPlug(g, c.up, Grown(c, t), sup);
    }
  }

  /** Hanging another subtree below the end of a chain. */
  lemma Rehung(g: Store, L: Link, R: Link, P: Link, c: Ctx, t: Tree, t': Tree, sup: Node)
    requires Hung(g, c, t, sup) && Chain(c) && Apart(c, t', sup) && Nodes(t') <= g.nodes
    requires Down(L, R, t')
    requires forall n <- CNodes(c) :: L(n) == g.left(n) && (n != CParent(c, sup) ==> R(n) == g.right(n))
    requires R(CParent(c, sup)) == Root(t') && (!c.Top? ==> R(sup) == g.right(sup))
    ensures Hung(g.(left := L, right := R, parent := P), c, t', sup)
  {
    assert !c.Top? ==> c.node in CNodes(c);
    Rehang(g.left, g.right, L, R, c, Root(t), Root(t'));
  }

  // ------------------------------------------------------ from tree to vine

  /** Only right subtrees have been entered, and nothing was found on the left. */
  ghost predicate Vined(c: Ctx)
  {
    !c.Top? ==> c.InRight? && c.left.Leaf? && Vined(c.up)
  }

  lemma {:induction false} VinedFacts(c: Ctx, t: Tree)
    requires Vined(c)
    ensures Chain(c) && After(c) == [] && (Vine(t) ==> Vine(Plug(c, t)))
    decreases c
  {
    if !c.Top? {
      VinedFacts(c.up, Grown(c, t));
    }
  }

  ghost function VineTurned(g: Store, tail: Node, p: Node, q: Node): Store
  {
    g.(left := Put(g.left, p, g.right(q)), right := Put(Put(g.right, q, p), tail, q))
  }

  lemma VineTurnedHung(g: Store, c: Ctx, a: Tree, q: Node, b: Tree, p: Node, d: Tree, sup: Node)
    requires Hung(g, c, Bin(Bin(a, q, b), p, d), sup) && Chain(c)
    ensures Hung(VineTurned(g, CParent(c, sup), p, q), c, Bin(a, q, Bin(b, p, d)), sup)
  {
    var t, tail := Bin(Bin(a, q, b), p, d), CParent(c, sup);
    assert Down(g.left, g.right, t.left) && g.right(q) == Root(b);
    UnrotatedApart(a, q, b, p, d);
    RightRotatedDown(g, a, q, b, p, d);
    var L, R := Put(g.left, p, Root(b)), Put(Put(g.right, q, p), tail, q);
    assert !c.Top? ==> c.node in CNodes(c);
    FrameDown(L, Put(g.right, q, p), L, R, Bin(a, q, Bin(b, p, d)));
    Rehung(g, L, R, g.parent, c, t, Bin(a, q, Bin(b, p, d)), sup);
  }

  /** What the loop that flattens the tree keeps. */
  ghost predicate Flattening(g0: Store, g: Store, c: Ctx, t: Tree, sup: Node, s: seq<Node>, ns: set<Node>)
  {
    && Hung(g, c, t, sup) && Vined(c) && InOrder(Plug(c, t)) == s && Nodes(Plug(c, t)) == ns
    && g.parent == g0.parent && Confined(g0, g, ns, sup)
  }

  lemma FlattenDown(g0: Store, g: Store, c: Ctx, t: Tree, sup: Node, s: seq<Node>, ns: set<Node>)
    requires Flattening(g0, g, c, t, sup, s, ns) && t.Bin? && t.left.Leaf?
    ensures Flattening(g0, g, InRight(c, Leaf, t.node), t.right, sup, s, ns)
  {
    HungRefocus(g, InRight(c, Leaf, t.node), t.right, sup);
  }

  lemma FlattenKnown(g: Store, c: Ctx, t: Tree, sup: Node)
    requires Hung(g, c, t, sup) && t.Bin?
    ensures t.node in g.nodes && CParent(c, sup) in g.nodes
    ensures g.left(t.node) == Root(t.left) && g.right(t.node) == Root(t.right)
    ensures t.left.Bin? ==>
        t.left.node in g.nodes && t.left.node != t.node && g.right(t.left.node) == Root(t.left.right)
  {
    assert !c.Top? ==> c.node in CNodes(c);
    assert t.left.Bin? ==> t.left.node in Nodes(t.left);
    assert Down(g.left, g.right, t.left);
  }

  lemma ConfinedTurn(g0: Store, g: Store, c: Ctx, t: Tree, sup: Node, ns: set<Node>)
    requires Hung(g, c, t, sup) && t.Bin? && t.left.Bin? && Nodes(Plug(c, t)) == ns && Confined(g0, g, ns, sup)
    ensures Confined(g0, VineTurned(g, CParent(c, sup), t.node, t.left.node), ns, sup)
  {
    hide Hung, Plug;
    PlugNodes(c, t);
    assert t.node in Nodes(t) && t.left.node in Nodes(t.left) && t.left.node in Nodes(t);
    assert !c.Top? ==> c.node in CNodes(c);
    HungApart(g, c, t, sup);
    TurnConfined(g0, g, CParent(c, sup), t.node, t.left.node, sup, ns);
  }

  lemma TurnConfined(g0: Store, g: Store, tail: Node, p: Node, q: Node, sup: Node, ns: set<Node>)
    requires Confined(g0, g, ns, sup) && p in ns && q in ns && (tail == sup || tail in ns) && sup !in ns
    ensures Confined(g0, VineTurned(g, tail, p, q), ns, sup)
  {
  }

  lemma HungApart(g: Store, c: Ctx, t: Tree, sup: Node)
    requires Hung(g, c, t, sup)
    ensures sup !in Nodes(t) && sup !in CNodes(c)
  {
  }

  lemma FlattenTurn(g0: Store, g: Store, c: Ctx, t: Tree, sup: Node, s: seq<Node>, ns: set<Node>)
    requires Flattening(g0, g, c, t, sup, s, ns) && t.Bin? && t.left.Bin?
    ensures var l := t.left;
      Flattening(g0, VineTurned(g, CParent(c, sup), t.node, l.node), c,
                 Bin(l.left, l.node, Bin(l.right, t.node, t.right)), sup, s, ns)
  {
    var l := t.left;
    VinedFacts(c, t);
    VineTurnedHung(g, c, l.left, l.node, l.right, t.node, t.right, sup);
    ConfinedTurn(g0, g, c, t, sup, ns);
    UnrotatedOrder(l.left, l.node, l.right, t.node, t.right);
    PlugSwap(c, t, Bin(l.left, l.node, Bin(l.right, t.node, t.right)));
  }

  lemma UnrotatedOrder(a: Tree, q: Node, b: Tree, p: Node, d: Tree)
    ensures InOrder(Bin(a, q, Bin(b, p, d))) == InOrder(Bin(Bin(a, q, b), p, d))
    ensures Nodes(Bin(a, q, Bin(b, p, d))) == Nodes(Bin(Bin(a, q, b), p, d))
  {
    assert InOrder(Bin(b, p, d)) == InOrder(b) + [p] + InOrder(d);
    assert InOrder(Bin(a, q, b)) == InOrder(a) + [q] + InOrder(b);
    assert Nodes(Bin(b, p, d)) == Nodes(b) + {p} + Nodes(d);
    assert Nodes(Bin(a, q, b)) == Nodes(a) + {q} + Nodes(b);
  }

  lemma {:induction false} SpineBound(t: Tree)
    ensures Spine(t) <= |InOrder(t)|
  {
    if t.Bin? {
      SpineBound(t.right);
    }
  }

  /** How many turns of the loop are left at most. */
  ghost function Todo(t: Tree): nat
  {
    SpineBound(t);
    2 * |InOrder(t)| - Spine(t)
  }

  lemma TodoDown(t: Tree)
    requires t.Bin? && t.left.Leaf?
    ensures Todo(t.right) < Todo(t)
  {
  }

  lemma TodoTurn(a: Tree, q: Node, b: Tree, p: Node, d: Tree)
    ensures Todo(Bin(a, q, Bin(b, p, d))) < Todo(Bin(Bin(a, q, b), p, d))
  {
    UnrotatedOrder(a, q, b, p, d);
    assert Spine(Bin(b, p, d)) == 1 + Spine(d);
  }

  /** A rotation to the right at the end of the vine that leaves all parent links as they are. */
  method TurnVine(vineTail: Node, remainder: Node, temp: Node, ghost g: Store) returns (ghost g': Store)
    requires Matches(g) && vineTail in g.nodes && remainder in g.nodes && temp in g.nodes && temp != remainder
    modifies g.nodes
    ensures Matches(g') && g' == VineTurned(g, vineTail, remainder, temp)
  {
    g' := SetLeft(remainder, temp.right, g);
    g' := SetRight(temp, remainder, g');
    g' := SetRight(vineTail, temp, g');
  }

  method SubtreeToVine(sup: Node, ghost g0: Store, ghost t0: Tree) returns (size: nat, ghost g: Store, ghost t': Tree)
    requires Matches(g0) && Hung(g0, Top, t0, sup)
    modifies g0.nodes
    ensures Matches(g) && Hung(g, Top, t', sup) && Vine(t')
    ensures InOrder(t') == InOrder(t0) && Nodes(t') == Nodes(t0) && size == |InOrder(t0)|
    ensures g.parent == g0.parent && Confined(g0, g, Nodes(t0), sup)
  {
    g := g0;
    ghost var c, t, s, ns := Top, t0, InOrder(t0), Nodes(t0);
    size := 0;
    var vineTail := sup;
    var remainder := vineTail.right;
    while remainder != null
      invariant Matches(g) && Flattening(g0, g, c, t, sup, s, ns)
      invariant vineTail == CParent(c, sup) && remainder == Root(t) && size == |Before(c)|
      decreases Todo(t)
    {
      FlattenKnown(g, c, t, sup);
      var temp := remainder.left;
      if temp == null {
        FlattenDown(g0, g, c, t, sup, s, ns);
        TodoDown(t);
        c, t := InRight(c, Leaf, t.node), t.right;
        vineTail := remainder;
        remainder := remainder.right;
        size := size + 1;
      } else {
        FlattenTurn(g0, g, c, t, sup, s, ns);
        TodoTurn(t.left.left, temp, t.left.right, remainder, t.right);
        t := Bin(t.left.left, temp, Bin(t.left.right, remainder, t.right));
        g := TurnVine(vineTail, remainder, temp, g);
        remainder := temp;
      }
    }
    t' := Plug(c, Leaf);
    VinedFacts(c, Leaf);
    HungPlug(g, c, Leaf, sup);
    PlugOrder(c, Leaf);
  }

  // ------------------------------------------------------ from vine to tree

  /** The parent links are right except that those of the spine nodes themselves may be stale. */
  ghost predicate SpineUp(P: Link, t: Tree)
  {
    t.Bin? ==> Up(P, t.left, t.node) && SpineUp(P, t.right)
  }

  ghost predicate ChainUp(P: Link, c: Ctx)
  {
    c.InRight? ==> Up(P, c.left, c.node) && ChainUp(P, c.up)
  }

  lemma FrameSpineUp(P: Link, P': Link, t: Tree)
    requires SpineUp(P, t)
    requires forall n <- Nodes(t) :: P'(n) == P(n)
    ensures SpineUp(P', t)
  {
    if t.Bin? {
      FrameUp(P, P', t.left, t.node);
    }
  }

  lemma FrameChainUp(P: Link, P': Link, c: Ctx)
    requires ChainUp(P, c)
    requires forall n <- CNodes(c) :: P'(n) == P(n)
    ensures ChainUp(P', c)
  {
    if c.InRight? {
      FrameUp(P, P', c.left, c.node);
    }
  }

  lemma {:induction false} PlugSpineUp(P: Link, c: Ctx, t: Tree)
    requires ChainUp(P, c) && Chain(c) && SpineUp(P, t)
    ensures SpineUp(P, Plug(c, t))
    decreases c
  {
    if !c.Top? {
      PlugSpineUp(P, c.up, Grown(c, t));
    }
  }

  /** In a vine there is nothing but the spine. */
  lemma {:induction false} VineUp(P: Link, t: Tree)
    requires Vine(t)
    ensures SpineUp(P, t)
  {
    if t.Bin? {
      VineUp(P, t.right);
    }
  }

  /** One rotation to the left: `y` takes the place of `x`, whose own subtree it takes over from the left. */
  ghost function SpineTurned(g: Store, scanner: Node, x: Node, y: Node): Store
  {
    var m := g.left(y);
    g.(left := Put(g.left, y, x), right := Put(Put(g.right, scanner, y), x, m),
       parent := Put(if m == null then g.parent else Put(g.parent, m, x), x, y))
  }

  lemma SpineTurnedDown(g: Store, c: Ctx, a: Tree, x: Node, b: Tree, y: Node, d: Tree, sup: Node)
    requires Hung(g, c, Bin(a, x, Bin(b, y, d)), sup) && Chain(c)
    ensures var g' := SpineTurned(g, CParent(c, sup), x, y);
        Down(g'.left, g'.right, Bin(Bin(a, x, b), y, d)) && g.left(y) == Root(b)
  {
    hide CDown, Plug, InOrder;
    var g', t := SpineTurned(g, CParent(c, sup), x, y), Bin(a, x, Bin(b, y, d));
    assert Down(g.left, g.right, t.right) && g.left(y) == Root(b);
    RotatedApart(a, x, b, y, d);
    LeftRotatedDown(g, a, x, b, y, d);
    assert !c.Top? ==> c.node in CNodes(c);
    FrameDown(Put(g.left, y, x), Put(g.right, x, Root(b)), g'.left, g'.right, Bin(Bin(a, x, b), y, d));
  }

  lemma SpineTurnedHung(g: Store, c: Ctx, a: Tree, x: Node, b: Tree, y: Node, d: Tree, sup: Node)
    requires Hung(g, c, Bin(a, x, Bin(b, y, d)), sup) && Chain(c)
    ensures Hung(SpineTurned(g, CParent(c, sup), x, y), c, Bin(Bin(a, x, b), y, d), sup)
  {
    hide Plug, InOrder;
    var t, t', scanner := Bin(a, x, Bin(b, y, d)), Bin(Bin(a, x, b), y, d), CParent(c, sup);
    var g' := SpineTurned(g, scanner, x, y);
    SpineTurnedDown(g, c, a, x, b, y, d, sup);
    RotatedApart(a, x, b, y, d);
    assert !c.Top? ==> c.node in CNodes(c);
    Rehung(g, g'.left, g'.right, g'.parent, c, t, t', sup);
  }

  lemma SpineTurnedUp(g: Store, scanner: Node, a: Tree, x: Node, b: Tree, y: Node, d: Tree)
    requires Distinct(Bin(a, x, Bin(b, y, d))) && g.left(y) == Root(b)
    requires SpineUp(g.parent, Bin(a, x, Bin(b, y, d)))
    ensures Up(SpineTurned(g, scanner, x, y).parent, Bin(a, x, b), y)
        && SpineUp(SpineTurned(g, scanner, x, y).parent, d)
  {
    var P := SpineTurned(g, scanner, x, y).parent;
    RotatedApart(a, x, b, y, d);
    assert SpineUp(g.parent, Bin(b, y, d));
    FrameUp(g.parent, P, a, x);
    Reparent(g.parent, P, b, y, x);
    FrameSpineUp(g.parent, P, d);
  }

  lemma SpineTurnedChain(g: Store, c: Ctx, a: Tree, x: Node, b: Tree, y: Node, d: Tree, sup: Node)
    requires Apart(c, Bin(a, x, Bin(b, y, d)), sup) && ChainUp(g.parent, c) && g.left(y) == Root(b)
    ensures ChainUp(SpineTurned(g, CParent(c, sup), x, y).parent, c)
  {
    assert b.Bin? ==> b.node in Nodes(b) && b.node in Nodes(Bin(b, y, d));
    FrameChainUp(g.parent, SpineTurned(g, CParent(c, sup), x, y).parent, c);
  }

  lemma ConfinedSpineTurn(g0: Store, g: Store, scanner: Node, x: Node, y: Node, sup: Node, ns: set<Node>)
    requires Confined(g0, g, ns, sup) && x in ns && y in ns && (scanner == sup || scanner in ns) && sup !in ns
    requires g.left(y) == null || g.left(y) in ns
    ensures Confined(g0, SpineTurned(g, scanner, x, y), ns, sup)
  {
  }

  lemma SpineInside(c: Ctx, t: Tree, sup: Node)
    requires Apart(c, t, sup) && t.Bin? && t.right.Bin?
    ensures var ns, r := Nodes(Plug(c, t)), t.right;
      && t.node in ns && r.node in ns && (CParent(c, sup) == sup || CParent(c, sup) in ns) && sup !in ns
      && (r.left.Bin? ==> r.left.node in ns)
  {
    PlugNodes(c, t);
    var r := t.right;
    assert r.left.Bin? ==> r.left.node in Nodes(r.left) && r.left.node in Nodes(r);
    assert r.node in Nodes(r) && Nodes(r) <= Nodes(t);
    assert !c.Top? ==> c.node in CNodes(c);
  }

  /** What the compressing loop keeps. */
  ghost predicate Compressing(g0: Store, g: Store, c: Ctx, t: Tree, k: nat, whole: Tree, sup: Node, ns: set<Node>)
  {
    && Hung(g, c, t, sup) && Chain(c) && ChainUp(g.parent, c) && SpineUp(g.parent, t)
    && Spine(t) >= 2 * k && Plug(c, Compress(t, k)) == whole
    && Nodes(Plug(c, t)) == ns && Confined(g0, g, ns, sup)
  }

  lemma CompressUnfold(t: Tree, k: nat)
    requires Spine(t) >= 2 * k && k > 0
    ensures t.Bin? && t.right.Bin? && Spine(t.right) > 0 && Spine(t.right.right) >= 2 * (k - 1)
    ensures Compress(t, k) ==
      Bin(Bin(t.left, t.node, t.right.left), t.right.node, Compress(t.right.right, k - 1))
  {
    assert Spine(t) == 1 + Spine(t.right);
    assert Spine(t.right) == 1 + Spine(t.right.right);
  }

  lemma HungParts(g: Store, c: Ctx, t: Tree, sup: Node)
    requires Hung(g, c, t, sup) && t.Bin? && t.right.Bin?
    ensures Apart(c, t, sup) && Distinct(t) && g.left(t.right.node) == Root(t.right.left)
  {
    assert Down(g.left, g.right, t.right);
  }

  lemma CompressOnce(g0: Store, g: Store, c: Ctx, t: Tree, k: nat, whole: Tree, sup: Node, ns: set<Node>)
    requires Compressing(g0, g, c, t, k, whole, sup, ns) && k > 0
    ensures Spine(t.right) > 0
    ensures var r := t.right;
      Compressing(g0, SpineTurned(g, CParent(c, sup), t.node, r.node), InRight(c, Bin(t.left, t.node, r.left), r.node),
                  r.right,
                  k - 1, whole, sup, ns)
  {
    hide Down, Up, CDown, CUp, Hung, Apart, Distinct, Confined, SpineTurned, Spine, Compress, Nodes, CNodes;
    CompressUnfold(t, k);
    HungParts(g, c, t, sup);
    var r := t.right;
    assert t == Bin(t.left, t.node, Bin(r.left, r.node, r.right));
    var g', c' := SpineTurned(g, CParent(c, sup), t.node, r.node), InRight(c, Bin(t.left, t.node, r.left), r.node);
    SpineTurnedHung(g, c, t.left, t.node, r.left, r.node, r.right, sup);
    SpineTurnedUp(g, CParent(c, sup), t.left, t.node, r.left, r.node, r.right);
    SpineTurnedChain(g, c, t.left, t.node, r.left, r.node, r.right, sup);
    SpineInside(c, t, sup);
    ConfinedSpineTurn(g0, g, CParent(c, sup), t.node, r.node, sup, ns);
    HungRefocus(g', c', r.right, sup);
    RotatedNodes(t.left, t.node, r.left, r.node, r.right);
    PlugNodes(c, t);
    PlugNodes(c, Grown(c', r.right));
  }

  lemma RotatedNodes(a: Tree, x: Node, b: Tree, y: Node, d: Tree)
    ensures Nodes(Bin(Bin(a, x, b), y, d)) == Nodes(Bin(a, x, Bin(b, y, d)))
  {
    assert Nodes(Bin(b, y, d)) == Nodes(b) + {y} + Nodes(d);
    assert Nodes(Bin(a, x, b)) == Nodes(a) + {x} + Nodes(b);
  }

  lemma CompressKnown(g: Store, c: Ctx, t: Tree, sup: Node)
    requires Hung(g, c, t, sup) && t.Bin? && t.right.Bin?
    ensures t.node in g.nodes && CParent(c, sup) in g.nodes && t.right.node in g.nodes
    ensures g.right(CParent(c, sup)) == t.node && g.right(t.node) == t.right.node
        && g.left(t.right.node) == Root(t.right.left)
    ensures Known(g, Root(t.right.left)) && CParent(c, sup) != t.node && CParent(c, sup) != t.right.node
        && t.node != t.right.node
    requires Chain(c)
  {
    assert !c.Top? ==> c.node in CNodes(c);
    assert t.right.node in Nodes(t.right);
    assert Down(g.left, g.right, t.right);
    assert t.right.left.Bin? ==> t.right.left.node in Nodes(t.right.left) && t.right.left.node in Nodes(t.right);
  }

  /** The body of the compressing loop. */
  method TurnSpine(scanner: Node, child: Node, childRight: Node, ghost g: Store) returns (ghost g': Store)
    requires Matches(g) && scanner in g.nodes && child in g.nodes && childRight in g.nodes
    requires Known(g, childRight.left) && scanner != child && scanner != childRight && child != childRight
    modifies g.nodes
    ensures Matches(g') && g' == SpineTurned(g, scanner, child, childRight)
  {
    g' := SetRight(scanner, childRight, g);
    var scannerLeft := childRight.left;
    g' := SetRight(child, scannerLeft, g');
    if scannerLeft != null {
      g' := SetParent(scannerLeft, child, g');
    }
    g' := SetLeft(childRight, child, g');
    g' := SetParent(child, childRight, g');
  }

  lemma CompressParts(g0: Store, g: Store, c: Ctx, t: Tree, k: nat, whole: Tree, sup: Node, ns: set<Node>)
    requires Compressing(g0, g, c, t, k, whole, sup, ns) && k > 0
    ensures Hung(g, c, t, sup) && Chain(c) && t.Bin? && t.right.Bin?
    ensures CParent(InRight(c, Bin(t.left, t.node, t.right.left), t.right.node), sup) == t.right.node
  {
    hide Hung, Chain, ChainUp, SpineUp, Confined, Compress, Plug, Nodes;
    CompressUnfold(t, k);
  }

  method CompressStep(scanner: Node, k: nat, ghost g0: Store, ghost g: Store, ghost c: Ctx, ghost t: Tree,
                      ghost whole: Tree, ghost sup: Node, ghost ns: set<Node>)
    returns (next: Node, k': nat, ghost g': Store, ghost c': Ctx, ghost t': Tree)
    requires Matches(g) && Compressing(g0, g, c, t, k, whole, sup, ns) && k > 0 && scanner == CParent(c, sup)
    modifies g.nodes
    ensures Matches(g') && k' == k - 1 && Compressing(g0, g', c', t', k', whole, sup, ns) && next == CParent(c', sup)
  {
    hide Compressing, Hung, SpineTurned, Nodes, Chain;
    k' := k - 1;
    CompressParts(g0, g, c, t, k, whole, sup, ns);
    CompressOnce(g0, g, c, t, k, whole, sup, ns);
    CompressKnown(g, c, t, sup);
    var child := scanner.right;
    var childRight := child.right;
    g' := TurnSpine(scanner, child, childRight, g);
    next := childRight;
    c', t' := InRight(c, Bin(t.left, t.node, t.right.left), t.right.node), t.right.right;
  }

  lemma CompressEnd(g0: Store, g: Store, c: Ctx, t: Tree, whole: Tree, sup: Node, ns: set<Node>)
    requires Compressing(g0, g, c, t, 0, whole, sup, ns)
    ensures Hung(g, Top, whole, sup) && SpineUp(g.parent, whole) && Confined(g0, g, ns, sup)
  {
    HungPlug(g, c, t, sup);
    PlugSpineUp(g.parent, c, t);
  }

  method CompressSubtree(sup: Node, count0: nat, ghost g0: Store, ghost t0: Tree) returns (ghost g: Store)
    requires Matches(g0) && Hung(g0, Top, t0, sup) && SpineUp(g0.parent, t0) && Spine(t0) >= 2 * count0
    modifies g0.nodes
    ensures Matches(g) && Hung(g, Top, Compress(t0, count0), sup) && SpineUp(g.parent, Compress(t0, count0))
    ensures Confined(g0, g, Nodes(t0), sup)
  {
    g := g0;
    ghost var c, t, whole := Top, t0, Compress(t0, count0);
    var scanner, count := sup, count0;
    while count > 0
      invariant Matches(g) && Compressing(g0, g, c, t, count, whole, sup, Nodes(t0)) && scanner == CParent(c, sup)
      decreases count
    {
      scanner, count, g, c, t := CompressStep(scanner, count, g0, g, c, t, whole, sup, Nodes(t0));
    }
    CompressEnd(g0, g, c, t, whole, sup, Nodes(t0));
  }

  // ------------------------------------------------------------ the whole

  function FloorLog2(n: nat): (k: nat)
    requires n > 0
    ensures Pow2(k) <= n < 2 * Pow2(k)
  {
    if n == 1 then 0 else 1 + FloorLog2(n / 2)
  }

  /** The parent links of the spine nodes above the hole are right again. */
  ghost predicate Fixing(g0: Store, g: Store, c: Ctx, t: Tree, sup: Node, ns: set<Node>)
  {
    && Hung(g, c, t, sup) && Chain(c) && CUp(g.parent, c, sup) && SpineUp(g.parent, t)
    && Nodes(Plug(c, t)) == ns && Confined(g0, g, ns, sup)
  }

  lemma FixOne(g0: Store, g: Store, c: Ctx, t: Tree, sup: Node, ns: set<Node>)
    requires Fixing(g0, g, c, t, sup, ns) && t.Bin?
    ensures Fixing(g0, g.(parent := Put(g.parent, t.node, CParent(c, sup))), InRight(c, t.left, t.node), t.right, sup,
                   ns)
  {
    var P := Put(g.parent, t.node, CParent(c, sup));
    FrameCUp(g.parent, P, c, sup);
    FrameUp(g.parent, P, t.left, t.node);
    FrameSpineUp(g.parent, P, t.right);
    HungRefocus(g.(parent := P), InRight(c, t.left, t.node), t.right, sup);
    PlugNodes(c, t);
  }

  lemma {:induction false} PlugUp(P: Link, c: Ctx, t: Tree, top: Node)
    requires Up(P, t, CParent(c, top)) && CUp(P, c, top)
    ensures Up(P, Plug(c, t), top)
    decreases c
  {
    if !c.Top? {
      PlugUp(P, c.up, Grown(c, t), top);
    }
  }

  /** The last pass: every node that still is on the spine gets its parent link back. */
  method FixParents(sup: Node, ghost g0: Store, ghost t0: Tree) returns (ghost g: Store)
    requires Matches(g0) && Hung(g0, Top, t0, sup) && SpineUp(g0.parent, t0)
    modifies g0.nodes
    ensures Matches(g) && Hung(g, Top, t0, sup) && Up(g.parent, t0, sup) && Confined(g0, g, Nodes(t0), sup)
  {
    g := g0;
    ghost var c, t := Top, t0;
    var q := sup;
    var p := sup.right;
    while p != null
      invariant Matches(g) && Fixing(g0, g, c, t, sup, Nodes(t0)) && Plug(c, t) == t0
      invariant q == CParent(c, sup) && p == Root(t)
      decreases t
    {
      FixOne(g0, g, c, t, sup, Nodes(t0));
      g := SetParent(p, q, g);
      c, t := InRight(c, t.left, t.node), t.right;
      q := p;
      p := p.right;
    }
    HungPlug(g, c, t, sup);
    PlugUp(g.parent, c, t, sup);
  }

  /** One less than a power of two. */
  ghost predicate OnesOnly(v: nat)
  {
    v > 0 ==> v % 2 == 1 && OnesOnly(v / 2)
  }

  lemma {:induction false} OnesBelowPow2(k: nat)
    ensures OnesOnly(Pow2(k) - 1)
  {
    if k > 0 {
      OnesBelowPow2(k - 1);
      assert (2 * Pow2(k - 1) - 1) / 2 == Pow2(k - 1) - 1;
    }
  }

  /** What the loop over the compressions keeps. */
  ghost predicate Shrinking(g0: Store, g: Store, t: Tree, v: nat, sup: Node, s: seq<Node>, ns: set<Node>)
  {
    && Hung(g, Top, t, sup) && SpineUp(g.parent, t) && Confined(g0, g, ns, sup)
    && InOrder(t) == s && Nodes(t) == ns && OnesOnly(v) && exists d: nat :: Ready(t, v, d)
  }

  lemma Halve(t: Tree, v: nat)
    requires v > 1 && OnesOnly(v) && exists d: nat :: Ready(t, v, d)
    ensures Spine(t) >= 2 * (v / 2) && exists d: nat :: Ready(Compress(t, v / 2), v / 2, d)
  {
    var d: nat :| Ready(t, v, d);
    assert v == 2 * (v / 2) + 1;
    CompressReady(t, v / 2, d);
  }

  lemma ConfinedChain(g0: Store, g1: Store, g2: Store, ns: set<Node>, sup: Node)
    requires Confined(g0, g1, ns, sup) && Confined(g1, g2, ns, sup)
    ensures Confined(g0, g2, ns, sup)
  {
  }

  /** The vine becomes a tree all of whose levels but the last are full. */
  method VineToSubtree(sup: Node, count: nat, ghost g0: Store, ghost t0: Tree) returns (ghost g: Store, ghost t: Tree)
    requires Matches(g0) && Hung(g0, Top, t0, sup) && Vine(t0) && count == |InOrder(t0)| > 0
    modifies g0.nodes
    ensures Matches(g) && Hung(g, Top, t, sup) && Up(g.parent, t, sup) && Confined(g0, g, Nodes(t0), sup)
    ensures InOrder(t) == InOrder(t0) && Nodes(t) == Nodes(t0) && exists d: nat :: FullBut(t, d)
  {
    var leafNodes := count + 1 - Pow2(FloorLog2(count + 1));
    VineUp(g0.parent, t0);
    VineSpine(t0);
    CompressVine(t0, leafNodes);
    CompressOrder(t0, leafNodes);
    OnesBelowPow2(FloorLog2(count + 1));
    g := CompressSubtree(sup, leafNodes, g0, t0);
    t := Compress(t0, leafNodes);
    var vineNodes: nat := count - leafNodes;
    while vineNodes > 1
      invariant Matches(g) && Shrinking(g0, g, t, vineNodes, sup, InOrder(t0), Nodes(t0)) && vineNodes > 0
      decreases vineNodes
    {
      Halve(t, vineNodes);
      CompressOrder(t, vineNodes / 2);
      vineNodes := vineNodes / 2;
      ghost var g1 := g;
      g := CompressSubtree(sup, vineNodes, g1, t);
      t := Compress(t, vineNodes);
      ConfinedChain(g0, g1, g, Nodes(t0), sup);
    }
    AllFull(t, vineNodes);
    ghost var g1 := g;
    g := FixParents(sup, g1, t);
    ConfinedChain(g0, g1, g, Nodes(t0), sup);
  }

  lemma AllFull(t: Tree, v: nat)
    requires v == 1 && exists d: nat :: Ready(t, v, d)
    ensures exists d: nat :: FullBut(t, d)
  {
    var d: nat :| Ready(t, v, d);
    assert Ready(t.right, 0, d);
    assert FullBut(t, d + 1);
  }

  // -------------------------------------------- wherever the subtree hangs

  /** The false root: the parent, or the header, with the subtree hung to its right for a while. */
  lemma FalseRoot(g: Store, c: Ctx, t: Tree, header: Node)
    requires Linked(g, c, t, header) && t.Bin?
    ensures var sup := CParent(c, header);
      && t.node in g.nodes && sup in g.nodes && header in g.nodes && g.parent(t.node) == sup
      && (g.parent(sup) == t.node <==> c.Top?) && (!c.Top? ==> (g.right(sup) == t.node <==> c.InRight?))
      && Hung(g.(right := Put(g.right, sup, t.node)), Top, t, sup)
  {
    var sup := CParent(c, header);
    assert !c.Top? ==> c.node in CNodes(c);
    assert t.node in Nodes(t);
    if !c.Top? {
      AtParent(g, c, t, header);
      assert !c.up.Top? ==> c.up.node in CNodes(c.up);
    }
    FrameDown(g.left, g.right, g.left, Put(g.right, sup, t.node), t);
  }

  /** Everything but the subtree and the link to it is as before. */
  ghost predicate OnlySubtree(g: Store, g': Store, ns: set<Node>, sup: Node, header: Node)
  {
    && g'.nodes == g.nodes && g'.balance == g.balance && g'.left(header) == g.left(header)
        && g'.right(header) == g.right(header)
    && (sup != header ==> g'.parent(sup) == g.parent(sup))
    && forall n <- g.nodes :: n !in ns && n != sup ==>
         g'.left(n) == g.left(n) && g'.right(n) == g.right(n) && g'.parent(n) == g.parent(n)
  }

  lemma Rerooted(g: Store, g3: Store, c: Ctx, t: Tree, t': Tree, header: Node)
    requires Linked(g, c, t, header) && t.Bin? && Nodes(t') == Nodes(t)
    requires var sup := CParent(c, header);
      && Hung(g3, Top, t', sup) && Up(g3.parent, t', sup)
          && Confined(g.(right := Put(g.right, sup, t.node)), g3, Nodes(t), sup)
    ensures var sup := CParent(c, header);
      var g' := ChildSet(g3.(right := Put(g3.right, sup, g.right(sup))), header, Root(t'), sup, c.InLeft?);
      Linked(g', c, t', header) && OnlySubtree(g, g', Nodes(t), sup, header)
  {
    var sup := CParent(c, header);
    var g4 := g3.(right := Put(g3.right, sup, g.right(sup)));
    assert !c.Top? ==> c.node in CNodes(c) && c.node != header;
    FrameDown(g3.left, g3.right, g4.left, g4.right, t');
    Replant(g, g4, c, t, t', header, Nodes(t));
    Hang(g4, c, t', header, Root(t), c.InLeft?);
  }

  /** Puts the link to the subtree, and the one that made room for it, right again. */
  method RecoverRoot(superRoot: Node, rightBackup: Node?, superRootIsHeader: bool, oldRootIsRight: bool,
                     ghost g: Store, ghost c: Ctx, ghost t: Tree, ghost header: Node)
    returns (newRoot: Node, ghost g': Store)
    requires Matches(g) && superRoot in g.nodes && superRoot == CParent(c, header) && (!c.Top? ==> c.node != header)
    requires superRootIsHeader == c.Top? && (!c.Top? ==> oldRootIsRight == c.InRight?)
    requires t.Bin? && g.right(superRoot) == t.node
    modifies g.nodes
    ensures Matches(g') && newRoot == t.node
    ensures g'.nodes == g.nodes && g'.balance == g.balance
    ensures var g1 := ChildSet(g.(right := Put(g.right, superRoot, rightBackup)), header, t.node, superRoot, c.InLeft?);
      SameOutside(g1, g', {}) && g1.nodes == g.nodes && g1.balance == g.balance
  {
    newRoot := superRoot.right;
    if superRootIsHeader {
      g' := SetRight(superRoot, rightBackup, g);
      g' := SetParent(superRoot, newRoot, g');
    } else if oldRootIsRight {
      g' := SetRight(superRoot, newRoot, g);
    } else {
      g' := SetRight(superRoot, rightBackup, g);
      g' := SetLeft(superRoot, newRoot, g');
    }
  }

  lemma Recovered(g: Store, g3: Store, g': Store, c: Ctx, t: Tree, t': Tree, header: Node)
    requires Linked(g, c, t, header) && t.Bin? && t'.Bin? && Nodes(t') == Nodes(t) && g'.nodes == g.nodes
        && g'.balance == g.balance
    requires var sup := CParent(c, header);
      && Hung(g3, Top, t', sup) && Up(g3.parent, t', sup)
          && Confined(g.(right := Put(g.right, sup, t.node)), g3, Nodes(t), sup)
      && SameOutside(ChildSet(g3.(right := Put(g3.right, sup, g.right(sup))), header, t'.node, sup, c.InLeft?), g', {})
    ensures Linked(g', c, t', header) && OnlySubtree(g, g', Nodes(t), CParent(c, header), header)
  {
    var sup := CParent(c, header);
    Rerooted(g, g3, c, t, t', header);
    var g1 := ChildSet(g3.(right := Put(g3.right, sup, g.right(sup))), header, t'.node, sup, c.InLeft?);
    FrameLinked(g1, g', c, t', header, {});
  }

  /** Rebalances the subtree `t0` wherever it hangs: the same nodes in the same order, all levels but the last full. */
  method RebalanceSubtree(oldRoot: Node, ghost g: Store, ghost c: Ctx, ghost t0: Tree, ghost header: Node)
    returns (newRoot: Node, ghost g': Store, ghost t': Tree)
    requires Matches(g) && Linked(g, c, t0, header) && t0.Bin? && oldRoot == t0.node
    modifies g.nodes
    ensures Matches(g') && Linked(g', c, t', header) && newRoot == Root(t')
    ensures InOrder(t') == InOrder(t0) && Nodes(t') == Nodes(t0) && Lowest(t') && exists d: nat :: FullBut(t', d)
    ensures OnlySubtree(g, g', Nodes(t0), CParent(c, header), header)
  {
    FalseRoot(g, c, t0, header);
    var superRoot := oldRoot.parent;
    var rightBackup := superRoot.right;
    var superRootIsHeader := superRoot.parent == oldRoot;
    var oldRootIsRight := oldRoot.parent.right == oldRoot;
    ghost var g1 := SetRight(superRoot, oldRoot, g);
    g', t' := Reshape(superRoot, g1, t0);
    ghost var g3 := g';
    newRoot, g' := RecoverRoot(superRoot, rightBackup, superRootIsHeader, oldRootIsRight, g3, c, t', header);
    Recovered(g, g3, g', c, t0, t', header);
    SomeLowest(t');
  }

  lemma SomeLowest(t: Tree)
    requires exists d: nat :: FullBut(t, d)
    ensures Lowest(t)
  {
    var d: nat :| FullBut(t, d);
    FullButLowest(t, d);
  }

  method Reshape(superRoot: Node, ghost g: Store, ghost t0: Tree) returns (ghost g': Store, ghost t': Tree)
    requires Matches(g) && Hung(g, Top, t0, superRoot) && t0.Bin?
    modifies g.nodes
    ensures Matches(g') && Hung(g', Top, t', superRoot) && Up(g'.parent, t', superRoot) && t'.Bin?
    ensures Confined(g, g', Nodes(t0), superRoot)
    ensures InOrder(t') == InOrder(t0) && Nodes(t') == Nodes(t0) && exists d: nat :: FullBut(t', d)
  {
    var size;
    ghost var g1, v;
    size, g1, v := SubtreeToVine(superRoot, g, t0);
    g', t' := VineToSubtree(superRoot, size, g1, v);
    ConfinedChain(g, g1, g', Nodes(t0), superRoot);
  }

  /** Rebalances the whole tree. */
  method Rebalance(header: Node, ghost g: Store, ghost t: Tree) returns (ghost g': Store, ghost t': Tree)
    requires Matches(g) && Valid(g, t, header)
    modifies g.nodes
    ensures Matches(g') && Valid(g', t', header) && InOrder(t') == InOrder(t) && Nodes(t') == Nodes(t)
    ensures Lowest(t') && exists d: nat :: FullBut(t', d)
  {
    g', t' := g, t;
    var root := header.parent;
    if root != null {
      var newRoot;
      newRoot, g', t' := RebalanceSubtree(root, g, Top, t, header);
    } else {
      assert FullBut(t, 0);
    }
  }
}

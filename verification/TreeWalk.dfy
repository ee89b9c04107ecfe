/** Walking a linked tree: extremes, neighbours and the header. */
module TreeWalk {
  import opened TreeNodes

  /** The header's left and right links name the first and last node, or the header itself. */
  ghost predicate Ends(g: Store, header: Node, s: seq<Node>)
  {
    && g.left(header) == (if s == [] then header else s[0])
    && g.right(header) == (if s == [] then header else s[|s| - 1])
  }

  /** All the links of a tree with its header, as a caller sees them. */
  ghost predicate Valid(g: Store, t: Tree, header: Node)
  {
    Linked(g, Top, t, header) && Ends(g, header, InOrder(t))
  }

  lemma OrderedNodes(t: Tree)
    ensures (forall n <- InOrder(t) :: n in Nodes(t)) && (forall n <- Nodes(t) :: n in InOrder(t))
    ensures t.Bin? ==> InOrder(t) != []
  {
  }

  // ------------------------------------------------------- leftmost, rightmost

  ghost function MinNode(t: Tree): Node
    requires t.Bin?
  {
    if t.left.Leaf? then t.node else MinNode(t.left)
  }

  /** What hangs from the leftmost node. */
  ghost function MinRight(t: Tree): Tree
    requires t.Bin?
  {
    if t.left.Leaf? then t.right else MinRight(t.left)
  }

  ghost function RemoveMin(t: Tree): Tree
    requires t.Bin?
  {
    if t.left.Leaf? then t.right else Bin(RemoveMin(t.left), t.node, t.right)
  }

  /** The context of the leftmost node of `t`, when `t` is in the hole of `c`. */
  ghost function Leftward(c: Ctx, t: Tree): Ctx
    requires t.Bin?
    decreases t
  {
    if t.left.Leaf? then c else Leftward(InLeft(c, t.node, t.right), t.left)
  }

  lemma MinFacts(t: Tree)
    requires t.Bin?
    ensures InOrder(t) == [MinNode(t)] + InOrder(RemoveMin(t))
    ensures MinNode(t) in Nodes(t) && MinNode(t) == InOrder(t)[0]
    ensures Nodes(t) == Nodes(RemoveMin(t)) + {MinNode(t)}
  {
  }

  lemma MinDistinct(t: Tree)
    requires t.Bin? && Distinct(t)
    ensures MinNode(t) !in Nodes(RemoveMin(t)) && Distinct(RemoveMin(t))
    ensures !t.left.Leaf? ==> MinNode(t) != t.node
  {
    if !t.left.Leaf? {
      MinFacts(t.left);
      MinDistinct(t.left);
    }
  }

  lemma LeftwardLinked(g: Store, c: Ctx, t: Tree, header: Node)
    requires t.Bin?
    ensures Linked(g, Leftward(c, t), Bin(Leaf, MinNode(t), MinRight(t)), header) <==> Linked(g, c, t, header)
    decreases t
  {
    if !t.left.Leaf? {
      Refocus(g, InLeft(c, t.node, t.right), t.left, header);
    }
  }

  lemma RemoveMinLinked(g: Store, c: Ctx, t: Tree, header: Node)
    requires t.Bin?
    ensures Linked(g, Leftward(c, t), MinRight(t), header) <==> Linked(g, c, RemoveMin(t), header)
    decreases t
  {
    if !t.left.Leaf? {
      Refocus(g, InLeft(c, t.node, t.right), RemoveMin(t.left), header);
    }
  }

  method Minimum(n0: Node, ghost g: Store, ghost t0: Tree) returns (n: Node)
    requires Matches(g) && t0.Bin? && n0 == t0.node && Nodes(t0) <= g.nodes && Down(g.left, g.right, t0)
    ensures n == MinNode(t0) == InOrder(t0)[0] && n in g.nodes
  {
    n := n0;
    ghost var t := t0;
    while n.left != null
      invariant t.Bin? && n == t.node && Nodes(t) <= g.nodes && Down(g.left, g.right, t)
      invariant MinNode(t) == MinNode(t0)
      decreases t
    {
      n := n.left;
      t := t.left;
    }
    MinFacts(t0);
  }

  ghost function MaxNode(t: Tree): Node
    requires t.Bin?
  {
    if t.right.Leaf? then t.node else MaxNode(t.right)
  }

  lemma MaxFacts(t: Tree)
    requires t.Bin?
    ensures MaxNode(t) in Nodes(t) && |InOrder(t)| > 0 && MaxNode(t) == InOrder(t)[|InOrder(t)| - 1]
  {
  }

  method Maximum(n0: Node, ghost g: Store, ghost t0: Tree) returns (n: Node)
    requires Matches(g) && t0.Bin? && n0 == t0.node && Nodes(t0) <= g.nodes && Down(g.left, g.right, t0)
    ensures InOrder(t0) != [] && n == MaxNode(t0) == InOrder(t0)[|InOrder(t0)| - 1] && n in g.nodes
  {
    n := n0;
    ghost var t := t0;
    while n.right != null
      invariant t.Bin? && n == t.node && Nodes(t) <= g.nodes && Down(g.left, g.right, t)
      invariant MaxNode(t) == MaxNode(t0)
      decreases t
    {
      n := n.right;
      t := t.right;
    }
    MaxFacts(t0);
  }

  // ------------------------------------------------ from the root to a node

  /** The context of `n` in `t`, when `t` is in the hole of `c`. */
  ghost function Above(c: Ctx, t: Tree, n: Node): Ctx
    requires n in Nodes(t)
    decreases t
  {
    if t.node == n then c
    else if n in Nodes(t.left) then Above(InLeft(c, t.node, t.right), t.left, n)
    else Above(InRight(c, t.left, t.node), t.right, n)
  }

  ghost function Below(t: Tree, n: Node): (s: Tree)
    requires n in Nodes(t)
    ensures s.Bin? && s.node == n
  {
    if t.node == n then t else if n in Nodes(t.left) then Below(t.left, n) else Below(t.right, n)
  }

  lemma Focus(g: Store, c: Ctx, t: Tree, n: Node, header: Node)
    requires n in Nodes(t)
    ensures Linked(g, Above(c, t, n), Below(t, n), header) <==> Linked(g, c, t, header)
    decreases t
  {
    if t.node == n {
    } else if n in Nodes(t.left) {
      Focus(g, InLeft(c, t.node, t.right), t.left, n, header);
      Refocus(g, InLeft(c, t.node, t.right), t.left, header);
    } else {
      Focus(g, InRight(c, t.left, t.node), t.right, n, header);
      Refocus(g, InRight(c, t.left, t.node), t.right, header);
    }
  }

  lemma FocusPlug(c: Ctx, t: Tree, n: Node)
    requires n in Nodes(t)
    ensures Plug(Above(c, t, n), Below(t, n)) == Plug(c, t)
    decreases t
  {
    if t.node == n {
    } else if n in Nodes(t.left) {
      FocusPlug(InLeft(c, t.node, t.right), t.left, n);
    } else {
      FocusPlug(InRight(c, t.left, t.node), t.right, n);
    }
  }

  // ------------------------------------------------------------ neighbours

  lemma RootIsLast(t: Tree)
    requires t.Bin? && Distinct(t) && InOrder(t) != [] && InOrder(t)[|InOrder(t)| - 1] == t.node
    ensures t.right.Leaf?
  {
    MaxFacts(t);
    if t.right.Bin? {
      MaxFacts(t.right);
    }
  }

  /** What a node on the way up finds at its parent. */
  lemma ParentLinks(g: Store, c: Ctx, t: Tree, header: Node)
    requires Linked(g, c, t, header) && t.Bin?
    ensures t.node in g.nodes && header in g.nodes && t.node != header && CParent(c, header) in g.nodes
    ensures g.parent(t.node) == CParent(c, header) && g.right(t.node) == Root(t.right) && g.left(t.node) == Root(t.left)
    ensures t.left != Leaf ==> t.left.node != header && t.left.node != CParent(c, header)
    ensures t.right != Leaf ==> t.right.node != header && t.right.node != CParent(c, header)
    ensures !c.Top? ==> (g.right(c.node) == t.node <==> c.InRight?) && (g.left(c.node) == t.node <==> c.InLeft?)
    ensures !c.Top? ==> CParent(c.up, header) in g.nodes && g.parent(c.node) == CParent(c.up, header)
    ensures c.Top? ==> g.parent(header) == t.node
  {
    assert t.left.Bin? ==> t.left.node in Nodes(t.left);
    assert t.right.Bin? ==> t.right.node in Nodes(t.right);
    if !c.Top? {
      AtParent(g, c, t, header);
      assert c.node in CNodes(c);
      assert !c.up.Top? ==> c.up.node in CNodes(c.up);
    }
  }

  /** The next node in order; the header after the last. */
  method NextNode(n0: Node, header: Node, ghost g: Store, ghost c0: Ctx, ghost t0: Tree) returns (r: Node)
    requires Matches(g) && Linked(g, c0, t0, header) && t0.Bin? && t0.node == n0
        && Ends(g, header, InOrder(Plug(c0, t0)))
    ensures var after := InOrder(t0.right) + After(c0); r == if after == [] then header else after[0]
  {
    var n: Node := n0;
    ParentLinks(g, c0, t0, header);
    if n.right != null {
      r := Minimum(n.right, g, t0.right);
    } else {
      ghost var c, t, over := c0, t0, false;
      var p: Node := n.parent;
      while n == p.right
        invariant n in g.nodes && p in g.nodes && Linked(g, c, t, header) && t.Bin?
        invariant After(c) == After(c0) && Plug(c, t) == Plug(c0, t0)
        invariant !over ==> n == t.node && p == CParent(c, header)
        invariant over ==> c.Top? && n == header && p == t.node && t.right.Leaf?
        decreases c, if over then 0 else 1
      {
        ParentLinks(g, c, t, header);
        if c.Top? {
          RootIsLast(t);
          over := true;
        } else {
          Refocus(g, c, t, header);
          c, t := c.up, Grown(c, t);
        }
        n := p;
        p := p.parent;
      }
      ParentLinks(g, c, t, header);
      r := if n.right != p then p else n;
    }
  }

  method PrevOfNode(n: Node, header: Node, ghost g: Store, ghost c0: Ctx, ghost t0: Tree) returns (r: Node)
    requires Matches(g) && Linked(g, c0, t0, header) && t0.Bin? && t0.node == n
        && Ends(g, header, InOrder(Plug(c0, t0)))
    requires Before(c0) + InOrder(t0.left) != []
    ensures var before := Before(c0) + InOrder(t0.left); r == before[|before| - 1]
  {
    ParentLinks(g, c0, t0, header);
    if n.left != null {
      r := Maximum(n.left, g, t0.left);
    } else {
      ghost var c, t := c0, t0;
      var p: Node := n;
      var x: Node := n.parent;
      while p == x.left
        invariant p in g.nodes && x in g.nodes && Linked(g, c, t, header) && t.Bin?
        invariant Before(c) == Before(c0) && p == t.node && x == CParent(c, header)
        invariant Plug(c, t) == Plug(c0, t0)
        decreases c
      {
        ParentLinks(g, c, t, header);
        assert !c.Top?;
        Refocus(g, c, t, header);
        c, t := c.up, Grown(c, t);
        p := x;
        x := x.parent;
      }
      ParentLinks(g, c, t, header);
      r := x;
    }
  }

  // ------------------------------------------------------------- the header

  /** A tree of more than one node has different ends, and at most one of them is the root. */
  lemma EndsDiffer(t: Tree)
    requires t.Bin? && Distinct(t)
    ensures MinNode(t) == MaxNode(t) <==> t.left.Leaf? && t.right.Leaf?
    ensures t.left.Bin? ==> MinNode(t) in Nodes(t.left)
    ensures t.right.Bin? ==> MaxNode(t) in Nodes(t.right)
  {
    if t.left.Bin? {
      MinFacts(t.left);
    }
    if t.right.Bin? {
      MaxFacts(t.right);
    }
  }

  /** Only the root hangs from the header. */
  lemma OnlyRootHangs(P: Link, t: Tree, header: Node, n: Node)
    requires Distinct(t) && n in Nodes(t) && header !in Nodes(t)
    requires t.Bin? ==> Up(P, t.left, t.node) && Up(P, t.right, t.node)
    ensures n != t.node ==> P(n) != header
  {
    if n in Nodes(t.left) {
      OnlyRootHangs(P, t.left, header, n);
      assert t.left.node in Nodes(t.left);
    } else if n in Nodes(t.right) {
      OnlyRootHangs(P, t.right, header, n);
      assert t.right.node in Nodes(t.right);
    }
  }

  lemma HeaderLooks(g: Store, t: Tree, header: Node)
    requires Valid(g, t, header) && t.Bin?
    ensures g.parent(header) == t.node && g.left(header) == MinNode(t) && g.right(header) == MaxNode(t)
    ensures MinNode(t) in g.nodes && MaxNode(t) in g.nodes
    ensures MinNode(t) != MaxNode(t) ==> g.parent(MinNode(t)) != header || g.parent(MaxNode(t)) != header
  {
    MinFacts(t);
    MaxFacts(t);
    EndsDiffer(t);
    OnlyRootHangs(g.parent, t, header, MinNode(t));
    OnlyRootHangs(g.parent, t, header, MaxNode(t));
  }

  lemma ChildLooks(g: Store, c: Ctx, t: Tree, header: Node)
    requires Linked(g, c, t, header) && t.Bin?
    ensures Known(g, g.left(t.node)) && Known(g, g.right(t.node))
    ensures g.left(t.node) != null ==> g.parent(g.left(t.node)) == t.node && g.left(t.node) != g.right(t.node)
    ensures g.right(t.node) != null ==> g.parent(g.right(t.node)) == t.node
  {
    assert Up(g.parent, t.left, t.node) && Up(g.parent, t.right, t.node);
    assert t.left.Bin? ==> t.left.node in Nodes(t.left);
    assert t.right.Bin? ==> t.right.node in Nodes(t.right);
  }

  lemma NodeLooks(g: Store, t: Tree, header: Node, n: Node)
    requires Valid(g, t, header) && n in Nodes(t)
    ensures n != header && n in g.nodes && g.parent(n) != null && g.parent(n) in g.nodes
    ensures Known(g, g.left(n)) && Known(g, g.right(n))
    ensures g.left(n) != null ==> g.parent(g.left(n)) == n && g.left(n) != g.right(n)
    ensures g.right(n) != null ==> g.parent(g.right(n)) == n
  {
    Focus(g, Top, t, n, header);
    ParentLinks(g, Above(Top, t, n), Below(t, n), header);
    ChildLooks(g, Above(Top, t, n), Below(t, n), header);
  }

  method IsHeader(p: Node, ghost header: Node, ghost g: Store, ghost t: Tree) returns (r: bool)
    requires Matches(g) && Valid(g, t, header) && (p == header || p in Nodes(t))
    ensures r <==> p == header
  {
    if p == header {
      if t.Bin? {
        HeaderLooks(g, t, header);
      }
    } else {
      NodeLooks(g, t, header, p);
    }
    var pLeft, pRight := p.left, p.right;
    r := p.parent == null ||
         (pLeft != null && pRight != null && (pLeft == pRight || pLeft.parent != p || pRight.parent != p));
  }

  /** The previous node in order; the last one before the header. */
  method PrevNode(n: Node, header: Node, ghost g: Store, ghost t: Tree) returns (r: Node)
    requires Matches(g) && Valid(g, t, header)
    requires (n == header && t.Bin?) || (n in Nodes(t) && Before(Above(Top, t, n)) + InOrder(Below(t, n).left) != [])
    ensures var before := if n == header then InOrder(t) else Before(Above(Top, t, n)) + InOrder(Below(t, n).left);
      before != [] && r == before[|before| - 1]
  {
    var h := IsHeader(n, header, g, t);
    if h {
      OrderedNodes(t);
      r := n.right;
    } else {
      Focus(g, Top, t, n, header);
      FocusPlug(Top, t, n);
      r := PrevOfNode(n, header, g, Above(Top, t, n), Below(t, n));
    }
  }

  /** A grandparent is never the node itself, except around the root. */
  lemma Grandparent(g: Store, c: Ctx, t: Tree, header: Node)
    requires Linked(g, c, t, header) && t.Bin?
    ensures t.node in g.nodes && t.node != header && g.parent(t.node) == CParent(c, header)
        && CParent(c, header) in g.nodes
    ensures g.parent(CParent(c, header)) != null && g.parent(CParent(c, header)) in g.nodes
    ensures g.parent(CParent(c, header)) == t.node <==> c.Top?
    ensures !c.Top? ==> g.parent(CParent(c, header)) == CParent(c.up, header)
  {
    ParentLinks(g, c, t, header);
    assert !c.Top? && !c.up.Top? ==> c.up.node in CNodes(c);
  }

  /** Climbing with a look at the grandparent finds the header, from any node and from the header itself. */
  method GetHeader(n: Node, ghost header: Node, ghost g: Store, ghost t: Tree) returns (r: Node)
    requires Matches(g) && Valid(g, t, header) && (n == header || n in Nodes(t))
    ensures r == header
  {
    var nn: Node := n;
    var p := n.parent;
    if n != header {
      Focus(g, Top, t, n, header);
      Grandparent(g, Above(Top, t, n), Below(t, n), header);
    }
    if p != null {
      var pp := p.parent;
      if nn != pp {
        ghost var c, s := Above(Top, t, n), Below(t, n);
        Refocus(g, c, s, header);
        c, s := c.up, Grown(c, s);
        Grandparent(g, c, s, header);
        nn, p, pp := p, pp, pp.parent;
        while nn != pp
          invariant Linked(g, c, s, header) && s.Bin? && nn == s.node
          invariant p == CParent(c, header) && pp == g.parent(CParent(c, header)) && pp in g.nodes
          decreases c
        {
          Grandparent(g, c, s, header);
          Refocus(g, c, s, header);
          c, s := c.up, Grown(c, s);
          Grandparent(g, c, s, header);
          nn, p, pp := p, pp, pp.parent;
        }
        Grandparent(g, c, s, header);
        nn := p;
      } else {
        var h := IsHeader(nn, header, g, t);
        if !h {
          nn := p;
        }
      }
    }
    r := nn;
  }
}

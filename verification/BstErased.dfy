/** What erasing leaves: a linked tree holding the same nodes in the same order, without the erased one. */
module BstErased {
  import opened TreeNodes
  import opened Rotations
  import opened TreeWalk
  import opened BstErase

  lemma FarErasedLinked(g: Store, c: Ctx, l: Tree, z: Node, r: Tree, header: Node)
    requires Linked(g, c, Bin(l, z, r), header) && l.Bin? && r.Bin?
    ensures Linked(ErasedStore(g, c, l, z, r, header), Leftward(InRight(c, l, MinNode(r)), r), MinRight(r), header)
  {
    var g', y := ErasedStore(g, c, l, z, r, header), MinNode(r);
    if r.left.Bin? {
      FarMovedLinked(g, c, l, z, r, header);
    } else {
      NearMovedLinked(g, c, l, z, r, header);
    }
    Refocus(g', InRight(c, l, y), RemoveMin(r), header);
    RemoveMinLinked(g', InRight(c, l, y), r, header);
  }

  lemma EndsSetLinked(g: Store, c: Ctx, t: Tree, header: Node, z: Node, first: Node, last: Node)
    requires Linked(g, c, t, header)
    ensures Linked(LastSet(FirstSet(g, header, z, first), header, z, last), c, t, header)
  {
    FrameLinked(g, LastSet(FirstSet(g, header, z, first), header, z, last), c, t, header, {header});
  }

  /** The links of the remaining nodes draw the remaining tree. */
  lemma ErasedLinked(g: Store, c: Ctx, l: Tree, z: Node, r: Tree, header: Node)
    requires Linked(g, c, Bin(l, z, r), header)
    ensures Linked(ErasedStore(g, c, l, z, r, header), ErasedCtx(c, l, r), ErasedTree(l, r), header)
  {
    if l.Bin? && r.Bin? {
      FarErasedLinked(g, c, l, z, r, header);
    } else {
      var g1 := Bypassed(g, z, ErasedTree(l, r), header, CParent(c, header));
      BypassedLinked(g, c, z, l, r, header);
      EndsSetLinked(g1, c, ErasedTree(l, r), header, z, NewFirst(c, z, r, header, z), NewLast(c, z, l, header, z));
    }
  }

  lemma PlugAround(c: Ctx, l: Tree, z: Node, r: Tree, header: Node)
    requires Apart(c, Bin(l, z, r), header)
    ensures var ns := Nodes(Plug(c, Bin(l, z, r)));
      && InTree(Root(l), ns) && InTree(Root(r), ns) && z in ns && header !in ns
      && (CParent(c, header) == header || CParent(c, header) in ns) && Nodes(r) <= ns
  {
    PlugNodes(c, Bin(l, z, r));
    assert l.Bin? ==> l.node in Nodes(l);
    assert r.Bin? ==> r.node in Nodes(r);
    assert !c.Top? ==> c.node in CNodes(c);
  }

  lemma MinRightInside(t: Tree)
    requires t.Bin?
    ensures MinNode(t) in Nodes(t) && InTree(Root(MinRight(t)), Nodes(t))
  {
    if t.left.Leaf? {
      assert t.right.Bin? ==> t.right.node in Nodes(t.right);
    }
  }

  /** Nothing outside the tree and its header is relinked, and the header's extremes only when they were `z`. */
  lemma ErasedWithin(g: Store, c: Ctx, l: Tree, z: Node, r: Tree, header: Node)
    requires Linked(g, c, Bin(l, z, r), header)
    ensures LinksWithin(g, ErasedStore(g, c, l, z, r, header), Nodes(Plug(c, Bin(l, z, r))), header)
    ensures var g', first, last := ErasedStore(g, c, l, z, r, header), NewFirst(c, z, r, header, z),
        NewLast(c, z, l, header, z);
      if l.Bin? && r.Bin? then g'.left(header) == g.left(header) && g'.right(header) == g.right(header)
      else
        && g'.left(header) == (if g.left(header) == z then first else g.left(header))
        && g'.right(header) == (if g.right(header) == z then last else g.right(header))
  {
    var ns, top := Nodes(Plug(c, Bin(l, z, r))), CParent(c, header);
    PlugAround(c, l, z, r, header);
    if l.Bin? && r.Bin? {
      MinRightInside(r);
      if r.left.Bin? {
        LeftwardParent(InRight(c, l, z), r, header);
        FarMovedWithin(g, z, l.node, r.node, MinNode(r), Root(MinRight(r)),
                       CParent(Leftward(InRight(c, l, z), r), header), header, top, ns);
      } else {
        NearMovedWithin(g, z, l.node, r.node, header, top, ns);
      }
    } else {
      BypassedWithin(g, z, ErasedTree(l, r), header, top, ns);
    }
  }

  /** The header still names the first and the last node. */
  lemma ErasedEnds(g: Store, c: Ctx, l: Tree, z: Node, r: Tree, header: Node)
    requires Linked(g, c, Bin(l, z, r), header) && Ends(g, header, InOrder(Plug(c, Bin(l, z, r))))
    ensures Ends(ErasedStore(g, c, l, z, r, header), header, OrderWithout(c, l, r))
  {
    hide ErasedStore, InOrder, OrderWithout, Down, Up, CDown, CUp, Plug, LinksWithin;
    ErasedWithin(g, c, l, z, r, header);
    NewFirstRight(c, l, z, r, header);
    NewLastRight(c, l, z, r, header);
    if l.Bin? && r.Bin? {
      EndsInside(c, l, z, r, header);
    }
  }

  /** A node with two children is neither the first nor the last one. */
  lemma EndsInside(c: Ctx, l: Tree, z: Node, r: Tree, header: Node)
    requires Apart(c, Bin(l, z, r), header) && l.Bin? && r.Bin?
    ensures var s, s' := InOrder(Plug(c, Bin(l, z, r))), OrderWithout(c, l, r);
      s != [] && s' != [] && s'[0] == s[0] && s'[|s'| - 1] == s[|s| - 1]
  {
    hide InOrder, OrderWithout, Plug;
    var b, a := Before(c) + InOrder(l), InOrder(r) + After(c);
    OrderAround(c, l, z, r, header);
    OrderedNodes(l);
    OrderedNodes(r);
    FirstWithout(b, z, a);
    LastWithout(b, z, a);
  }

  /** Exactly `z` is gone. */
  lemma ErasedNodes(c: Ctx, l: Tree, z: Node, r: Tree, header: Node)
    requires Apart(c, Bin(l, z, r), header)
    ensures Nodes(Plug(ErasedCtx(c, l, r), ErasedTree(l, r))) == Nodes(Plug(c, Bin(l, z, r))) - {z}
  {
    PlugNodes(c, Bin(l, z, r));
    if l.Bin? && r.Bin? {
      LeftwardPlug(InRight(c, l, MinNode(r)), r);
      PlugNodes(c, Bin(l, MinNode(r), RemoveMin(r)));
      MinFacts(r);
    } else {
      PlugNodes(c, ErasedTree(l, r));
    }
  }
}

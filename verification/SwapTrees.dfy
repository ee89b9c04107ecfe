/** What exchanging two nodes means for the tree, or the two trees, they stand in. */
module SwapTrees {
  import opened TreeNodes
  import opened TreeWalk
  import opened Positions
  import opened AvlBalance
  import opened AvlTree
  import opened AvlTransfer
  import opened LinkSwap

  /** The same shape with `a` and `b` exchanged. */
  ghost function RenameTree(t: Tree, a: Node, b: Node): Tree
  {
    if t.Leaf? then Leaf else Bin(RenameTree(t.left, a, b), Swap(t.node, a, b), RenameTree(t.right, a, b))
  }

  ghost function RenameOrder(s: seq<Node>, a: Node, b: Node): (r: seq<Node>)
    ensures |r| == |s| && forall i :: 0 <= i < |s| ==> r[i] == Swap(s[i], a, b)
  {
    if s == [] then [] else [Swap(s[0], a, b)] + RenameOrder(s[1..], a, b)
  }

  lemma {:induction false} RenameJoin(s: seq<Node>, r: seq<Node>, a: Node, b: Node)
    ensures RenameOrder(s + r, a, b) == RenameOrder(s, a, b) + RenameOrder(r, a, b)
  {
  }

  /** Each position holds what it held, unless that was `a` or `b`. */
  lemma {:induction false} RenamedOrder(t: Tree, a: Node, b: Node)
    ensures InOrder(RenameTree(t, a, b)) == RenameOrder(InOrder(t), a, b)
    ensures Height(RenameTree(t, a, b)) == Height(t)
  {
    if t.Bin? {
      RenamedOrder(t.left, a, b);
      RenamedOrder(t.right, a, b);
      RenameJoin(InOrder(t.left) + [t.node], InOrder(t.right), a, b);
      RenameJoin(InOrder(t.left), [t.node], a, b);
    }
  }

  /** Exchanging the same nodes again undoes it. */
  lemma {:induction false} RenameTwice(t: Tree, a: Node, b: Node)
    ensures RenameTree(RenameTree(t, a, b), a, b) == t
  {
    if t.Bin? {
      RenameTwice(t.left, a, b);
      RenameTwice(t.right, a, b);
    }
  }

  lemma {:induction false} RenamedNodes(t: Tree, a: Node, b: Node, n: Node)
    ensures n in Nodes(RenameTree(t, a, b)) <==> Swap(n, a, b) in Nodes(t)
  {
    if t.Bin? {
      RenamedNodes(t.left, a, b, n);
      RenamedNodes(t.right, a, b, n);
    }
  }

  lemma {:induction false} RenamedDistinct(t: Tree, a: Node, b: Node)
    requires Distinct(t)
    ensures Distinct(RenameTree(t, a, b))
  {
    if t.Bin? {
      RenamedDistinct(t.left, a, b);
      RenamedDistinct(t.right, a, b);
      var l, r := RenameTree(t.left, a, b), RenameTree(t.right, a, b);
      RenamedNodes(t.left, a, b, Swap(t.node, a, b));
      RenamedNodes(t.right, a, b, Swap(t.node, a, b));
      forall n <- Nodes(l) ensures n !in Nodes(r) {
        RenamedNodes(t.left, a, b, n);
        RenamedNodes(t.right, a, b, n);
      }
    }
  }

  ghost predicate AllRenamed(g: Store, g': Store, ns: set<Node>, a: Node, b: Node)
  {
    forall n <- ns :: Renamed(g, g', Swap(n, a, b), a, b)
  }

  lemma {:induction false} RenamedLinks(g: Store, g': Store, t: Tree, p: Node, a: Node, b: Node)
    requires Down(g.left, g.right, t) && Up(g.parent, t, p)
    requires AllRenamed(g, g', Nodes(t), a, b)
    ensures Down(g'.left, g'.right, RenameTree(t, a, b)) && Up(g'.parent, RenameTree(t, a, b), Swap(p, a, b))
  {
    if t.Bin? {
      RenamedLinks(g, g', t.left, t.node, a, b);
      RenamedLinks(g, g', t.right, t.node, a, b);
      assert t.node in Nodes(t);
    }
  }

  lemma RenamedValid(g: Store, g': Store, t: Tree, header: Node, a: Node, b: Node)
    requires Valid(g, t, header) && header != a && header != b && a in g.nodes && b in g.nodes && g'.nodes == g.nodes
    requires Renamed(g, g', header, a, b) && AllRenamed(g, g', Nodes(t), a, b)
    ensures Valid(g', RenameTree(t, a, b), header)
  {
    var t' := RenameTree(t, a, b);
    RenamedOrder(t, a, b);
    RenamedDistinct(t, a, b);
    RenamedLinks(g, g', t, header, a, b);
    forall n <- Nodes(t') ensures n in g.nodes && n != header {
      RenamedNodes(t, a, b, n);
    }
    OrderedNodes(t);
  }

  lemma {:induction false} RenamedAvl(B: Node -> Balance, B': Node -> Balance, t: Tree, a: Node, b: Node)
    requires Avl(B, t) && forall n <- Nodes(t) :: B'(Swap(n, a, b)) == B(n)
    ensures Avl(B', RenameTree(t, a, b))
  {
    if t.Bin? {
      RenamedAvl(B, B', t.left, a, b);
      RenamedAvl(B, B', t.right, a, b);
      RenamedOrder(t.left, a, b);
      RenamedOrder(t.right, a, b);
      assert t.node in Nodes(t);
    }
  }

  // ------------------------------------------- what linked nodes look like

  ghost predicate Knit(g: Store, ns: set<Node>, x: Node, h: Node)
  {
    && x in g.nodes && Settled(g, x, h) && g.left(x) != h && g.right(x) != h
    && (g.parent(x) == h || (g.parent(x) in ns && (g.left(g.parent(x)) == x || g.right(g.parent(x)) == x)))
    && (g.left(x) == null || g.left(x) in ns) && (g.right(x) == null || g.right(x) in ns)
  }

  lemma KnitInside(g: Store, c: Ctx, t: Tree, header: Node)
    requires Linked(g, c, t, header) && t.Bin?
    ensures Knit(g, CNodes(c) + Nodes(t), t.node, header)
  {
    ParentLinks(g, c, t, header);
    ChildLooks(g, c, t, header);
    Grandparent(g, c, t, header);
    if !c.Top? {
      AtParent(g, c, t, header);
    }
    assert t.left.Bin? ==> t.left.node in Nodes(t.left);
    assert t.right.Bin? ==> t.right.node in Nodes(t.right);
    assert !c.Top? ==> c.node in CNodes(c);
  }

  lemma KnitNode(g: Store, t: Tree, header: Node, n: Node)
    requires Valid(g, t, header) && n in Nodes(t)
    ensures Knit(g, Nodes(t), n, header)
  {
    Focus(g, Top, t, n, header);
    FocusPlug(Top, t, n);
    PlugNodes(Above(Top, t, n), Below(t, n));
    KnitInside(g, Above(Top, t, n), Below(t, n), header);
  }

  lemma KnitBystander(g: Store, ns: set<Node>, x: Node, hx: Node, a: Node, h1: Node, b: Node, h2: Node)
    requires Knit(g, ns, x, hx) && x != a && x != b && x != h1 && x != h2 && hx != a && hx != b
    ensures Bystander(g, x, a, h1, b, h2)
  {
  }

  lemma SwappedNode(g: Store, t: Tree, h: Node, n: Node, a: Node, h1: Node, b: Node, h2: Node)
    requires Valid(g, t, h) && n in Nodes(t) && h != a && h != b && n != h1 && n != h2
    requires Swappable(g, a, h1, b, h2)
    ensures Renamed(g, Swapped(g, a, h1, b, h2), Swap(n, a, b), a, b)
  {
    if n == a || n == b {
      SwappedOwn(g, a, h1, b, h2);
    } else {
      KnitNode(g, t, h, n);
      KnitBystander(g, Nodes(t), n, h, a, h1, b, h2);
      SwappedBystander(g, n, a, h1, b, h2);
    }
  }

  lemma SwappedAll(g: Store, t: Tree, h: Node, a: Node, h1: Node, b: Node, h2: Node)
    requires Valid(g, t, h) && h != a && h != b && h1 !in Nodes(t) && h2 !in Nodes(t)
    requires Swappable(g, a, h1, b, h2)
    ensures AllRenamed(g, Swapped(g, a, h1, b, h2), Nodes(t), a, b)
  {
    forall n <- Nodes(t) ensures Renamed(g, Swapped(g, a, h1, b, h2), Swap(n, a, b), a, b) {
      SwappedNode(g, t, h, n, a, h1, b, h2);
    }
  }

  lemma OneTreeSwappable(g: Store, t: Tree, h: Node, a: Node, b: Node)
    requires Valid(g, t, h) && a in Nodes(t) && b in Nodes(t) && a != b
    ensures Swappable(g, a, h, b, h) && a in g.nodes && b in g.nodes && h != a && h != b
  {
    KnitNode(g, t, h, a);
    KnitNode(g, t, h, b);
  }

  /** Two nodes of one tree, wherever they stand to each other. */
  lemma OneTreeSwapped(g: Store, t: Tree, h: Node, a: Node, b: Node)
    requires Valid(g, t, h) && a in Nodes(t) && b in Nodes(t) && a != b
    ensures Swapped(g, a, h, b, h).nodes == g.nodes && Valid(Swapped(g, a, h, b, h), RenameTree(t, a, b), h)
  {
    var g' := Swapped(g, a, h, b, h);
    OneTreeSwappable(g, t, h, a, b);
    SwappedSame(g, a, h, b, h);
    SwappedHeaders(g, a, h, b, h);
    SwappedAll(g, t, h, a, h, b, h);
    RenamedValid(g, g', t, h, a, b);
  }

  lemma TwoTreesSwappable(g: Store, t1: Tree, h1: Node, t2: Tree, h2: Node, a: Node, b: Node)
    requires Valid(g, t1, h1) && Valid(g, t2, h2) && Away(Nodes(t2), h2, Top, t1, h1) && Nodes(t1) !! Nodes(t2)
    requires a in Nodes(t1) && b in Nodes(t2)
    ensures Swappable(g, a, h1, b, h2) && a in g.nodes && b in g.nodes && h1 != a && h1 != b && h2 != a && h2 != b
  {
    KnitNode(g, t1, h1, a);
    KnitNode(g, t2, h2, b);
    HeaderInside(g, t1, h1);
    HeaderInside(g, t2, h2);
  }

  lemma HeaderInside(g: Store, t: Tree, h: Node)
    requires Valid(g, t, h)
    ensures g.parent(h) == null || g.parent(h) in Nodes(t)
    ensures g.left(h) == h || g.left(h) in Nodes(t)
    ensures g.right(h) == h || g.right(h) in Nodes(t)
  {
    OrderedNodes(t);
  }

  /** One node of each of two trees. */
  lemma TwoTreesSwapped(g: Store, t1: Tree, h1: Node, t2: Tree, h2: Node, a: Node, b: Node, t: Tree, h: Node)
    requires Valid(g, t1, h1) && Valid(g, t2, h2) && Away(Nodes(t2), h2, Top, t1, h1) && Nodes(t1) !! Nodes(t2)
    requires a in Nodes(t1) && b in Nodes(t2) && ((t == t1 && h == h1) || (t == t2 && h == h2))
    ensures Swapped(g, a, h1, b, h2).nodes == g.nodes && Valid(Swapped(g, a, h1, b, h2), RenameTree(t, a, b), h)
  {
    var g' := Swapped(g, a, h1, b, h2);
    TwoTreesSwappable(g, t1, h1, t2, h2, a, b);
    SwappedSame(g, a, h1, b, h2);
    SwappedHeaders(g, a, h1, b, h2);
    SwappedAll(g, t, h, a, h1, b, h2);
    RenamedValid(g, g', t, h, a, b);
  }

  // -------------------------------------------------------- the algorithm

  method SetHeaderLinks(h1: Node, node1: Node, h2: Node, node2: Node, ghost g: Store) returns (ghost g': Store)
    requires Matches(g) && h1 in g.nodes && h2 in g.nodes && h1 != h2
    modifies g.nodes
    ensures Matches(g') && g' == HeaderMoved(HeaderMoved(g, h1, node1, node2), h2, node2, node1)
  {
    g' := SetHeaderLinksOf(h1, node1, node2, g);
    g' := SetHeaderLinksOf(h2, node2, node1, g');
  }

  method SetHeaderLinksOf(h: Node, node: Node, other: Node, ghost g: Store) returns (ghost g': Store)
    requires Matches(g) && h in g.nodes
    modifies g.nodes
    ensures Matches(g') && g' == HeaderMoved(g, h, node, other)
  {
    g' := g;
    if node == h.left {
      g' := SetLeft(h, other, g');
    }
    if node == h.right {
      g' := SetRight(h, other, g');
    }
    if node == h.parent {
      g' := SetParent(h, other, g');
    }
  }

  method SwapHeaderLinks(h: Node, node1: Node, node2: Node, ghost g: Store) returns (ghost g': Store)
    requires Matches(g) && h in g.nodes
    modifies g.nodes
    ensures Matches(g') && g' == HeaderSwapped(g, h, node1, node2)
  {
    g' := g;
    if node1 == h.left {
      g' := SetLeft(h, node2, g');
    } else if node2 == h.left {
      g' := SetLeft(h, node1, g');
    }
    if node1 == h.right {
      g' := SetRight(h, node2, g');
    } else if node2 == h.right {
      g' := SetRight(h, node1, g');
    }
    if node1 == h.parent {
      g' := SetParent(h, node2, g');
    } else if node2 == h.parent {
      g' := SetParent(h, node1, g');
    }
  }

  method Untangle(node1: Node, node2: Node, ghost g: Store) returns (ghost g': Store)
    requires Matches(g) && node1 in g.nodes && node2 in g.nodes
    modifies g.nodes
    ensures Matches(g') && g' == Untangled(g, node1, node2)
  {
    g' := g;
    if node1 == node2.parent {
      g' := SetParent(node2, node2, g');
      if node2 == node1.right {
        g' := SetRight(node1, node1, g');
      } else {
        g' := SetLeft(node1, node1, g');
      }
    } else if node2 == node1.parent {
      g' := SetParent(node1, node1, g');
      if node1 == node2.right {
        g' := SetRight(node2, node2, g');
      } else {
        g' := SetLeft(node2, node2, g');
      }
    }
  }

  method SwapLinks(node1: Node, node2: Node, ghost g: Store) returns (ghost g': Store)
    requires Matches(g) && node1 in g.nodes && node2 in g.nodes && node1 != node2
    modifies g.nodes
    ensures Matches(g') && g' == LinksSwapped(g, node1, node2)
  {
    var temp := node1.left;
    g' := SetLeft(node1, node2.left, g);
    g' := SetLeft(node2, temp, g');
    temp := node1.right;
    g' := SetRight(node1, node2.right, g');
    g' := SetRight(node2, temp, g');
    temp := node1.parent;
    g' := SetParent(node1, node2.parent, g');
    g' := SetParent(node2, temp, g');
  }

  method TellChildren(n: Node, ghost g: Store) returns (ghost g': Store)
    requires Matches(g) && n in g.nodes && Known(g, n.left) && Known(g, n.right)
    modifies g.nodes
    ensures Matches(g') && g' == ChildrenTold(g, n)
  {
    g' := g;
    var temp := n.left;
    if temp != null {
      g' := SetParent(temp, n, g');
    }
    temp := n.right;
    if temp != null {
      g' := SetParent(temp, n, g');
    }
  }

  method RenameChild(p: Node, o: Node, n: Node, ghost g: Store) returns (ghost g': Store)
    requires Matches(g) && p in g.nodes
    modifies g.nodes
    ensures Matches(g') && g' == ChildRenamed(g, p, o, n)
  {
    g' := g;
    if p.left == o {
      g' := SetLeft(p, n, g');
    }
    if p.right == o {
      g' := SetRight(p, n, g');
    }
  }

  method TellParents(node1: Node, h1: Node, node2: Node, h2: Node, ghost g: Store) returns (ghost g': Store)
    requires Matches(g) && node1 in g.nodes && node2 in g.nodes && Known(g, node1.parent) && Known(g, node2.parent)
    requires node1.parent != null
    modifies g.nodes
    ensures Matches(g') && g' == ParentsTold(g, node1, h1, node2, h2)
  {
    g' := g;
    var temp := node1.parent;
    if temp == node2.parent {
      var left := temp.left;
      g' := SetLeft(temp, temp.right, g');
      g' := SetRight(temp, left, g');
    } else {
      if temp != null && temp != h2 {
        g' := RenameChild(temp, node2, node1, g');
      }
      temp := node2.parent;
      if temp != null && temp != h1 {
        g' := RenameChild(temp, node1, node2, g');
      }
    }
  }

  /** Links known on both sides stay known when they are exchanged. */
  lemma ToldKnown(g: Store, a: Node, h1: Node, b: Node, h2: Node)
    requires Swappable(g, a, h1, b, h2) && a in g.nodes && b in g.nodes
    requires Known(g, g.left(a)) && Known(g, g.right(a)) && Known(g, g.left(b)) && Known(g, g.right(b))
    requires Known(g, g.parent(a)) && Known(g, g.parent(b))
    ensures var g1 := LinksSwapped(HeadersDone(g, a, h1, b, h2), a, b);
      && g1.nodes == g.nodes && Known(g, g1.left(a)) && Known(g, g1.right(a)) && Known(g, g1.left(b))
          && Known(g, g1.right(b))
    ensures var g3 := Told(g, a, h1, b, h2);
      g3.nodes == g.nodes && Known(g, g3.parent(a)) && Known(g, g3.parent(b)) && g3.parent(a) != null
  {
    OwnLinks(g, a, h1, b, h2);
    ToldParents(g, a, h1, b, h2);
  }

  method SwapOwnLinks(node1: Node, header1: Node, node2: Node, header2: Node, ghost g: Store) returns (ghost g': Store)
    requires Matches(g) && node1 != node2
    requires node1 in g.nodes && node2 in g.nodes && header1 in g.nodes && header2 in g.nodes
    modifies g.nodes
    ensures Matches(g') && g' == LinksSwapped(HeadersDone(g, node1, header1, node2, header2), node1, node2)
  {
    if header1 != header2 {
      g' := SetHeaderLinks(header1, node1, header2, node2, g);
    } else {
      g' := SwapHeaderLinks(header1, node1, node2, g);
      g' := Untangle(node1, node2, g');
    }
    g' := SwapLinks(node1, node2, g');
  }

  /** All the links around two different nodes. */
  method SwapAllLinks(node1: Node, header1: Node, node2: Node, header2: Node, ghost g: Store) returns (ghost g': Store)
    requires Matches(g) && Swappable(g, node1, header1, node2, header2)
    requires node1 in g.nodes && node2 in g.nodes && header1 in g.nodes && header2 in g.nodes
    requires Known(g, g.left(node1)) && Known(g, g.right(node1)) && Known(g, g.left(node2)) && Known(g, g.right(node2))
    requires Known(g, g.parent(node1)) && Known(g, g.parent(node2))
    modifies g.nodes
    ensures Matches(g') && g' == Swapped(g, node1, header1, node2, header2)
  {
    ToldKnown(g, node1, header1, node2, header2);
    g' := SwapOwnLinks(node1, header1, node2, header2, g);
    g' := TellChildren(node1, g');
    g' := TellChildren(node2, g');
    g' := TellParents(node1, header1, node2, header2, g');
  }

  lemma SwappableKnown(g: Store, t: Tree, h: Node, n: Node)
    requires Valid(g, t, h) && n in Nodes(t)
    ensures n in g.nodes && h in g.nodes && Known(g, g.left(n)) && Known(g, g.right(n)) && Known(g, g.parent(n))
  {
    NodeLooks(g, t, h, n);
  }

  /** Two nodes of one AVL tree change places; shape, balance and everything else about the tree stay. */
  method SwapNodesInTree(node1: Node, node2: Node, header: Node, ghost g: Store, ghost t: Tree)
    returns (ghost g': Store)
    requires Matches(g) && AvlValid(g, t, header) && node1 in Nodes(t) && node2 in Nodes(t)
    modifies g.nodes
    ensures Matches(g') && AvlValid(g', RenameTree(t, node1, node2), header) && Untouched(g, g', Nodes(t), header)
    ensures InOrder(RenameTree(t, node1, node2)) == RenameOrder(InOrder(t), node1, node2)
  {
    RenamedOrder(t, node1, node2);
    if node1 == node2 {
      RenameSame(t, node1);
      g' := g;
      return;
    }
    OneTreeSwappable(g, t, header, node1, node2);
    SwappableKnown(g, t, header, node1);
    SwappableKnown(g, t, header, node2);
    g' := SwapDifferent(node1, header, node2, header, g);
    OneTreeAvl(g, t, header, node1, node2);
    OneTreeFrame(g, t, header, node1, node2);
  }

  lemma OneTreeAvl(g: Store, t: Tree, h: Node, a: Node, b: Node)
    requires AvlValid(g, t, h) && a in Nodes(t) && b in Nodes(t) && a != b
    ensures AvlValid(AvlSwapped(g, a, h, b, h), RenameTree(t, a, b), h)
  {
    OneTreeSwappable(g, t, h, a, b);
    OneTreeSwapped(g, t, h, a, b);
    SwappedSame(g, a, h, b, h);
    SwappedAvl(g, Swapped(g, a, h, b, h), AvlSwapped(g, a, h, b, h), t, h, a, b);
  }

  lemma {:induction false} RenameSame(t: Tree, a: Node)
    ensures RenameTree(t, a, a) == t
  {
    if t.Bin? {
      RenameSame(t.left, a);
      RenameSame(t.right, a);
    }
  }

  method SwapBalances(node1: Node, node2: Node, ghost g: Store) returns (ghost g': Store)
    requires Matches(g) && node1 in g.nodes && node2 in g.nodes
    modifies g.nodes
    ensures Matches(g')
    ensures g' == g.(balance := Put(Put(g.balance, node1, g.balance(node2)), node2, g.balance(node1)))
  {
    var c := node1.balance;
    g' := SetBalance(node1, node2.balance, g);
    g' := SetBalance(node2, c, g');
  }

  lemma SwappedAvl(g: Store, g1: Store, g': Store, t: Tree, header: Node, a: Node, b: Node)
    requires AvlValid(g, t, header) && g1.balance == g.balance && Valid(g1, RenameTree(t, a, b), header)
    requires header != a && header != b
    requires g' == g1.(balance := Put(Put(g1.balance, a, g1.balance(b)), b, g1.balance(a)))
    ensures AvlValid(g', RenameTree(t, a, b), header)
  {
    RenamedAvl(g.balance, g'.balance, t, a, b);
    SameLinks(g1, g', RenameTree(t, a, b), header);
    hide Avl, Linked, Ends;
  }

  /** Links do not depend on balance factors. */
  lemma SameLinks(g: Store, g': Store, t: Tree, header: Node)
    requires Valid(g, t, header) && g' == g.(balance := g'.balance)
    ensures Valid(g', t, header)
  {
  }

  lemma TwoTreesAvl(g: Store, t1: Tree, h1: Node, t2: Tree, h2: Node, a: Node, b: Node, t: Tree, h: Node)
    requires TwoTrees(g, t1, h1, t2, h2) && a in Nodes(t1) && b in Nodes(t2)
        && ((t == t1 && h == h1) || (t == t2 && h == h2))
    ensures AvlValid(AvlSwapped(g, a, h1, b, h2), RenameTree(t, a, b), h)
  {
    var g1 := Swapped(g, a, h1, b, h2);
    TwoTreesSwappable(g, t1, h1, t2, h2, a, b);
    TwoTreesSwapped(g, t1, h1, t2, h2, a, b, t, h);
    SwappedSame(g, a, h1, b, h2);
    SwappedAvl(g, g1, g1.(balance := Put(Put(g1.balance, a, g1.balance(b)), b, g1.balance(a))), t, h, a, b);
  }

  ghost function AvlSwapped(g: Store, a: Node, h1: Node, b: Node, h2: Node): Store
  {
    var g1 := Swapped(g, a, h1, b, h2);
    g1.(balance := Put(Put(g1.balance, a, g1.balance(b)), b, g1.balance(a)))
  }

  /** Nothing but the nodes around the two, and the headers, has changed. */
  lemma SwappedWithin(g: Store, ns: set<Node>, a: Node, h1: Node, b: Node, h2: Node)
    requires Swappable(g, a, h1, b, h2) && Knit(g, ns, a, h1) && Knit(g, ns, b, h2) && a in ns && b in ns
    ensures UntouchedBut(g, AvlSwapped(g, a, h1, b, h2), ns, h1, h2)
  {
    SwappedSame(g, a, h1, b, h2);
    forall x <- g.nodes | x !in ns && x != h1 && x != h2 ensures
      var g1 := Swapped(g, a, h1, b, h2);
      g1.parent(x) == g.parent(x) && g1.left(x) == g.left(x) && g1.right(x) == g.right(x)
    {
      RemoteFrom(g, ns, x, a, h1, b, h2);
      SwappedRemote(g, x, a, h1, b, h2);
    }
    AvlSwappedLinks(g, a, h1, b, h2);
  }

  lemma RemoteFrom(g: Store, ns: set<Node>, x: Node, a: Node, h1: Node, b: Node, h2: Node)
    requires Knit(g, ns, a, h1) && Knit(g, ns, b, h2) && a in ns && b in ns && x !in ns && x != h1 && x != h2
    ensures Remote(g, x, a, h1, b, h2)
  {
  }

  lemma AvlSwappedLinks(g: Store, a: Node, h1: Node, b: Node, h2: Node)
    ensures var g', g1 := AvlSwapped(g, a, h1, b, h2), Swapped(g, a, h1, b, h2);
      && g'.nodes == g1.nodes && g'.parent == g1.parent && g'.left == g1.left && g'.right == g1.right
      && forall x :: x != a && x != b ==> g'.balance(x) == g1.balance(x)
  {
  }

  lemma OneTreeFrame(g: Store, t: Tree, h: Node, a: Node, b: Node)
    requires AvlValid(g, t, h) && a in Nodes(t) && b in Nodes(t) && a != b
    ensures Untouched(g, AvlSwapped(g, a, h, b, h), Nodes(t), h)
  {
    hide Swapped, Swappable;
    OneTreeSwappable(g, t, h, a, b);
    KnitNode(g, t, h, a);
    KnitNode(g, t, h, b);
    SwappedWithin(g, Nodes(t), a, h, b, h);
    SwappedSame(g, a, h, b, h);
    AvlSwappedLinks(g, a, h, b, h);
  }

  lemma KnitWider(g: Store, ns: set<Node>, more: set<Node>, x: Node, h: Node)
    requires Knit(g, ns, x, h) && ns <= more
    ensures Knit(g, more, x, h)
  {
  }

  lemma TwoTreesFrame(g: Store, t1: Tree, h1: Node, t2: Tree, h2: Node, a: Node, b: Node)
    requires TwoTrees(g, t1, h1, t2, h2) && a in Nodes(t1) && b in Nodes(t2)
    ensures UntouchedBut(g, AvlSwapped(g, a, h1, b, h2), Nodes(t1) + Nodes(t2), h1, h2)
  {
    hide Swapped, Swappable, Knit;
    TwoTreesSwappable(g, t1, h1, t2, h2, a, b);
    KnitNode(g, t1, h1, a);
    KnitNode(g, t2, h2, b);
    KnitWider(g, Nodes(t1), Nodes(t1) + Nodes(t2), a, h1);
    KnitWider(g, Nodes(t2), Nodes(t1) + Nodes(t2), b, h2);
    SwappedWithin(g, Nodes(t1) + Nodes(t2), a, h1, b, h2);
  }

  /** The two trees have no node in common after the exchange either. */
  lemma RenamedApart(g: Store, g': Store, t1: Tree, h1: Node, t2: Tree, h2: Node, a: Node, b: Node)
    requires TwoTrees(g, t1, h1, t2, h2) && a in Nodes(t1) && b in Nodes(t2)
    requires AvlValid(g', RenameTree(t1, a, b), h1) && AvlValid(g', RenameTree(t2, a, b), h2)
    ensures TwoTrees(g', RenameTree(t1, a, b), h1, RenameTree(t2, a, b), h2)
  {
    hide AvlValid, Nodes, RenameTree;
    forall n: Node ensures n in Nodes(RenameTree(t1, a, b)) <==> Swap(n, a, b) in Nodes(t1) {
      RenamedNodes(t1, a, b, n);
    }
    forall n: Node ensures n in Nodes(RenameTree(t2, a, b)) <==> Swap(n, a, b) in Nodes(t2) {
      RenamedNodes(t2, a, b, n);
    }
    HeadersOutside(g, t1, h1);
    HeadersOutside(g, t2, h2);
    SetsApart(Nodes(t1), Nodes(t2), Nodes(RenameTree(t1, a, b)), Nodes(RenameTree(t2, a, b)), a, b, h1, h2);
  }

  lemma HeadersOutside(g: Store, t: Tree, h: Node)
    requires AvlValid(g, t, h)
    ensures h !in Nodes(t)
  {
  }

  lemma SetsApart(s: set<Node>, r: set<Node>, s': set<Node>, r': set<Node>, a: Node, b: Node, h1: Node, h2: Node)
    requires s !! r && a in s && b in r && h1 !in s && h2 !in r && h1 !in r && h2 !in s
    requires (forall n: Node :: n in s' <==> Swap(n, a, b) in s) && forall n: Node :: n in r' <==> Swap(n, a, b) in r
    ensures s' !! r' && h1 !in r' && h2 !in s'
  {
  }

  method SwapDifferent(node1: Node, header1: Node, node2: Node, header2: Node, ghost g: Store) returns (ghost g': Store)
    requires Matches(g) && Swappable(g, node1, header1, node2, header2)
    requires node1 in g.nodes && node2 in g.nodes && header1 in g.nodes && header2 in g.nodes
    requires Known(g, g.left(node1)) && Known(g, g.right(node1)) && Known(g, g.left(node2)) && Known(g, g.right(node2))
    requires Known(g, g.parent(node1)) && Known(g, g.parent(node2))
    modifies g.nodes
    ensures Matches(g') && g' == AvlSwapped(g, node1, header1, node2, header2)
  {
    SwappedSame(g, node1, header1, node2, header2);
    g' := SwapAllLinks(node1, header1, node2, header2, g);
    g' := SwapBalances(node1, node2, g');
  }

  lemma BothValid(g: Store, t1: Tree, h1: Node, t2: Tree, h2: Node)
    requires TwoTrees(g, t1, h1, t2, h2)
    ensures Valid(g, t1, h1) && Valid(g, t2, h2) && Away(Nodes(t2), h2, Top, t1, h1) && Nodes(t1) !! Nodes(t2)
  {
    hide Linked, Ends, Avl, Away, Nodes;
  }

  /** A node of one AVL tree changes places with a node of another. */
  method SwapNodesOfTrees(node1: Node, header1: Node, node2: Node, header2: Node, ghost g: Store, ghost t1: Tree,
                          ghost t2: Tree)
    returns (ghost g': Store)
    requires Matches(g) && TwoTrees(g, t1, header1, t2, header2) && node1 in Nodes(t1) && node2 in Nodes(t2)
    modifies g.nodes
    ensures Matches(g') && TwoTrees(g', RenameTree(t1, node1, node2), header1, RenameTree(t2, node1, node2), header2)
    ensures InOrder(RenameTree(t1, node1, node2)) == RenameOrder(InOrder(t1), node1, node2)
    ensures InOrder(RenameTree(t2, node1, node2)) == RenameOrder(InOrder(t2), node1, node2)
    ensures UntouchedBut(g, g', Nodes(t1) + Nodes(t2), header1, header2)
  {
    hide *;
    BothValid(g, t1, header1, t2, header2);
    TwoTreesSwappable(g, t1, header1, t2, header2, node1, node2);
    SwappableKnown(g, t1, header1, node1);
    SwappableKnown(g, t2, header2, node2);
    g' := SwapDifferent(node1, header1, node2, header2, g);
    TwoTreesAvl(g, t1, header1, t2, header2, node1, node2, t1, header1);
    TwoTreesAvl(g, t1, header1, t2, header2, node1, node2, t2, header2);
    TwoTreesFrame(g, t1, header1, t2, header2, node1, node2);
    RenamedApart(g, g', t1, header1, t2, header2, node1, node2);
    RenamedOrder(t1, node1, node2);
    RenamedOrder(t2, node1, node2);
  }

  /** The same with the header found by climbing. */
  method SwapNodes(node1: Node, node2: Node, ghost header: Node, ghost g: Store, ghost t: Tree)
    returns (ghost g': Store)
    requires Matches(g) && AvlValid(g, t, header) && node1 in Nodes(t) && node2 in Nodes(t)
    modifies g.nodes
    ensures Matches(g') && AvlValid(g', RenameTree(t, node1, node2), header) && Untouched(g, g', Nodes(t), header)
    ensures InOrder(RenameTree(t, node1, node2)) == RenameOrder(InOrder(t), node1, node2)
  {
    var h := GetHeader(node1, header, g, t);
    g' := SwapNodesInTree(node1, node2, h, g, t);
  }

  // ---------------------------------------------------------- and back again

  /** A tree and its header tell all the links of its nodes, and its shape the balance factors. */
  lemma {:induction false} TreeTells(g: Store, g': Store, t: Tree, p: Node)
    requires Down(g.left, g.right, t) && Up(g.parent, t, p) && Avl(g.balance, t)
    requires Down(g'.left, g'.right, t) && Up(g'.parent, t, p) && Avl(g'.balance, t)
    ensures forall n <- Nodes(t) :: SameNode(g, g', n)
  {
    if t.Bin? {
      TreeTells(g, g', t.left, t.node);
      TreeTells(g, g', t.right, t.node);
      assert SameNode(g, g', t.node);
    }
  }

  ghost predicate SameNode(g: Store, g': Store, n: Node)
  {
    g'.parent(n) == g.parent(n) && g'.left(n) == g.left(n) && g'.right(n) == g.right(n) && g'.balance(n) == g.balance(n)
  }

  /** Both nodes are still in the tree. */
  lemma StillIn(t: Tree, a: Node, b: Node, n: Node)
    requires a in Nodes(t) && b in Nodes(t) && (n == a || n == b)
    ensures n in Nodes(RenameTree(t, a, b))
  {
    RenamedNodes(t, a, b, n);
  }

  lemma SwappedStore(g: Store, g1: Store, t: Tree, a: Node, b: Node, header: Node)
    requires Untouched(g, g1, Nodes(t), header) && a in Nodes(t) && b in Nodes(t)
    ensures g1.nodes == g.nodes && Nodes(RenameTree(t, a, b)) == Nodes(t)
  {
    hide Nodes, RenameTree;
    forall n <- Nodes(RenameTree(t, a, b)) ensures n in Nodes(t) {
      RenamedNodes(t, a, b, n);
    }
    forall n <- Nodes(t) ensures n in Nodes(RenameTree(t, a, b)) {
      RenamedNodes(t, a, b, n);
    }
  }

  lemma BackAgain(g: Store, g1: Store, g2: Store, t: Tree, a: Node, b: Node, header: Node)
    requires AvlValid(g, t, header) && AvlValid(g2, t, header)
    requires Untouched(g, g1, Nodes(t), header) && Untouched(g1, g2, Nodes(RenameTree(t, a, b)), header)
    requires Nodes(RenameTree(t, a, b)) == Nodes(t)
    ensures g2.nodes == g.nodes && forall n <- g.nodes :: SameNode(g, g2, n)
  {
    hide Down, Up, Avl, InOrder, Distinct;
    TreeTells(g, g2, t, header);
  }

  /** Swapping the same two nodes of a tree again restores every link and balance factor. */
  method SwapTwice(node1: Node, node2: Node, ghost header: Node, ghost g: Store, ghost t: Tree)
    returns (ghost g': Store)
    requires Matches(g) && AvlValid(g, t, header) && node1 in Nodes(t) && node2 in Nodes(t)
    modifies g.nodes
    ensures Matches(g') && g'.nodes == g.nodes && AvlValid(g', t, header)
    ensures forall n <- g.nodes :: SameNode(g, g', n)
  {
    hide *;
    g' := SwapNodes(node1, node2, header, g, t);
    ghost var g1 := g';
    StillIn(t, node1, node2, node1);
    StillIn(t, node1, node2, node2);
    SwappedStore(g, g1, t, node1, node2, header);
    g' := SwapNodes(node1, node2, header, g1, RenameTree(t, node1, node2));
    RenameTwice(t, node1, node2);
    BackAgain(g, g1, g', t, node1, node2, header);
  }
}

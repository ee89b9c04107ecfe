/** Linking a new node at a place found by one of the insertion checks. */
module BstInsert {
  import opened TreeNodes
  import opened Rotations
  import opened TreeWalk
  import opened BstErase

  /** What the insertion checks hand over to the commit. */
  datatype CommitData = CommitData(linkLeft: bool, node: Node)

  /** The commit data name the hole of `c`. */
  ghost predicate Names(d: CommitData, c: Ctx, header: Node)
  {
    d.node == CParent(c, header) && (!c.Top? ==> d.linkLeft == c.InLeft?)
  }

  ghost function Committed(g: Store, header: Node, n: Node, c: Ctx): Store
  {
    var p := CParent(c, header);
    var g1 :=
      if c.Top? then g.(parent := Put(g.parent, header, n), right := Put(g.right, header, n),
                        left := Put(g.left, header, n))
      else if c.InLeft? then
        var L := Put(g.left, p, n);
        g.(left := if p == L(header) then Put(L, header, n) else L)
      else
        var R := Put(g.right, p, n);
        g.(right := if p == R(header) then Put(R, header, n) else R);
    g1.(parent := Put(g1.parent, n, p), right := Put(g1.right, n, null), left := Put(g1.left, n, null))
  }

  method InsertCommit(header: Node, newNode: Node, d: CommitData, ghost g: Store, ghost c: Ctx)
    returns (ghost g': Store)
    requires Matches(g) && header in g.nodes && newNode in g.nodes && d.node in g.nodes
    requires Names(d, c, header) && (!c.Top? ==> c.node != header)
    modifies g.nodes
    ensures Matches(g') && g' == Committed(g, header, newNode, c)
  {
    var parentNode := d.node;
    if parentNode == header {
      g' := SetParent(header, newNode, g);
      g' := SetRight(header, newNode, g');
      g' := SetLeft(header, newNode, g');
    } else if d.linkLeft {
      g' := SetLeft(parentNode, newNode, g);
      if parentNode == header.left {
        g' := SetLeft(header, newNode, g');
      }
    } else {
      g' := SetRight(parentNode, newNode, g);
      if parentNode == header.right {
        g' := SetRight(header, newNode, g');
      }
    }
    g' := SetParent(newNode, parentNode, g');
    g' := SetRight(newNode, null, g');
    g' := SetLeft(newNode, null, g');
  }

  ghost predicate Room(g: Store, header: Node, n: Node, c: Ctx)
  {
    && Linked(g, c, Leaf, header) && Ends(g, header, Before(c) + After(c))
    && n in g.nodes && n != header && n !in CNodes(c)
  }

  lemma CommittedLinked(g: Store, header: Node, n: Node, c: Ctx)
    requires Room(g, header, n, c)
    ensures Linked(Committed(g, header, n, c), c, Bin(Leaf, n, Leaf), header)
  {
    var g', t := Committed(g, header, n, c), Bin(Leaf, n, Leaf);
    assert !c.Top? ==> c.node in CNodes(c);
    assert Nodes(t) == {n};
    Rehang(g.left, g.right, g'.left, g'.right, c, null, n);
    FrameCUp(g.parent, g'.parent, c, header);
    if !c.Top? {
      RootAbove(c, n);
    }
  }

  /** A new first node arrives exactly when the place is to the left of the old first node. */
  lemma FirstPlace(c: Ctx, header: Node)
    requires CDistinct(c) && header !in CNodes(c) && !c.Top?
    ensures Before(c) + After(c) != [] && (c.InLeft? ==> After(c) != []) && (c.InRight? ==> Before(c) != [])
    ensures c.InLeft? ==> ((Before(c) + After(c))[0] == c.node <==> Before(c) == [])
    ensures c.InRight? ==> ((Before(c) + After(c))[|Before(c) + After(c)| - 1] == c.node <==> After(c) == [])
  {
    BeforeNodes(c.up, c.node);
    OrderedNodes(Side(c));
  }

  lemma CommittedEnds(g: Store, header: Node, n: Node, c: Ctx)
    requires Room(g, header, n, c)
    ensures Ends(Committed(g, header, n, c), header, Before(c) + [n] + After(c))
  {
    var s, s' := Before(c) + After(c), Before(c) + [n] + After(c);
    if !c.Top? {
      FirstPlace(c, header);
      assert c.node in CNodes(c);
      assert Before(c) != [] ==> s'[0] == s[0];
      assert After(c) != [] ==> s'[|s'| - 1] == s[|s| - 1];
    }
  }

  lemma CommittedWithin(g: Store, header: Node, n: Node, c: Ctx)
    requires Room(g, header, n, c)
    ensures LinksWithin(g, Committed(g, header, n, c), CNodes(c) + {n}, header)
  {
    assert !c.Top? ==> c.node in CNodes(c);
  }
}

/** Exchanging the places of two nodes, wherever they stand: the links first, then what they mean for the trees. */
module LinkSwap {
  import opened TreeNodes

  /** The node that stands where `n` stood. */
  ghost function Swap(n: Node?, a: Node, b: Node): (m: Node?)
    ensures n != null ==> m != null
  {
    if n == a then b else if n == b then a else n
  }

  /** The links of `x` are those of the node that stood in its place, themselves renamed. */
  ghost predicate Renamed(g: Store, g': Store, x: Node, a: Node, b: Node)
  {
    var y: Node := Swap(x, a, b);
    && g'.left(x) == Swap(g.left(y), a, b) && g'.right(x) == Swap(g.right(y), a, b)
    && g'.parent(x) == Swap(g.parent(y), a, b)
  }

  /** What the two nodes find around them. */
  ghost predicate Settled(g: Store, n: Node, h: Node)
  {
    && n != h && g.parent(n) != null && g.parent(n) != n
    && (g.left(n) != null ==> g.left(n) != n && g.parent(g.left(n)) == n && g.left(n) != g.right(n))
    && (g.right(n) != null ==> g.right(n) != n && g.parent(g.right(n)) == n)
    && (g.parent(n) != h ==> (g.left(g.parent(n)) == n <==> g.right(g.parent(n)) != n) && g.parent(g.parent(n)) != n)
    && (g.parent(n) == h <==> g.parent(h) == n)
  }

  /** The headers and the nodes of the other tree are never among them. */
  ghost predicate Foreign(g: Store, n: Node, h: Node)
  {
    n != h && g.left(n) != h && g.right(n) != h && g.left(h) != n && g.right(h) != n && g.parent(h) != n
        && g.parent(n) != h
  }

  ghost predicate Swappable(g: Store, a: Node, h1: Node, b: Node, h2: Node)
  {
    && a != b && Settled(g, a, h1) && Settled(g, b, h2)
    && g.left(a) != h1 && g.right(a) != h1 && g.left(b) != h2 && g.right(b) != h2
    && (h1 != h2 ==> Foreign(g, a, h2) && Foreign(g, b, h1) && Strangers(g, a, b))
  }

  ghost predicate Strangers(g: Store, a: Node, b: Node)
  {
    && g.parent(a) != b && g.parent(b) != a && g.parent(a) != g.parent(b)
    && g.left(a) != b && g.right(a) != b && g.left(b) != a && g.right(b) != a
  }

  // -------------------------------------------------------------- headers

  ghost function HeaderMoved(g: Store, h: Node, a: Node, b: Node): Store
  {
    var L := if a == g.left(h) then Put(g.left, h, b) else g.left;
    var R := if a == g.right(h) then Put(g.right, h, b) else g.right;
    var P := if a == g.parent(h) then Put(g.parent, h, b) else g.parent;
    g.(left := L, right := R, parent := P)
  }

  ghost function HeaderSwapped(g: Store, h: Node, a: Node, b: Node): Store
  {
    var L := if a == g.left(h) then Put(g.left, h, b) else if b == g.left(h) then Put(g.left, h, a) else g.left;
    var R := if a == g.right(h) then Put(g.right, h, b) else if b == g.right(h) then Put(g.right, h, a) else g.right;
    var P := if a == g.parent(h) then Put(g.parent, h, b) else if b == g.parent(h) then Put(g.parent, h, a)
        else g.parent;
    g.(left := L, right := R, parent := P)
  }

  /**
   A parent and its child point at themselves for a moment, so that swapping their links makes them point at each other.
   */
  ghost function Untangled(g: Store, a: Node, b: Node): Store
  {
    if a == g.parent(b) then
      var g1 := g.(parent := Put(g.parent, b, b));
      if b == g1.right(a) then g1.(right := Put(g1.right, a, a)) else g1.(left := Put(g1.left, a, a))
    else if b == g.parent(a) then
      var g1 := g.(parent := Put(g.parent, a, a));
      if a == g1.right(b) then g1.(right := Put(g1.right, b, b)) else g1.(left := Put(g1.left, b, b))
    else g
  }

  ghost function HeadersDone(g: Store, a: Node, h1: Node, b: Node, h2: Node): Store
  {
    if h1 != h2 then HeaderMoved(HeaderMoved(g, h1, a, b), h2, b, a)
    else Untangled(HeaderSwapped(g, h1, a, b), a, b)
  }

  ghost function LinksSwapped(g: Store, a: Node, b: Node): Store
  {
    g.(left := Put(Put(g.left, a, g.left(b)), b, g.left(a)),
       right := Put(Put(g.right, a, g.right(b)), b, g.right(a)),
       parent := Put(Put(g.parent, a, g.parent(b)), b, g.parent(a)))
  }

  /** The two nodes and the headers have their new links; nobody else knows yet. */
  ghost predicate OwnSwapped(g: Store, g': Store, a: Node, h1: Node, b: Node, h2: Node)
  {
    && g'.nodes == g.nodes && g'.balance == g.balance
    && Renamed(g, g', a, a, b) && Renamed(g, g', b, a, b) && Renamed(g, g', h1, a, b) && Renamed(g, g', h2, a, b)
    && forall x <- g.nodes :: x != a && x != b && x != h1 && x != h2 ==>
         g'.left(x) == g.left(x) && g'.right(x) == g.right(x) && g'.parent(x) == g.parent(x)
  }

  lemma OwnLinksApart(g: Store, a: Node, h1: Node, b: Node, h2: Node)
    requires Swappable(g, a, h1, b, h2) && h1 != h2
    ensures OwnSwapped(g, LinksSwapped(HeadersDone(g, a, h1, b, h2), a, b), a, h1, b, h2)
  {
  }

  lemma OwnLinksLoose(g: Store, a: Node, b: Node, h: Node)
    requires Swappable(g, a, h, b, h) && g.parent(a) != b && g.parent(b) != a
    ensures OwnSwapped(g, LinksSwapped(HeadersDone(g, a, h, b, h), a, b), a, h, b, h)
  {
  }

  lemma OwnLinksParent(g: Store, a: Node, b: Node, h: Node)
    requires Swappable(g, a, h, b, h) && g.parent(b) == a
    ensures OwnSwapped(g, LinksSwapped(HeadersDone(g, a, h, b, h), a, b), a, h, b, h)
  {
  }

  lemma OwnLinksChild(g: Store, a: Node, b: Node, h: Node)
    requires Swappable(g, a, h, b, h) && g.parent(a) == b
    ensures OwnSwapped(g, LinksSwapped(HeadersDone(g, a, h, b, h), a, b), a, h, b, h)
  {
  }

  lemma OwnLinks(g: Store, a: Node, h1: Node, b: Node, h2: Node)
    requires Swappable(g, a, h1, b, h2)
    ensures OwnSwapped(g, LinksSwapped(HeadersDone(g, a, h1, b, h2), a, b), a, h1, b, h2)
  {
    if h1 != h2 {
      OwnLinksApart(g, a, h1, b, h2);
    } else if g.parent(b) == a {
      OwnLinksParent(g, a, b, h1);
    } else if g.parent(a) == b {
      OwnLinksChild(g, a, b, h1);
    } else {
      OwnLinksLoose(g, a, b, h1);
    }
  }

  // ------------------------------------------------------------- children

  ghost function ChildrenTold(g: Store, n: Node): Store
  {
    var P1 := if g.left(n) != null then Put(g.parent, g.left(n), n) else g.parent;
    g.(parent := if g.right(n) != null then Put(P1, g.right(n), n) else P1)
  }

  /** What any other node of one of the trees finds in its own links. */
  ghost predicate Bystander(g: Store, x: Node, a: Node, h1: Node, b: Node, h2: Node)
  {
    && x != a && x != b && x != h1 && x != h2
    && (g.left(x) == a ==> g.parent(a) == x) && (g.right(x) == a ==> g.parent(a) == x)
    && (g.left(x) == b ==> g.parent(b) == x) && (g.right(x) == b ==> g.parent(b) == x)
    && (g.parent(x) == a ==> g.left(a) == x || g.right(a) == x)
    && (g.parent(x) == b ==> g.left(b) == x || g.right(b) == x)
    && (g.left(x) != null ==> g.left(x) != g.right(x))
  }

  ghost function Told(g: Store, a: Node, h1: Node, b: Node, h2: Node): Store
  {
    ChildrenTold(ChildrenTold(LinksSwapped(HeadersDone(g, a, h1, b, h2), a, b), a), b)
  }

  /** From here on every parent link is right. */
  lemma ToldParents(g: Store, a: Node, h1: Node, b: Node, h2: Node)
    requires Swappable(g, a, h1, b, h2)
    ensures var g' := Told(g, a, h1, b, h2);
        OwnSwapped(g, g'.(parent := LinksSwapped(HeadersDone(g, a, h1, b, h2), a, b).parent), a, h1, b, h2)
    ensures Renamed(g, Told(g, a, h1, b, h2), a, a, b) && Renamed(g, Told(g, a, h1, b, h2), b, a, b)
    ensures Renamed(g, Told(g, a, h1, b, h2), h1, a, b) && Renamed(g, Told(g, a, h1, b, h2), h2, a, b)
  {
    OwnLinks(g, a, h1, b, h2);
  }

  lemma ToldBystander(g: Store, x: Node, a: Node, h1: Node, b: Node, h2: Node)
    requires Swappable(g, a, h1, b, h2) && Bystander(g, x, a, h1, b, h2) && x in g.nodes
    ensures Told(g, a, h1, b, h2).parent(x) == Swap(g.parent(x), a, b)
    ensures Told(g, a, h1, b, h2).left(x) == g.left(x) && Told(g, a, h1, b, h2).right(x) == g.right(x)
  {
    OwnLinks(g, a, h1, b, h2);
  }

  // -------------------------------------------------------------- parents

  ghost function ChildRenamed(g: Store, p: Node, o: Node, n: Node): Store
  {
    var L := if g.left(p) == o then Put(g.left, p, n) else g.left;
    g.(left := L, right := if g.right(p) == o then Put(g.right, p, n) else g.right)
  }

  ghost function ParentsTold(g: Store, a: Node, h1: Node, b: Node, h2: Node): Store
  {
    var p := g.parent(a);
    if p == g.parent(b) then
      if p == null then g else g.(left := Put(g.left, p, g.right(p)), right := Put(g.right, p, g.left(p)))
    else
      var g1 := if p != null && p != h2 then ChildRenamed(g, p, b, a) else g;
      var q := g1.parent(b);
      if q != null && q != h1 then ChildRenamed(g1, q, a, b) else g1
  }

  ghost function Swapped(g: Store, a: Node, h1: Node, b: Node, h2: Node): Store
  {
    ParentsTold(Told(g, a, h1, b, h2), a, h1, b, h2)
  }

  /** How the parents of the two nodes come to know which one they have now. */
  lemma ToldLast(g: Store, a: Node, h1: Node, b: Node, h2: Node)
    requires Swappable(g, a, h1, b, h2)
    ensures var g', g3 := Swapped(g, a, h1, b, h2), Told(g, a, h1, b, h2);
      && g'.parent == g3.parent && g3.parent(a) == Swap(g.parent(b), a, b) && g3.parent(b) == Swap(g.parent(a), a, b)
      && (g3.parent(a) == g3.parent(b) <==> g.parent(a) == g.parent(b))
  {
    ToldParents(g, a, h1, b, h2);
  }

  lemma SwappedSame(g: Store, a: Node, h1: Node, b: Node, h2: Node)
    requires Swappable(g, a, h1, b, h2)
    ensures Swapped(g, a, h1, b, h2).nodes == g.nodes && Swapped(g, a, h1, b, h2).balance == g.balance
  {
    ToldParents(g, a, h1, b, h2);
  }

  /** What a child link becomes when the parents are told. */
  ghost function Retold(n: Node?, x: Node, p: Node?, q: Node?, a: Node, h1: Node, b: Node, h2: Node): Node?
  {
    var m := if x == p && p != h2 && n == b then a else n;
    if x == q && q != h1 && m == a then b else m
  }

  lemma RetoldAt(g: Store, x: Node, a: Node, h1: Node, b: Node, h2: Node)
    ensures var g', p, q := ParentsTold(g, a, h1, b, h2), g.parent(a), g.parent(b);
      && g'.parent == g.parent
      && (p != q ==> g'.left(x) == Retold(g.left(x), x, p, q, a, h1, b, h2))
      && (p != q ==> g'.right(x) == Retold(g.right(x), x, p, q, a, h1, b, h2))
      && (p == q && p != x ==> g'.left(x) == g.left(x) && g'.right(x) == g.right(x))
  {
  }

  lemma SwappedOwn(g: Store, a: Node, h1: Node, b: Node, h2: Node)
    requires Swappable(g, a, h1, b, h2)
    ensures Renamed(g, Swapped(g, a, h1, b, h2), a, a, b) && Renamed(g, Swapped(g, a, h1, b, h2), b, a, b)
  {
    hide Told, ParentsTold;
    ToldOwn(g, a, h1, b, h2);
    RetoldAt(Told(g, a, h1, b, h2), a, a, h1, b, h2);
    RetoldAt(Told(g, a, h1, b, h2), b, a, h1, b, h2);
  }

  lemma ToldOwn(g: Store, a: Node, h1: Node, b: Node, h2: Node)
    requires Swappable(g, a, h1, b, h2)
    ensures var g' := Told(g, a, h1, b, h2);
      Renamed(g, g', a, a, b) && Renamed(g, g', b, a, b) && Renamed(g, g', h1, a, b) && Renamed(g, g', h2, a, b)
  {
    hide *;
    ToldParents(g, a, h1, b, h2);
  }

  lemma SwappedHeaders(g: Store, a: Node, h1: Node, b: Node, h2: Node)
    requires Swappable(g, a, h1, b, h2)
    ensures Renamed(g, Swapped(g, a, h1, b, h2), h1, a, b) && Renamed(g, Swapped(g, a, h1, b, h2), h2, a, b)
  {
    hide Told, ParentsTold;
    ToldOwn(g, a, h1, b, h2);
    RetoldAt(Told(g, a, h1, b, h2), h1, a, h1, b, h2);
    RetoldAt(Told(g, a, h1, b, h2), h2, a, h1, b, h2);
  }

  /** How the children of `x` change when the parents are told, whatever came before. */
  lemma TellingParents(g: Store, g3: Store, x: Node, a: Node, h1: Node, b: Node, h2: Node)
    requires Bystander(g, x, a, h1, b, h2) && g3.left(x) == g.left(x) && g3.right(x) == g.right(x)
    requires g3.parent(a) == Swap(g.parent(b), a, b) && g3.parent(b) == Swap(g.parent(a), a, b)
    requires g.parent(a) == g.parent(b) == x
        ==> (g.left(x) == a && g.right(x) == b) || (g.left(x) == b && g.right(x) == a)
    requires a != b
    ensures var g' := ParentsTold(g3, a, h1, b, h2);
        g'.left(x) == Swap(g.left(x), a, b) && g'.right(x) == Swap(g.right(x), a, b)
  {
  }

  lemma SiblingsHangTogether(g: Store, x: Node, a: Node, h1: Node, b: Node, h2: Node)
    requires Swappable(g, a, h1, b, h2) && Bystander(g, x, a, h1, b, h2) && g.parent(a) == g.parent(b) == x
    ensures (g.left(x) == a && g.right(x) == b) || (g.left(x) == b && g.right(x) == a)
  {
  }

  lemma SwappedBystander(g: Store, x: Node, a: Node, h1: Node, b: Node, h2: Node)
    requires Swappable(g, a, h1, b, h2) && Bystander(g, x, a, h1, b, h2) && x in g.nodes
    ensures Renamed(g, Swapped(g, a, h1, b, h2), x, a, b)
  {
    ToldLast(g, a, h1, b, h2);
    ToldBystander(g, x, a, h1, b, h2);
    if g.parent(a) == g.parent(b) == x {
      SiblingsHangTogether(g, x, a, h1, b, h2);
    }
    TellingParents(g, Told(g, a, h1, b, h2), x, a, h1, b, h2);
  }

  /** Nothing else is touched. */
  ghost predicate Remote(g: Store, x: Node, a: Node, h1: Node, b: Node, h2: Node)
  {
    && x != a && x != b && x != h1 && x != h2
    && x != g.left(a) && x != g.right(a) && x != g.left(b) && x != g.right(b) && x != g.parent(a) && x != g.parent(b)
  }

  lemma SwappedRemote(g: Store, x: Node, a: Node, h1: Node, b: Node, h2: Node)
    requires Swappable(g, a, h1, b, h2) && Remote(g, x, a, h1, b, h2) && x in g.nodes
    ensures var g' := Swapped(g, a, h1, b, h2);
        g'.left(x) == g.left(x) && g'.right(x) == g.right(x) && g'.parent(x) == g.parent(x)
  {
    hide Told, ParentsTold;
    ToldOwn(g, a, h1, b, h2);
    ToldRemote(g, x, a, h1, b, h2);
    RetoldAt(Told(g, a, h1, b, h2), x, a, h1, b, h2);
  }

  lemma ToldRemote(g: Store, x: Node, a: Node, h1: Node, b: Node, h2: Node)
    requires Swappable(g, a, h1, b, h2) && Remote(g, x, a, h1, b, h2) && x in g.nodes
    ensures var g' := Told(g, a, h1, b, h2);
        g'.left(x) == g.left(x) && g'.right(x) == g.right(x) && g'.parent(x) == g.parent(x)
  {
    OwnLinks(g, a, h1, b, h2);
  }
}

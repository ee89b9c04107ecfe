/**
 Buckets that keep equal nodes in groups.  The nodes of a bucket are a circular list with the bucket itself;
 within a group the group links go backwards, and from the first node to the last.
 */
module Groups {
  import opened HashItems
  import opened SlistNodes

  type NodeGroup = seq<Node>

  /** The nodes of a bucket in order. */
  ghost function Flat(gs: seq<NodeGroup>): seq<Node>
  {
    if gs == [] then [] else gs[0] + Flat(gs[1..])
  }

  lemma {:induction false} FlatJoin(a: seq<NodeGroup>, b: seq<NodeGroup>)
    ensures Flat(a + b) == Flat(a) + Flat(b)
  {
    if a == [] {
      assert a + b == b;
    } else {
      assert (a + b)[1..] == a[1..] + b && (a + b)[0] == a[0];
      FlatJoin(a[1..], b);
      assert a[0] + (Flat(a[1..]) + Flat(b)) == (a[0] + Flat(a[1..])) + Flat(b);
    }
  }

  lemma FlatNext(gs: seq<NodeGroup>, k: nat)
    requires k < |gs|
    ensures Flat(gs[..k + 1]) == Flat(gs[..k]) + gs[k]
  {
    assert gs[..k + 1] == gs[..k] + [gs[k]];
    FlatJoin(gs[..k], [gs[k]]);
    assert Flat([gs[k]]) == gs[k] + Flat([gs[k]][1..]);
  }

  /** A group among the others. */
  lemma FlatAt(gs: seq<NodeGroup>, k: nat)
    requires k < |gs|
    ensures Flat(gs) == Flat(gs[..k]) + gs[k] + Flat(gs[k + 1..])
  {
    assert gs == gs[..k + 1] + gs[k + 1..];
    FlatJoin(gs[..k + 1], gs[k + 1..]);
    FlatNext(gs, k);
  }

  /** The group links of one group: a circular list, taken from back to front. */
  ghost predicate Reverse(g: NodeGroup)
    reads g`group
  {
    g != [] && forall i :: 0 <= i < |g| ==> g[i].group == g[if i == 0 then |g| - 1 else i - 1]
  }

  ghost function Members(gs: seq<NodeGroup>): set<Node>
  {
    set k, i | 0 <= k < |gs| && 0 <= i < |gs[k]| :: gs[k][i]
  }

  ghost predicate AllReverse(gs: seq<NodeGroup>)
    reads Members(gs)`group
  {
    forall k :: 0 <= k < |gs| ==> Reverse(gs[k])
  }

  /** A bucket with the nodes of the groups `gs`. */
  ghost predicate Form(b: Node, gs: seq<NodeGroup>)
    reads b, Flat(gs), Members(gs)
  {
    Ring([b] + Flat(gs)) && AllReverse(gs)
  }

  lemma FormParts(b: Node, gs: seq<NodeGroup>)
    ensures Form(b, gs) <==> Ring([b] + Flat(gs)) && AllReverse(gs)
  {
  }

  ghost predicate NonEmpty(gs: seq<NodeGroup>)
  {
    forall k :: 0 <= k < |gs| ==> gs[k] != []
  }

  /** The last node before group `k`, or the bucket. */
  ghost function Before(b: Node, gs: seq<NodeGroup>, k: nat): Node
    requires k <= |gs|
  {
    var c := [b] + Flat(gs[..k]);
    c[|c| - 1]
  }

  /** The first node of group `k`, or the bucket when there is none. */
  ghost function FirstOf(b: Node, gs: seq<NodeGroup>, k: nat): Node
    requires NonEmpty(gs)
  {
    if k < |gs| then gs[k][0] else b
  }

  lemma BeforeNext(b: Node, gs: seq<NodeGroup>, k: nat)
    requires Form(b, gs) && k <= |gs|
    ensures NonEmpty(gs)
    ensures Before(b, gs, k).next == FirstOf(b, gs, k) && (k < |gs| ==> gs[k] != [] && FirstOf(b, gs, k) == gs[k][0])
    ensures k < |gs| ==>
        Before(b, gs, k + 1) == gs[k][|gs[k]| - 1] && gs[k][0] != b && gs[k][0].group == gs[k][|gs[k]| - 1]
  {
    var c, i := [b] + Flat(gs), |Flat(gs[..k])|;
    if k < |gs| {
      FlatAt(gs, k);
      FlatNext(gs, k);
      assert c[i + 1] == gs[k][0] && c[0] == b;
      RingNext(c, i);
    } else {
      assert gs[..k] == gs;
      RingNext(c, i);
    }
  }

  lemma GroupPlace(b: Node, gs: seq<NodeGroup>, k: nat, i: nat)
    requires k < |gs| && i < |gs[k]|
    ensures 1 + |Flat(gs[..k])| + i < |[b] + Flat(gs)| && ([b] + Flat(gs))[1 + |Flat(gs[..k])| + i] == gs[k][i]
  {
    FlatAt(gs, k);
  }

  /** Two groups have no node in common. */
  lemma GroupsApart(b: Node, gs: seq<NodeGroup>, j: nat, k: nat)
    requires Distinct([b] + Flat(gs)) && j < k < |gs|
    ensures forall m, n :: 0 <= m < |gs[j]| && 0 <= n < |gs[k]| ==> gs[j][m] != gs[k][n]
  {
    FlatAt(gs[..k], j);
    assert gs[..k][..j] == gs[..j] && gs[..k][j] == gs[j];
    forall m, n | 0 <= m < |gs[j]| && 0 <= n < |gs[k]| ensures gs[j][m] != gs[k][n] {
      GroupPlace(b, gs, j, m);
      GroupPlace(b, gs, k, n);
    }
  }

  // ------------------------------------------------------------------- finding

  /** The node before the first of its group. */
  method GetPrevToFirstInGroup(b: Node, first: Node, ghost gs: seq<NodeGroup>, ghost k: nat) returns (p: Node)
    requires Form(b, gs) && k < |gs| && gs[k] != [] && first == gs[k][0]
    ensures p == Before(b, gs, k)
  {
    p := b;
    ghost var j := 0;
    BeforeNext(b, gs, 0);
    var n := p.next;
    while n != first
      invariant Form(b, gs) && NonEmpty(gs)
      invariant j <= k && p == Before(b, gs, j) && n == FirstOf(b, gs, j)
      decreases k - j
    {
      BeforeNext(b, gs, j);
      p := n.group;
      j := j + 1;
      BeforeNext(b, gs, j);
      n := p.next;
    }
    if j < k {
      GroupsApart(b, gs, j, k);
    }
  }

  ghost predicate AllEqual(g: NodeGroup, eq: (Item, Item) -> bool)
  {
    forall x, y :: x in g && y in g ==> eq(x.value, y.value)
  }

  ghost predicate NoneEqual(g: NodeGroup, h: NodeGroup, eq: (Item, Item) -> bool)
  {
    forall x, y :: x in g && y in h ==> !eq(x.value, y.value)
  }

  /** The groups hold equal nodes, and no two of them nodes that are equal. */
  ghost predicate KeyGroups(gs: seq<NodeGroup>, eq: (Item, Item) -> bool)
  {
    && (forall k :: 0 <= k < |gs| ==> AllEqual(gs[k], eq))
    && forall j, k :: 0 <= j < |gs| && 0 <= k < |gs| && j != k ==> NoneEqual(gs[j], gs[k], eq)
  }

  /** What is looked for holds of all nodes of a group or of none. */
  ghost predicate Uniformly(gs: seq<NodeGroup>, wanted: Item -> bool)
  {
    forall k :: 0 <= k < |gs| ==> forall x, y :: x in gs[k] && y in gs[k] ==> wanted(x.value) == wanted(y.value)
  }

  /** The first node from `i` on that is looked for, or the number of nodes. */
  ghost function Scan(c: seq<Node>, wanted: Item -> bool, i: nat): (r: nat)
    requires i <= |c|
    ensures i <= r <= |c| && (r < |c| ==> wanted(c[r].value)) && forall j :: i <= j < r ==> !wanted(c[j].value)
    decreases |c| - i
  {
    if i == |c| || wanted(c[i].value) then i else Scan(c, wanted, i + 1)
  }

  /** Looks at the first node of every group only. */
  method PrivFind(b: Node, wanted: Item -> bool, ghost gs: seq<NodeGroup>) returns (it: Node, prev: Node, ghost k: nat)
    requires Form(b, gs)
    ensures k <= |gs| && NonEmpty(gs) && Form(b, gs)
    ensures it == FirstOf(b, gs, k) && (k < |gs| ==> wanted(gs[k][0].value)) && forall j ::
        0 <= j < k ==> !wanted(gs[j][0].value)
    ensures prev == if k < |gs| then Before(b, gs, k) else b
  {
    prev, it, k := b, b, 0;
    BeforeNext(b, gs, 0);
    it := it.next;
    while it != b
      invariant Form(b, gs) && NonEmpty(gs)
      invariant k <= |gs| && it == FirstOf(b, gs, k) && prev == Before(b, gs, k)
      invariant forall j :: 0 <= j < k ==> !wanted(gs[j][0].value)
      decreases |gs| - k
    {
      if wanted(it.value) {
        return;
      }
      BeforeNext(b, gs, k);
      it := it.group;
      prev := it;
      k := k + 1;
      BeforeNext(b, gs, k);
      it := it.next;
    }
    BeforeNext(b, gs, k);
    prev := b;
  }

  lemma {:induction false} ScanIs(c: seq<Node>, wanted: Item -> bool, i: nat, r: nat)
    requires i <= r <= |c| && (r < |c| ==> wanted(c[r].value)) && forall j :: i <= j < r ==> !wanted(c[j].value)
    ensures Scan(c, wanted, i) == r
    decreases r - i
  {
    if i < r {
      ScanIs(c, wanted, i + 1, r);
    }
  }

  lemma {:induction false} NoneWanted(gs: seq<NodeGroup>, wanted: Item -> bool, k: nat)
    requires k <= |gs| && Uniformly(gs, wanted) && NonEmpty(gs) && forall j :: 0 <= j < k ==> !wanted(gs[j][0].value)
    ensures forall i :: 0 <= i < |Flat(gs[..k])| ==> !wanted(Flat(gs[..k])[i].value)
  {
    if k > 0 {
      NoneWanted(gs, wanted, k - 1);
      FlatNext(gs, k - 1);
      var g := gs[k - 1];
      assert g[0] in g;
      forall i | 0 <= i < |g| ensures !wanted(g[i].value) {
        assert g[i] in g;
      }
    }
  }

  /**
   Looking at the first nodes of groups only comes to the same node, and the same one before it, as looking at all.
   */
  lemma FindIsScan(b: Node, gs: seq<NodeGroup>, wanted: Item -> bool, k: nat)
    requires k <= |gs| && Uniformly(gs, wanted) && NonEmpty(gs)
    requires (k < |gs| ==> wanted(gs[k][0].value)) && forall j :: 0 <= j < k ==> !wanted(gs[j][0].value)
    ensures var r := Scan(Flat(gs), wanted, 0);
      && r == |Flat(gs[..k])| && (k == |gs| ==> r == |Flat(gs)|)
      && (k < |gs| ==> r < |Flat(gs)| && FirstOf(b, gs, k) == Flat(gs)[r] && Before(b, gs, k) == ([b] + Flat(gs))[r])
  {
    NoneWanted(gs, wanted, k);
    var r := |Flat(gs[..k])|;
    if k < |gs| {
      FlatAt(gs, k);
      assert Flat(gs)[r] == gs[k][0];
    } else {
      assert gs[..k] == gs;
    }
    assert forall j :: 0 <= j < r ==> Flat(gs)[j] == Flat(gs[..k])[j];
    ScanIs(Flat(gs), wanted, 0, r);
  }

  // ------------------------------------------------------------------ insertion

  /** The node goes to the head of group `k`, or makes a group of its own there. */
  ghost function Inserted(gs: seq<NodeGroup>, k: nat, n: Node, inGroup: bool): seq<NodeGroup>
    requires k <= |gs| && (inGroup ==> k < |gs|)
  {
    if inGroup then gs[k := [n] + gs[k]] else gs[..k] + [[n]] + gs[k..]
  }

  lemma FlatSplit(gs: seq<NodeGroup>, k: nat)
    requires k <= |gs|
    ensures Flat(gs) == Flat(gs[..k]) + Flat(gs[k..])
  {
    assert gs == gs[..k] + gs[k..];
    FlatJoin(gs[..k], gs[k..]);
  }

  lemma FlatReplaced(gs: seq<NodeGroup>, k: nat, g: NodeGroup)
    requires k < |gs|
    ensures Flat(gs[k := g]) == Flat(gs[..k]) + g + Flat(gs[k + 1..])
  {
    FlatAt(gs[k := g], k);
    assert gs[k := g][..k] == gs[..k] && gs[k := g][k + 1..] == gs[k + 1..];
  }

  lemma FlatAdded(gs: seq<NodeGroup>, k: nat, g: NodeGroup)
    requires k <= |gs|
    ensures Flat(gs[..k] + [g] + gs[k..]) == Flat(gs[..k]) + g + Flat(gs[k..])
  {
    var gs' := gs[..k] + [g] + gs[k..];
    FlatAt(gs', k);
    assert gs'[..k] == gs[..k] && gs'[k + 1..] == gs[k..];
  }

  lemma InsertedFlat(gs: seq<NodeGroup>, k: nat, n: Node, inGroup: bool)
    requires k <= |gs| && (inGroup ==> k < |gs|)
    ensures Flat(Inserted(gs, k, n, inGroup)) == Flat(gs[..k]) + [n] + Flat(gs[k..])
  {
    if inGroup {
      var x, y := Flat(gs[..k]), Flat(gs[k + 1..]);
      FlatReplaced(gs, k, [n] + gs[k]);
      assert gs[k..] == [gs[k]] + gs[k + 1..];
      FlatOfRest(gs[k], gs[k + 1..]);
      assert x + ([n] + gs[k]) + y == x + [n] + (gs[k] + y);
    } else {
      FlatAdded(gs, k, [n]);
    }
  }

  lemma FlatOfRest(g: NodeGroup, rest: seq<NodeGroup>)
    ensures Flat([g] + rest) == g + Flat(rest)
  {
    assert ([g] + rest)[1..] == rest;
  }

  /** The place of the new node in the circular list. */
  lemma InsertedRing(b: Node, gs: seq<NodeGroup>, k: nat, n: Node, inGroup: bool)
    requires k <= |gs| && (inGroup ==> k < |gs|)
    ensures var c, i := [b] + Flat(gs), |Flat(gs[..k])|;
      i < |c| && Before(b, gs, k) == c[i] && [b] + Flat(Inserted(gs, k, n, inGroup)) == c[..i + 1] + [n] + c[i + 1..]
  {
    hide Flat, Inserted;
    InsertedFlat(gs, k, n, inGroup);
    FlatSplit(gs, k);
    OneIn(b, Flat(gs[..k]), n, Flat(gs[k..]));
  }

  lemma OneIn(b: Node, x: seq<Node>, n: Node, y: seq<Node>)
    ensures var c, i := [b] + (x + y), |x|; ([b] + x)[i] == c[i] && [b] + (x + [n] + y) == c[..i + 1] + [n] + c[i + 1..]
  {
  }

  /** The group links of the new node. */
  method InsertInGroup(b: Node, first: Node, n: Node, ghost gs: seq<NodeGroup>, ghost k: nat, ghost inGroup: bool)
    requires Form(b, gs) && NonEmpty(gs) && n !in [b] + Flat(gs) && k <= |gs|
    requires if inGroup then k < |gs| && first == gs[k][0] else first == n
    modifies first`group, n`group
    ensures AllReverse(Inserted(gs, k, n, inGroup))
  {
    InGroupsOnly(b, gs, n);
    forall j | 0 <= j < |gs| && j != k && inGroup ensures first !in gs[j] {
      if j < k { GroupsApart(b, gs, j, k); } else { GroupsApart(b, gs, k, j); }
    }
    n.group := first.group;
    first.group := n;
    ghost var gs' := Inserted(gs, k, n, inGroup);
    forall j | 0 <= j < |gs'| ensures Reverse(gs'[j]) {
      if j == k && inGroup {
        WithinGroup(b, gs, k);
      }
    }
  }

  lemma InGroupsOnly(b: Node, gs: seq<NodeGroup>, n: Node)
    requires n !in [b] + Flat(gs)
    ensures forall j :: 0 <= j < |gs| ==> n !in gs[j]
  {
    forall j | 0 <= j < |gs| ensures n !in gs[j] {
      FlatAt(gs, j);
    }
  }

  lemma WithinGroup(b: Node, gs: seq<NodeGroup>, k: nat)
    requires Distinct([b] + Flat(gs)) && k < |gs|
    ensures Distinct(gs[k])
  {
    forall i, j | 0 <= i < j < |gs[k]| ensures gs[k][i] != gs[k][j] {
      GroupPlace(b, gs, k, i);
      GroupPlace(b, gs, k, j);
    }
  }

  /** Links a node after one that has been found, into the group that follows if it belongs there. */
  method PrivInsertEqualAfterFind(b: Node, n: Node, prev: Node, nextIsInGroup: bool, ghost gs: seq<NodeGroup>,
                                  ghost k: nat)
    requires Form(b, gs) && n !in [b] + Flat(gs)
    requires k <= |gs| && (nextIsInGroup ==> k < |gs|) && prev == Before(b, gs, k)
    modifies prev, n, prev.next
    ensures Form(b, Inserted(gs, k, n, nextIsInGroup))
  {
    hide Ring, Distinct, Flat, Form, Inserted, Before;
    ghost var c: seq<Node>, gs' := [b] + Flat(gs), Inserted(gs, k, n, nextIsInGroup);
    FormParts(b, gs);
    BeforeNext(b, gs, k);
    InsertedRing(b, gs, k, n, nextIsInGroup);
    assert Ring(c);
    InsertInGroup(b, if nextIsInGroup then prev.next else n, n, gs, k, nextIsInGroup);
    assert Ring(c) && AllReverse(gs');
    LinkAfter(prev, n, c, |Flat(gs[..k])|);
    assert AllReverse(gs');
    FormParts(b, gs');
  }

  /** The new node goes where it belongs. */
  ghost predicate Belongs(gs: seq<NodeGroup>, k: nat, n: Node, inGroup: bool, eq: (Item, Item) -> bool)
    requires NonEmpty(gs)
  {
    if inGroup then k < |gs| && eq(n.value, gs[k][0].value)
    else k <= |gs| && forall j :: 0 <= j < |gs| ==> !eq(n.value, gs[j][0].value)
  }

  lemma NewApart(gs: seq<NodeGroup>, k: nat, n: Node, inGroup: bool, eq: (Item, Item) -> bool, j: nat)
    requires NonEmpty(gs) && KeyGroups(gs, eq) && Equivalence(eq) && Belongs(gs, k, n, inGroup, eq)
    requires j < |gs| && (inGroup ==> j != k)
    ensures NoneEqual([n], gs[j], eq) && NoneEqual(gs[j], [n], eq)
  {
    var first := gs[j][0];
    assert first in gs[j] && AllEqual(gs[j], eq);
    if inGroup {
      var head := gs[k][0];
      assert head in gs[k] && NoneEqual(gs[k], gs[j], eq);
    }
  }

  lemma NoneEqualJoin(g: NodeGroup, g': NodeGroup, h: NodeGroup, eq: (Item, Item) -> bool)
    ensures NoneEqual(g, h, eq) && NoneEqual(g', h, eq) ==> NoneEqual(g + g', h, eq)
    ensures NoneEqual(h, g, eq) && NoneEqual(h, g', eq) ==> NoneEqual(h, g + g', eq)
  {
  }

  lemma InsertedPair(gs: seq<NodeGroup>, k: nat, n: Node, inGroup: bool, eq: (Item, Item) -> bool, i: nat, j: nat)
    requires NonEmpty(gs) && KeyGroups(gs, eq) && Equivalence(eq) && Belongs(gs, k, n, inGroup, eq)
    requires i < |Inserted(gs, k, n, inGroup)| && j < |Inserted(gs, k, n, inGroup)| && i != j
    ensures NoneEqual(Inserted(gs, k, n, inGroup)[i], Inserted(gs, k, n, inGroup)[j], eq)
  {
    var i', j' := if inGroup || i < k then i else i - 1, if inGroup || j < k then j else j - 1;
    if i == k {
      NewApart(gs, k, n, inGroup, eq, j');
      if inGroup {
        NoneEqualJoin([n], gs[k], gs[j], eq);
      }
    } else if j == k {
      NewApart(gs, k, n, inGroup, eq, i');
      if inGroup {
        NoneEqualJoin([n], gs[k], gs[i], eq);
      }
    }
  }

  lemma InsertedKeys(gs: seq<NodeGroup>, k: nat, n: Node, inGroup: bool, eq: (Item, Item) -> bool)
    requires NonEmpty(gs) && KeyGroups(gs, eq) && Equivalence(eq) && Belongs(gs, k, n, inGroup, eq)
    ensures KeyGroups(Inserted(gs, k, n, inGroup), eq)
  {
    var gs' := Inserted(gs, k, n, inGroup);
    forall j | 0 <= j < |gs'| ensures AllEqual(gs'[j], eq) {
      if inGroup && j == k {
        var head := gs[k][0];
        assert head in gs[k] && AllEqual(gs[k], eq);
      } else if j != k {
        assert AllEqual(gs[if inGroup || j < k then j else j - 1], eq);
      }
    }
    forall i, j | 0 <= i < |gs'| && 0 <= j < |gs'| && i != j ensures NoneEqual(gs'[i], gs'[j], eq) {
      InsertedPair(gs, k, n, inGroup, eq, i, j);
    }
  }

  lemma KeysUniform(gs: seq<NodeGroup>, eq: (Item, Item) -> bool, x: Item)
    requires KeyGroups(gs, eq) && Equivalence(eq)
    ensures Uniformly(gs, (y: Item) => eq(x, y))
  {
    forall k, m, n | 0 <= k < |gs| && m in gs[k] && n in gs[k] ensures eq(x, m.value) == eq(x, n.value) {
      assert AllEqual(gs[k], eq);
    }
  }

  /** The new node goes in front of the nodes equal to it; where there is none, in front of all. */
  method InsertEqual(b: Node, n: Node, eq: (Item, Item) -> bool, ghost gs: seq<NodeGroup>)
    returns (ghost gs': seq<NodeGroup>)
    requires Form(b, gs) && n !in [b] + Flat(gs) && KeyGroups(gs, eq) && Equivalence(eq)
    modifies b, n, Flat(gs)
    ensures Form(b, gs') && KeyGroups(gs', eq)
    ensures var r := Scan(Flat(gs), (x: Item) => eq(n.value, x), 0);
      Flat(gs') == if r < |Flat(gs)| then Flat(gs)[..r] + [n] + Flat(gs)[r..] else [n] + Flat(gs)
  {
    var wanted := (x: Item) => eq(n.value, x);
    var it, prev;
    ghost var k;
    it, prev, k := PrivFind(b, wanted, gs);
    var inGroup := it != b;
    ghost var at := if k < |gs| then k else 0;
    InsertNodes(b, gs, k);
    InsertNodes(b, gs, at);
    InsertPlace(b, n, eq, gs, k);
    gs' := Inserted(gs, at, n, inGroup);
    PrivInsertEqualAfterFind(b, n, prev, inGroup, gs, at);
  }

  /** What insertion at the place that was found comes to. */
  lemma InsertPlace(b: Node, n: Node, eq: (Item, Item) -> bool, gs: seq<NodeGroup>, k: nat)
    requires NonEmpty(gs) && KeyGroups(gs, eq) && Equivalence(eq) && k <= |gs|
    requires (k < |gs| ==> eq(n.value, gs[k][0].value)) && forall j :: 0 <= j < k ==> !eq(n.value, gs[j][0].value)
    ensures var at, r := if k < |gs| then k else 0, Scan(Flat(gs), (x: Item) => eq(n.value, x), 0);
      var gs' := Inserted(gs, at, n, k < |gs|);
      && KeyGroups(gs', eq)
      && (r < |Flat(gs)| <==> k < |gs|)
      && Flat(gs') == if r < |Flat(gs)| then Flat(gs)[..r] + [n] + Flat(gs)[r..] else [n] + Flat(gs)
  {
    var at := if k < |gs| then k else 0;
    InsertedKeys(gs, at, n, k < |gs|, eq);
    KeysUniform(gs, eq, n.value);
    FindIsScan(n, gs, (x: Item) => eq(n.value, x), k);
    InsertedAt(gs, k, n);
  }

  lemma InsertedAt(gs: seq<NodeGroup>, k: nat, n: Node)
    requires k <= |gs|
    ensures var at, r := if k < |gs| then k else 0, |Flat(gs[..k])|;
      r <= |Flat(gs)| && Flat(Inserted(gs, at, n, k < |gs|)) == if k < |gs| then Flat(gs)[..r] + [n] + Flat(gs)[r..]
          else [n] + Flat(gs)
  {
    FlatSplit(gs, k);
    if k < |gs| {
      InsertedFlat(gs, k, n, true);
    } else {
      InsertedFlat(gs, 0, n, false);
      assert gs[0..] == gs;
    }
  }

  /** The nodes that insertion there writes to. */
  lemma InsertNodes(b: Node, gs: seq<NodeGroup>, k: nat)
    requires Form(b, gs) && k <= |gs|
    ensures NonEmpty(gs)
    ensures Before(b, gs, k) == b || Before(b, gs, k) in Flat(gs)
    ensures Before(b, gs, k).next == b || Before(b, gs, k).next in Flat(gs)
    ensures (FirstOf(b, gs, k) != b <==> k < |gs|) && Before(b, gs, 0) == b
  {
    BeforeNext(b, gs, k);
    FlatSplit(gs, k);
    if k < |gs| {
      FlatAt(gs, k);
    }
  }

  // -------------------------------------------------------------------- erasure

  /** The node at `j` of group `k` is gone, and the group with its last node. */
  ghost function Erased(gs: seq<NodeGroup>, k: nat, j: nat): seq<NodeGroup>
    requires k < |gs| && j < |gs[k]|
  {
    if |gs[k]| == 1 then gs[..k] + gs[k + 1..] else gs[k := gs[k][..j] + gs[k][j + 1..]]
  }

  /** The nodes around the one that goes. */
  lemma ErasePlace(b: Node, gs: seq<NodeGroup>, k: nat, j: nat)
    requires Form(b, gs) && k < |gs| && j < |gs[k]|
    ensures NonEmpty(gs)
    ensures var g := gs[k];
      && g[j].next == (if j < |g| - 1 then g[j + 1] else FirstOf(b, gs, k + 1))
          && g[j].group == g[if j == 0 then |g| - 1 else j - 1]
      && g[j].next != null && g[j].group.next != null
      && (g[j].group.next == g[j] <==> j > 0)
      && (g[j].next != b && g[j].next.group == g[j] <==> j < |g| - 1)
  {
    var c, g := [b] + Flat(gs), gs[k];
    BeforeNext(b, gs, k);
    BeforeNext(b, gs, k + 1);
    WithinGroup(b, gs, k);
    var at := 1 + |Flat(gs[..k])|;
    GroupPlace(b, gs, k, j);
    GroupPlace(b, gs, k, 0);
    assert c[0] == b;
    if j < |g| - 1 {
      GroupPlace(b, gs, k, j + 1);
      RingNext(c, at + j);
    } else if k + 1 < |gs| {
      GroupsApart(b, gs, k, k + 1);
    }
    if j > 0 {
      GroupPlace(b, gs, k, j - 1);
      RingNext(c, at + j - 1);
    } else if k + 1 < |gs| {
      GroupsApart(b, gs, k, k + 1);
    }
  }

  lemma ErasedNodes(gs: seq<NodeGroup>, k: nat, j: nat)
    requires k < |gs| && j < |gs[k]|
    ensures Flat(Erased(gs, k, j)) == Flat(gs[..k]) + (gs[k][..j] + gs[k][j + 1..]) + Flat(gs[k + 1..])
  {
    if |gs[k]| == 1 {
      FlatJoin(gs[..k], gs[k + 1..]);
    } else {
      FlatReplaced(gs, k, gs[k][..j] + gs[k][j + 1..]);
    }
  }

  lemma WithoutOne(b: Node, x: seq<Node>, g: seq<Node>, y: seq<Node>, j: nat)
    requires j < |g|
    ensures var c, i := [b] + (x + g + y), |x| + j;
      i < |c| - 1 && [b] + (x + (g[..j] + g[j + 1..]) + y) == c[..i + 1] + c[i + 2..]
  {
  }

  /** The circular list without the node. */
  lemma ErasedRing(b: Node, gs: seq<NodeGroup>, k: nat, j: nat)
    requires k < |gs| && j < |gs[k]|
    ensures var c, i := [b] + Flat(gs), |Flat(gs[..k])| + j;
      i < |c| - 1 && [b] + Flat(Erased(gs, k, j)) == c[..i + 1] + c[i + 2..]
  {
    FlatAt(gs, k);
    ErasedNodes(gs, k, j);
    WithoutOne(b, Flat(gs[..k]), gs[k], Flat(gs[k + 1..]), j);
  }

  /** In the circle of group links, the node that leads to `n`. */
  method GetPreviousInGroup(n: Node, ghost g: NodeGroup) returns (x: Node)
    requires Reverse(g) && Distinct(g) && n == g[|g| - 1]
    ensures x == g[0]
  {
    ghost var i := |g| - 1;
    x := n;
    while x.group != n
      invariant 0 <= i < |g| && x == g[i] && x.group == g[if i == 0 then |g| - 1 else i - 1]
      decreases i
    {
      x := x.group;
      i := i - 1;
    }
  }

  /** The links of the group once the right node passes by `g[j]`. */
  ghost predicate Bypassed(g: NodeGroup, j: nat)
    requires j < |g| && |g| > 1
    reads g`group
  {
    && (forall i :: 0 <= i < |g| && i != j && i != (if j < |g| - 1 then j + 1 else 0) ==>
         g[i].group == g[if i == 0 then |g| - 1 else i - 1])
    && g[if j < |g| - 1 then j + 1 else 0].group == g[if j == 0 then |g| - 1 else j - 1]
  }

  lemma BypassedReverse(g: NodeGroup, j: nat)
    requires j < |g| && |g| > 1 && Bypassed(g, j)
    ensures Reverse(g[..j] + g[j + 1..])
  {
    var h := g[..j] + g[j + 1..];
    forall i | 0 <= i < |h| ensures h[i].group == h[if i == 0 then |h| - 1 else i - 1] {
      assert h[i] == g[if i < j then i else i + 1];
    }
  }

  /** Takes the node out of its group; gives the node before it in the bucket. */
  method UnlinkFromGroup(b: Node, n: Node, ghost gs: seq<NodeGroup>, ghost k: nat, ghost j: nat) returns (bn: Node)
    requires Form(b, gs) && k < |gs| && j < |gs[k]| && n == gs[k][j]
    modifies gs[k]`group
    ensures |gs[k]| > 1 ==> Bypassed(gs[k], j)
    ensures bn == if j == 0 then Before(b, gs, k) else gs[k][j - 1]
  {
    ghost var g := gs[k];
    ErasePlace(b, gs, k, j);
    WithinGroup(b, gs, k);
    assert forall i :: 0 <= i < |g| ==> g[i] in g;
    var pos, nn: Node := n.group.next, n.next;
    if pos != n {
      bn := GetPrevToFirstInGroup(b, n, gs, k);
      if nn != b && nn.group == n {
        nn.group := nn.group.group;
      }
    } else if nn != b && nn.group == n {
      bn := n.group;
      nn.group := nn.group.group;
    } else {
      bn := n.group;
      var x := GetPreviousInGroup(n, g);
      x.group := x.group.group;
    }
  }

  /** The other groups do not notice. */
  method UnlinkFromGroups(b: Node, n: Node, ghost gs: seq<NodeGroup>, ghost k: nat, ghost j: nat) returns (bn: Node)
    requires Form(b, gs) && k < |gs| && j < |gs[k]| && n == gs[k][j]
    modifies gs[k]`group
    ensures AllReverse(Erased(gs, k, j))
    ensures var c, i := [b] + Flat(gs), |Flat(gs[..k])| + j; i < |c| && bn == c[i]
  {
    forall i | 0 <= i < |gs| && i != k ensures forall m, n ::
        0 <= m < |gs[i]| && 0 <= n < |gs[k]| ==> gs[i][m] != gs[k][n] {
      if i < k { GroupsApart(b, gs, i, k); } else { GroupsApart(b, gs, k, i); }
    }
    if j > 0 {
      GroupPlace(b, gs, k, j - 1);
    }
    FlatAt(gs, k);
    bn := UnlinkFromGroup(b, n, gs, k, j);
    if |gs[k]| > 1 {
      BypassedReverse(gs[k], j);
    }
    forall i | 0 <= i < |gs| && i != k ensures Reverse(gs[i]) {
    }
  }

  /** Takes a node out of the bucket and of its group. */
  method PrivEraseNode(b: Node, n: Node, ghost gs: seq<NodeGroup>, ghost k: nat, ghost j: nat)
    requires Form(b, gs) && k < |gs| && j < |gs[k]| && n == gs[k][j]
    modifies gs[k]`group, b`next, Flat(gs)`next
    ensures Form(b, Erased(gs, k, j))
  {
    hide Ring, Distinct, Flat, Form, Erased, Before;
    ErasedRing(b, gs, k, j);
    FormParts(b, gs);
    ghost var c: seq<Node>, i, gs' := [b] + Flat(gs), |Flat(gs[..k])| + j, Erased(gs, k, j);
    assert c[i] == b || c[i] in Flat(gs);
    assert Ring(c);
    var bn := UnlinkFromGroups(b, n, gs, k, j);
    assert Ring(c) && AllReverse(gs');
    UnlinkAfter(bn, c, i);
    assert AllReverse(gs');
    FormParts(b, gs');
  }

  /** What is left keeps to the groups, and is all there was but the node. */
  lemma ErasedKeys(gs: seq<NodeGroup>, k: nat, j: nat, eq: (Item, Item) -> bool)
    requires k < |gs| && j < |gs[k]| && KeyGroups(gs, eq)
    ensures KeyGroups(Erased(gs, k, j), eq)
    ensures var i := |Flat(gs[..k])| + j;
      i < |Flat(gs)| && Flat(gs)[i] == gs[k][j] && Flat(Erased(gs, k, j)) == Flat(gs)[..i] + Flat(gs)[i + 1..]
  {
    ErasedOne(gs, k, j);
    ErasedStillKeys(gs, k, j, eq);
  }

  lemma ErasedOne(gs: seq<NodeGroup>, k: nat, j: nat)
    requires k < |gs| && j < |gs[k]|
    ensures var i := |Flat(gs[..k])| + j;
      i < |Flat(gs)| && Flat(gs)[i] == gs[k][j] && Flat(Erased(gs, k, j)) == Flat(gs)[..i] + Flat(gs)[i + 1..]
  {
    hide Erased;
    ErasedNodes(gs, k, j);
    FlatAt(gs, k);
    OneOut(Flat(gs[..k]), gs[k], Flat(gs[k + 1..]), j);
  }

  lemma OneOut(x: seq<Node>, g: seq<Node>, y: seq<Node>, j: nat)
    requires j < |g|
    ensures var c, i := x + g + y, |x| + j; c[i] == g[j] && x + (g[..j] + g[j + 1..]) + y == c[..i] + c[i + 1..]
  {
  }

  lemma ErasedStillKeys(gs: seq<NodeGroup>, k: nat, j: nat, eq: (Item, Item) -> bool)
    requires k < |gs| && j < |gs[k]| && KeyGroups(gs, eq)
    ensures KeyGroups(Erased(gs, k, j), eq)
  {
    var gs', g := Erased(gs, k, j), gs[k][..j] + gs[k][j + 1..];
    assert forall x <- g :: x in gs[k];
    forall i | 0 <= i < |gs'| ensures AllEqual(gs'[i], eq) {
      assert AllEqual(gs[if |gs[k]| == 1 && i >= k then i + 1 else i], eq);
    }
    forall i, l | 0 <= i < |gs'| && 0 <= l < |gs'| && i != l ensures NoneEqual(gs'[i], gs'[l], eq) {
      var i', l' := if |gs[k]| == 1 && i >= k then i + 1 else i, if |gs[k]| == 1 && l >= k then l + 1 else l;
      assert NoneEqual(gs[i'], gs[l'], eq);
    }
  }

  // ------------------------------------------------- the bucket as values

  ghost function Values(c: seq<Node>): (r: Chain)
    ensures |r| == |c| && forall i :: 0 <= i < |c| ==> r[i] == c[i].value
  {
    seq(|c|, i requires 0 <= i < |c| => c[i].value)
  }

  /** In a bucket with such groups equal nodes stand next to each other. */
  lemma {:induction false} GroupsCluster(gs: seq<NodeGroup>, eq: (Item, Item) -> bool)
    requires KeyGroups(gs, eq)
    ensures Clustered(Values(Flat(gs)), eq)
  {
    if gs != [] {
      var rest := gs[1..];
      assert forall j, k :: 0 <= j < |rest| && 0 <= k < |rest| && j != k ==> NoneEqual(rest[j], rest[k], eq);
      GroupsCluster(rest, eq);
      var c, d := Values(gs[0]), Values(Flat(rest));
      assert AllEqual(gs[0], eq) && forall i :: 0 <= i < |gs[0]| ==> gs[0][i] in gs[0];
      forall i, j | 0 <= i < |c| && 0 <= j < |d| ensures !eq(c[i], d[j]) {
        var k, m := InOneGroup(rest, j);
        assert NoneEqual(gs[0], gs[k + 1], eq) && gs[k + 1][m] in gs[k + 1];
      }
      ClusteredJoin(c, d, eq);
      assert Values(Flat(gs)) == c + d;
    }
  }

  lemma {:induction false} InOneGroup(gs: seq<NodeGroup>, i: nat) returns (k: nat, m: nat)
    requires i < |Flat(gs)|
    ensures k < |gs| && m < |gs[k]| && gs[k][m] == Flat(gs)[i]
  {
    if i < |gs[0]| {
      k, m := 0, i;
    } else {
      k, m := InOneGroup(gs[1..], i - |gs[0]|);
      k := k + 1;
    }
  }
}

/** Positions in the in-order sequence of a tree: its nodes by index, and the gaps between them. */
module Positions {
  import opened TreeNodes
  import opened TreeWalk

  /** The node at index `i`; past the last one, the header. */
  ghost function NodeAt(s: seq<Node>, i: nat, header: Node): Node
  {
    if i < |s| then s[i] else header
  }

  ghost predicate NoRepeats(s: seq<Node>)
  {
    forall i, j :: 0 <= i < j < |s| ==> s[i] != s[j]
  }

  lemma JoinNoRepeats(l: seq<Node>, n: Node, r: seq<Node>)
    requires NoRepeats(l) && NoRepeats(r) && n !in l && n !in r && forall m <- l :: m !in r
    ensures NoRepeats(l + [n] + r)
  {
    var s := l + [n] + r;
    forall i, j | 0 <= i < j < |s| ensures s[i] != s[j] {
      assert i < |l| ==> s[i] == l[i] && l[i] in l;
      assert j < |l| ==> s[j] == l[j];
      assert i > |l| ==> s[i] == r[i - |l| - 1];
      assert j > |l| ==> s[j] == r[j - |l| - 1] && r[j - |l| - 1] in r;
    }
  }

  lemma {:induction false} OrderNoRepeats(t: Tree)
    requires Distinct(t)
    ensures NoRepeats(InOrder(t))
  {
    if t.Bin? {
      OrderNoRepeats(t.left);
      OrderNoRepeats(t.right);
      OrderedNodes(t.left);
      OrderedNodes(t.right);
      JoinNoRepeats(InOrder(t.left), t.node, InOrder(t.right));
    }
  }

  /** The empty place with `i` nodes of `t` before it, when `t` is in the hole of `c`. */
  ghost function Gap(c: Ctx, t: Tree, i: nat): Ctx
    requires i <= |InOrder(t)|
    decreases t
  {
    if t.Leaf? then c
    else if i <= |InOrder(t.left)| then Gap(InLeft(c, t.node, t.right), t.left, i)
    else Gap(InRight(c, t.left, t.node), t.right, i - |InOrder(t.left)| - 1)
  }

  lemma CutLeft(s: seq<Node>, l: seq<Node>, n: Node, r: seq<Node>, i: nat)
    requires s == l + [n] + r && i <= |l|
    ensures s[..i] == l[..i] && s[i..] == l[i..] + [n] + r
  {
  }

  lemma CutRight(s: seq<Node>, l: seq<Node>, n: Node, r: seq<Node>, i: nat)
    requires s == l + [n] + r && |l| < i <= |s|
    ensures s[i..] == r[i - |l| - 1..] && s[..i] == l + [n] + r[..i - |l| - 1]
  {
  }

  lemma JoinLeft(u: seq<Node>, n: Node, r: seq<Node>, a: seq<Node>)
    ensures u + ([n] + r + a) == (u + [n] + r) + a
  {
  }

  lemma JoinRight(b: seq<Node>, l: seq<Node>, n: Node, u: seq<Node>)
    ensures (b + l + [n]) + u == b + (l + [n] + u)
  {
  }

  /** One step down towards the gap. */
  lemma GapStep(c: Ctx, t: Tree, i: nat)
    requires t.Bin? && i <= |InOrder(t)|
    ensures InOrder(t) == InOrder(t.left) + [t.node] + InOrder(t.right)
    ensures var k := InLeft(c, t.node, t.right);
      && Before(k) == Before(c) && After(k) == [t.node] + InOrder(t.right) + After(c)
      && (i <= |InOrder(t.left)| ==> Gap(c, t, i) == Gap(k, t.left, i))
    ensures var k := InRight(c, t.left, t.node);
      && Before(k) == Before(c) + InOrder(t.left) + [t.node] && After(k) == After(c)
      && (i > |InOrder(t.left)| ==> Gap(c, t, i) == Gap(k, t.right, i - |InOrder(t.left)| - 1))
  {
  }

  lemma {:induction false} GapPlug(c: Ctx, t: Tree, i: nat)
    requires i <= |InOrder(t)|
    ensures Plug(Gap(c, t, i), Leaf) == Plug(c, t)
    decreases t
  {
    if t.Leaf? {
    } else if i <= |InOrder(t.left)| {
      GapPlug(InLeft(c, t.node, t.right), t.left, i);
    } else {
      GapPlug(InRight(c, t.left, t.node), t.right, i - |InOrder(t.left)| - 1);
    }
  }

  /** The nodes before an empty place. */
  lemma {:induction false} GapBefore(c: Ctx, t: Tree, i: nat)
    requires i <= |InOrder(t)|
    ensures Before(Gap(c, t, i)) == Before(c) + InOrder(t)[..i]
    decreases t
  {
    if t.Leaf? {
    } else {
      hide *;
      GapStep(c, t, i);
      if i <= |InOrder(t.left)| {
        GapBefore(InLeft(c, t.node, t.right), t.left, i);
        CutLeft(InOrder(t), InOrder(t.left), t.node, InOrder(t.right), i);
      } else {
        var j := i - |InOrder(t.left)| - 1;
        GapBefore(InRight(c, t.left, t.node), t.right, j);
        CutRight(InOrder(t), InOrder(t.left), t.node, InOrder(t.right), i);
        JoinRight(Before(c), InOrder(t.left), t.node, InOrder(t.right)[..j]);
      }
    }
  }

  /** The nodes after it. */
  lemma {:induction false} GapAfter(c: Ctx, t: Tree, i: nat)
    requires i <= |InOrder(t)|
    ensures After(Gap(c, t, i)) == InOrder(t)[i..] + After(c)
    decreases t
  {
    if t.Leaf? {
    } else {
      hide *;
      GapStep(c, t, i);
      if i <= |InOrder(t.left)| {
        GapAfter(InLeft(c, t.node, t.right), t.left, i);
        CutLeft(InOrder(t), InOrder(t.left), t.node, InOrder(t.right), i);
        JoinLeft(InOrder(t.left)[i..], t.node, InOrder(t.right), After(c));
      } else {
        var j := i - |InOrder(t.left)| - 1;
        GapAfter(InRight(c, t.left, t.node), t.right, j);
        CutRight(InOrder(t), InOrder(t.left), t.node, InOrder(t.right), i);
      }
    }
  }

  /** Wherever a walk starts, the same number of nodes before it means the same empty place. */
  lemma {:induction false} GapOnly(c: Ctx, t: Tree, i: nat)
    requires i <= |InOrder(t)|
    ensures |Before(c)| + i <= |InOrder(Plug(c, t))| && Gap(Top, Plug(c, t), |Before(c)| + i) == Gap(c, t, i)
    decreases c
  {
    if !c.Top? {
      GapOnly(c.up, Grown(c, t), if c.InLeft? then i else |InOrder(c.left)| + 1 + i);
    }
  }

  /** An empty place is determined by the nodes before it. */
  lemma EmptyPlace(c: Ctx, t: Tree)
    requires Plug(c, Leaf) == t
    ensures |Before(c)| <= |InOrder(t)| && c == Gap(Top, t, |Before(c)|)
    ensures InOrder(t) == Before(c) + After(c)
  {
    GapOnly(c, Leaf, 0);
    PlugOrder(c, Leaf);
  }

  lemma AtIndex(s: seq<Node>, b: seq<Node>, n: Node, a: seq<Node>, i: nat)
    requires s == b + [n] + a && i < |s| && s[i] == n && NoRepeats(s)
    ensures s[..i] == b && s[i + 1..] == a
  {
    assert s[|b|] == n;
  }

  lemma Regroup(b: seq<Node>, l: seq<Node>, n: Node, r: seq<Node>, a: seq<Node>)
    ensures b + (l + [n] + r) + a == (b + l) + [n] + (r + a)
  {
  }

  lemma AroundRoot(c: Ctx, t: Tree)
    requires t.Bin?
    ensures InOrder(Plug(c, t)) == (Before(c) + InOrder(t.left)) + [t.node] + (InOrder(t.right) + After(c))
  {
    PlugOrder(c, t);
    Regroup(Before(c), InOrder(t.left), t.node, InOrder(t.right), After(c));
  }

  /** Where the node at index `i` stands. */
  lemma IndexedNode(t: Tree, i: nat)
    requires Distinct(t) && i < |InOrder(t)|
    ensures InOrder(t)[i] in Nodes(t)
    ensures var n, s := InOrder(t)[i], InOrder(t);
      var c, u := Above(Top, t, n), Below(t, n);
      Plug(c, u) == t && s[..i] == Before(c) + InOrder(u.left) && s[i + 1..] == InOrder(u.right) + After(c)
  {
    OrderedNodes(t);
    var n, s := InOrder(t)[i], InOrder(t);
    assert n in s;
    var c, u := Above(Top, t, n), Below(t, n);
    FocusPlug(Top, t, n);
    AroundRoot(c, u);
    OrderNoRepeats(t);
    AtIndex(s, Before(c) + InOrder(u.left), n, InOrder(u.right) + After(c), i);
  }

  /** The node after the one at index `i`. */
  method Next(n: Node, header: Node, ghost g: Store, ghost t: Tree, ghost i: nat) returns (r: Node)
    requires Matches(g) && Valid(g, t, header) && i < |InOrder(t)| && n == InOrder(t)[i]
    ensures r == NodeAt(InOrder(t), i + 1, header)
  {
    IndexedNode(t, i);
    Focus(g, Top, t, n, header);
    r := NextNode(n, header, g, Above(Top, t, n), Below(t, n));
    assert i + 1 < |InOrder(t)| ==> InOrder(t)[i + 1] == InOrder(t)[i + 1..][0];
  }

  /** The node before the one at index `i`, or before the header. */
  method Prev(n: Node, header: Node, ghost g: Store, ghost t: Tree, ghost i: nat) returns (r: Node)
    requires Matches(g) && Valid(g, t, header) && 0 < i <= |InOrder(t)| && n == NodeAt(InOrder(t), i, header)
    ensures r == InOrder(t)[i - 1]
  {
    OrderedNodes(t);
    if i < |InOrder(t)| {
      IndexedNode(t, i);
      assert InOrder(t)[i - 1] == InOrder(t)[..i][i - 1];
    }
    r := PrevNode(n, header, g, t);
  }
}

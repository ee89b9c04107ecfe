/** The checks the library runs on its own trees, and what passing them means for the height. */
module AvlCheck {
  import opened TreeNodes
  import opened TreeWalk
  import opened Search
  import opened AvlBalance
  import opened AvlTree

  /** The recursive checker accepts exactly the subtrees whose balance factors are all right. */
  method VerifyRecursion(n: Node?, ghost g: Store, ghost t: Tree) returns (ok: bool, count: nat, height: nat)
    requires Matches(g) && Subtree(g, t) && n == Root(t)
    ensures ok <==> Avl(g.balance, t)
    ensures ok ==> count == |InOrder(t)| && height == Height(t)
    decreases t
  {
    count, height := 0, 0;
    if n == null {
      return true, 0, 0;
    }
    var leftCount, leftHeight, rightCount, rightHeight;
    ok, leftCount, leftHeight := VerifyRecursion(n.left, g, t.left);
    if !ok {
      return;
    }
    ok, rightCount, rightHeight := VerifyRecursion(n.right, g, t.right);
    if !ok {
      return;
    }
    count := 1 + leftCount + rightCount;
    height := 1 + if leftHeight > rightHeight then leftHeight else rightHeight;
    if rightHeight == leftHeight {
      ok := n.balance == Zero;
    } else if rightHeight > leftHeight {
      ok := rightHeight - leftHeight <= 1 && n.balance == Positive;
    } else {
      ok := leftHeight - rightHeight <= 1 && n.balance == Negative;
    }
  }

  method Verify(header: Node, ghost g: Store, ghost t: Tree) returns (ok: bool)
    requires Matches(g) && Valid(g, t, header)
    ensures ok <==> Avl(g.balance, t)
  {
    var count, height;
    ok, count, height := VerifyRecursion(header.parent, g, t);
  }

  function Fib(n: nat): nat
  {
    if n < 2 then n else Fib(n - 1) + Fib(n - 2)
  }

  lemma {:induction false} FibGrows(n: nat)
    ensures Fib(n) <= Fib(n + 1)
  {
    if n >= 2 {
      FibGrows(n - 1);
    }
  }

  lemma SubtreeHeights(B: Node -> Balance, t: Tree)
    requires Avl(B, t) && t.Bin?
    ensures var h, hl, hr := Height(t), Height(t.left), Height(t.right);
      0 <= hl < h && 0 <= hr < h && ((hl == h - 1 && hr >= h - 2) || (hr == h - 1 && hl >= h - 2))
    ensures |InOrder(t)| == |InOrder(t.left)| + 1 + |InOrder(t.right)|
  {
  }

  /** A tree that passes the check has at least `Fib(h + 2) - 1` nodes when it is `h` levels high. */
  lemma {:induction false} FibonacciBound(B: Node -> Balance, t: Tree)
    requires Avl(B, t)
    ensures |InOrder(t)| + 1 >= Fib(Height(t) + 2)
  {
    if t.Bin? {
      FibonacciBound(B, t.left);
      FibonacciBound(B, t.right);
      var h := Height(t);
      SubtreeHeights(B, t);
      hide Avl, Height, InOrder;
      FibGrows(h);
      assert Fib(h + 2) == Fib(h + 1) + Fib(h);
    }
  }
}

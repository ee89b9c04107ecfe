/** Swapping two nodes of circular singly linked lists: right for two lists, and within one list only in one case. */
module SlistSwap {
  import opened SlistNodes

  /**
   `n` stands in front of `x` in a list of its own; a node without a link is in no list, and nothing comes after it.
   */
  ghost predicate InPlace(n: Node, x: seq<Node>, unused: bool)
    reads n, x
  {
    if unused then x == [] && n.next == null else Ring([n] + x)
  }

  /** The two nodes and what follows each of them: in one list, or each in a list of its own, or in none. */
  ghost predicate Stand(a: Node, x: seq<Node>, b: Node, y: seq<Node>, same: bool, ua: bool, ub: bool)
    reads a, x, b, y
  {
    && Distinct([a] + x + [b] + y)
    && if same then Ring([a] + x + [b] + y) else InPlace(a, x, ua) && InPlace(b, y, ub)
  }

  /** The node before `e`, where `a` is followed by `x` and then by `e`. */
  ghost function Ahead(a: Node, x: seq<Node>): Node
  {
    if x == [] then a else x[|x| - 1]
  }

  /** From `a` by way of `x` to `e`. */
  ghost predicate Goes(a: Node, x: seq<Node>, e: Node)
    reads a`next, x`next
  {
    a.next == Start(x, e) && Leads(x, e)
  }

  lemma GoesLeads(a: Node, x: seq<Node>, e: Node)
    ensures Leads([a] + x, e) <==> Goes(a, x, e)
  {
    LeadsJoin([a], x, e);
  }

  lemma RingGoes(a: Node, x: seq<Node>)
    ensures Ring([a] + x) <==> Distinct([a] + x) && Goes(a, x, a)
  {
    RingIs([a] + x);
    GoesLeads(a, x, a);
  }

  lemma RingGoesBoth(a: Node, x: seq<Node>, b: Node, y: seq<Node>)
    ensures Ring([a] + x + [b] + y) <==> Distinct([a] + x + [b] + y) && Goes(a, x, b) && Goes(b, y, a)
  {
    var c := [a] + x + ([b] + y);
    assert c == [a] + x + [b] + y;
    RingIs(c);
    LeadsJoin([a] + x, [b] + y, a);
    GoesLeads(a, x, b);
    GoesLeads(b, y, a);
  }

  lemma DistinctSwapped(a: Node, x: seq<Node>, b: Node, y: seq<Node>)
    requires Distinct([a] + x + [b] + y)
    ensures Distinct([b] + x + [a] + y) && Distinct([b] + x) && Distinct([a] + y) && Distinct([a] + x)
        && Distinct([b] + y)
    ensures a != b && (forall i :: 0 <= i < |x| ==> x[i] != a && x[i] != b) && forall i :: 0 <= i < |y| ==>
        y[i] != a && y[i] != b
    ensures forall i, j :: 0 <= i < |x| && 0 <= j < |y| ==> x[i] != y[j]
  {
    var c := [a] + x + [b] + y;
    assert c[0] == a && c[|x| + 1] == b;
    assert forall i :: 0 <= i < |x| ==> c[i + 1] == x[i];
    assert forall i :: 0 <= i < |y| ==> c[|x| + 2 + i] == y[i];
  }

  /** The first step: whatever comes before `b` now leads to `a`. */
  method Divert(a: Node, b: Node, ghost x: seq<Node>, ghost y: seq<Node>, ghost same: bool)
    requires Distinct([a] + x + [b] + y)
    requires if same then Ring([a] + x + [b] + y) else Ring([b] + y) && y != [] && a.next != b
    modifies b, y, if same then x else []
    ensures same ==>
        Goes(a, x, if x == [] then b else a) && b.next == (if x == [] then a else Start(y, a)) && Leads(y, a)
    ensures !same ==> Goes(b, y, a)
  {
    DistinctSwapped(a, x, b, y);
    RingGoes(b, y);
    RingGoesBoth(a, x, b, y);
    RingGoesBoth(b, y, a, x);
    DistinctTurned(a, x, b, y);
    var p := b;
    if a.next != b {
      ghost var c := if same then [b] + y + [a] + x else [b] + y;
      p := GetPreviousNode(b, b, c, 0, |c|);
      assert p == if same then Ahead(a, x) else Ahead(b, y);
    }
    p.next := a;
  }

  lemma DistinctTurned(a: Node, x: seq<Node>, b: Node, y: seq<Node>)
    requires Distinct([a] + x + [b] + y)
    ensures Distinct([b] + y + [a] + x)
  {
    var c, d := [a] + x + [b] + y, [b] + y + [a] + x;
    assert forall i :: 0 <= i < |d| ==> d[i] == c[if i <= |y| then |x| + 1 + i else i - |y| - 1];
  }

  /** The second step: whatever the first step has left before `a` leads to `b`. */
  method DivertBack(a: Node, b: Node, ghost x: seq<Node>, ghost y: seq<Node>, ghost same: bool)
    requires Distinct([a] + x + [b] + y) && (if same then y != [] else x != [])
    requires Goes(a, x, if same && x == [] then b else a) && (same && x == [] ==> b.next == a)
    modifies Ahead(if same && x == [] then b else a, x)`next
    ensures if same && x == [] then b.next == b else Goes(a, x, if x == [] then a else b)
  {
    DistinctSwapped(a, x, b, y);
    RingGoes(a, x);
    ghost var c := if same && x == [] then [a, b] else [a] + x;
    var p := GetPreviousNode(a, a, c, 0, |c|);
    assert p == Ahead(if same && x == [] then b else a, x);
    p.next := b;
  }

  /**
   Exchanges the two nodes.  Within one list this comes out right exactly when the second one leads back to the first.
   */
  method SwapNodes(a: Node, b: Node, ghost x: seq<Node>, ghost y: seq<Node>, ghost same: bool, ghost ua: bool,
                   ghost ub: bool)
    requires a != b ==> Stand(a, x, b, y, same, ua, ub)
    modifies a, b, x, y
    ensures a == b ==> unchanged(a, x, y)
    ensures a != b && !same ==> InPlace(b, x, ua) && InPlace(a, y, ub)
    ensures a != b && same ==> (Ring([b] + x + [a] + y) <==> y == [])
    ensures a != b && same && y != [] ==> Ring([a] + y) && if x == [] then b.next == a else Ring([b] + x)
  {
    if b == a {
      return;
    }
    DistinctSwapped(a, x, b, y);
    RingGoes(a, x);
    RingGoes(b, y);
    RingGoesBoth(a, x, b, y);
    var thisNext, otherNext := a.next, b.next;
    var thisNull, otherNull := thisNext == null, otherNext == null;
    var thisEmpty, otherEmpty := thisNext == a, otherNext == b;
    if !(otherNull || otherEmpty) {
      Divert(a, b, x, y, same);
    }
    if !(thisNull || thisEmpty) {
      if otherNext == a {
        a.next := b;
      } else {
        DivertBack(a, b, x, y, same);
      }
    }
    a.next := if otherEmpty then a else if otherNext == a then b else otherNext;
    b.next := if thisEmpty then b else if thisNext == b then a else thisNext;
    RingGoes(b, x);
    RingGoes(a, y);
    RingGoesBoth(b, x, a, y);
  }

  /** Swapping the first two of three nodes leaves one of them out of the list. */
  method SwapFirstTwoOfThree(a: Node, b: Node, n: Node)
    requires Ring([a, b, n])
    modifies a, b, n
    ensures !Ring([b, a, n]) && Ring([a, n]) && b.next == a
  {
    ghost var x: seq<Node>, y := [], [n];
    assert [a] + x + [b] + y == [a, b, n] && [a] + y == [a, n] && [b] + x + [a] + y == [b, a, n];
    assert a != b by {
      assert [a, b, n][0] == a && [a, b, n][1] == b;
    }
    SwapNodes(a, b, x, y, true, false, false);
  }
}

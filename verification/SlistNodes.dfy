/** Nodes of singly linked lists, and the primitives that relink them. */
module SlistNodes {
  import opened HashItems

  class Node {
    const value: Item
    var next: Node?
    /** Only used where equal nodes of a hash table make up groups. */
    var group: Node?

    constructor (value: Item)
      ensures this.value == value && next == null && group == null
    {
      this.value := value;
      next, group := null, null;
    }
  }

  ghost predicate Distinct(c: seq<Node>)
  {
    forall i, j :: 0 <= i < j < |c| ==> c[i] != c[j]
  }

  /** The nodes of `c` are a circular list in this order. */
  ghost predicate Ring(c: seq<Node>)
    reads c`next
  {
    && Distinct(c)
    && (forall i :: 0 <= i < |c| - 1 ==> c[i].next == c[i + 1])
    && (c != [] ==> c[|c| - 1].next == c[0])
  }

  /** The nodes of `s` are a list in this order, and end in null. */
  ghost predicate Line(s: seq<Node>)
    reads s`next
  {
    && Distinct(s)
    && (forall i :: 0 <= i < |s| - 1 ==> s[i].next == s[i + 1])
    && (s != [] ==> s[|s| - 1].next == null)
  }

  /** Each node of `s` leads to the next, and the last one to `e`. */
  ghost predicate Leads(s: seq<Node>, e: Node)
    reads s`next
  {
    (forall i :: 0 <= i < |s| - 1 ==> s[i].next == s[i + 1]) && (s != [] ==> s[|s| - 1].next == e)
  }

  /** The first of `s`, or what comes when there is none. */
  ghost function Start(s: seq<Node>, e: Node): Node
  {
    if s == [] then e else s[0]
  }

  lemma LeadsJoin(s: seq<Node>, t: seq<Node>, e: Node)
    ensures Leads(s + t, e) <==> Leads(s, Start(t, e)) && Leads(t, e)
  {
    var c := s + t;
    assert forall i :: 0 <= i < |s| ==> c[i] == s[i];
    assert forall i :: 0 <= i < |t| ==> c[|s| + i] == t[i];
    if Leads(c, e) {
      assert s != [] && t != [] ==> c[|s| - 1].next == c[|s|];
      forall i | 0 <= i < |s| - 1 ensures s[i].next == s[i + 1] {
        assert c[i].next == c[i + 1];
      }
      forall i | 0 <= i < |t| - 1 ensures t[i].next == t[i + 1] {
        assert c[|s| + i].next == c[|s| + i + 1];
      }
    }
    if Leads(s, Start(t, e)) && Leads(t, e) {
      forall i | 0 <= i < |c| - 1 ensures c[i].next == c[i + 1] {
        if i < |s| - 1 {
          assert s[i].next == s[i + 1];
        } else if i >= |s| {
          assert t[i - |s|].next == t[i - |s| + 1];
        }
      }
    }
  }

  lemma RingIs(c: seq<Node>)
    requires c != []
    ensures Ring(c) <==> Distinct(c) && Leads(c, c[0])
  {
  }

  /** Only what the last node leads to is written. */
  lemma LeadsOn(s: seq<Node>)
    requires s != []
    ensures forall e: Node :: Leads(s, e) <==> Leads(s[..|s| - 1], s[|s| - 1]) && s[|s| - 1].next == e
  {
    forall e: Node ensures Leads(s, e) <==> Leads(s[..|s| - 1], s[|s| - 1]) && s[|s| - 1].next == e {
      var t := [s[|s| - 1]];
      assert s[..|s| - 1] + t == s && Start(t, e) == s[|s| - 1];
      LeadsJoin(s[..|s| - 1], t, e);
    }
  }

  method LinkAfter(prev: Node, node: Node, ghost c: seq<Node>, ghost i: nat)
    requires Ring(c) && i < |c| && prev == c[i] && node !in c
    modifies prev`next, node`next
    ensures Ring(c[..i + 1] + [node] + c[i + 1..])
  {
    node.next := prev.next;
    prev.next := node;
    ghost var d := c[..i + 1] + [node] + c[i + 1..];
    forall j, k | 0 <= j < k < |d| ensures d[j] != d[k] {
      assert d[j] == if j <= i then c[j] else if j == i + 1 then node else c[j - 1];
      assert d[k] == if k <= i then c[k] else if k == i + 1 then node else c[k - 1];
    }
  }

  method UnlinkAfter(prev: Node, ghost c: seq<Node>, ghost i: nat)
    requires Ring(c) && i < |c| - 1 && prev == c[i]
    modifies prev`next
    ensures Ring(c[..i + 1] + c[i + 2..])
  {
    var node := prev.next;
    assert node == c[i + 1];
    prev.next := node.next;
    ghost var d := c[..i + 1] + c[i + 2..];
    forall j | 0 <= j < |d| ensures d[j] == c[if j <= i then j else j + 1] {
    }
  }

  /** What follows the node at `k` of a circular list. */
  lemma RingNext(c: seq<Node>, k: nat)
    requires Ring(c) && k < |c|
    ensures c[k].next == if k < |c| - 1 then c[k + 1] else c[0]
  {
  }

  /** The node before `node`, found from `from` on. */
  method GetPreviousNode(from: Node, node: Node, ghost c: seq<Node>, ghost i: nat, ghost j: nat) returns (p: Node)
    requires Ring(c) && i < j <= |c| && from == c[i] && node == if j < |c| then c[j] else c[0]
    ensures p == c[j - 1]
  {
    ghost var k := i;
    RingNext(c, k);
    p := from;
    while p.next != node
      invariant i <= k < j && p == c[k] && p.next == if k < |c| - 1 then c[k + 1] else c[0]
      decreases j - k
    {
      p := p.next;
      k := k + 1;
      RingNext(c, k);
    }
  }
}

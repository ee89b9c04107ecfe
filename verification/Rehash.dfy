/**
 Rehashing a whole table into another bucket array, or within its own.  Old and new buckets are looked at
 as one row: within one array they are the same buckets; otherwise the new ones come after the old ones.
 */
module Rehash {
  import opened Division
  import opened HashItems
  import opened Sequences
  import opened PrimeSizes
  import opened LinearHash

  type Target = Item -> nat

  // --------------------------------------------------------- one bucket

  /** The nodes of a bucket whose place is `m`, in order. */
  ghost function Bound(c: Chain, m: nat, to: Target): Chain
  {
    if c == [] then [] else (if to(c[0]) == m then [c[0]] else []) + Bound(c[1..], m, to)
  }

  lemma {:induction false} BoundSnoc(c: Chain, x: Item, m: nat, to: Target)
    ensures Bound(c + [x], m, to) == Bound(c, m, to) + if to(x) == m then [x] else []
  {
    if c == [] {
      assert [] + [x] == [x] && [x][1..] == [];
    } else {
      assert (c + [x])[1..] == c[1..] + [x] && (c + [x])[0] == c[0];
      BoundSnoc(c[1..], x, m, to);
      Regroup(if to(c[0]) == m then [c[0]] else [], Bound(c[1..], m, to), if to(x) == m then [x] else []);
    }
  }

  lemma {:induction false} BoundMembers(c: Chain, m: nat, to: Target)
    ensures forall x <- Bound(c, m, to) :: x in c && to(x) == m
    ensures forall x <- c :: to(x) == m ==> x in Bound(c, m, to)
  {
    if c != [] {
      BoundMembers(c[1..], m, to);
      assert forall x <- c :: x == c[0] || x in c[1..];
    }
  }

  // ------------------------------------------------------- equal keys

  /** Equal nodes have one place to go. */
  ghost predicate Respects(to: Target, eq: (Item, Item) -> bool)
  {
    forall x, y :: eq(x, y) ==> to(x) == to(y)
  }

  lemma ClusteredTail(c: Chain, eq: (Item, Item) -> bool)
    requires Clustered(c, eq) && c != []
    ensures Clustered(c[1..], eq)
  {
    var t := c[1..];
    forall i, j, k | 0 <= i < j < k < |t| && eq(t[i], t[k]) ensures eq(t[i], t[j]) {
      assert t[i] == c[i + 1] && t[j] == c[j + 1] && t[k] == c[k + 1];
    }
  }

  /** A node in front of a cluster: the nodes equal to it, if any, come first. */
  lemma ClusteredFirst(x: Item, d: Chain, eq: (Item, Item) -> bool)
    requires Clustered(d, eq) && Equivalence(eq)
    requires forall k :: 0 <= k < |d| && eq(x, d[k]) ==> eq(x, d[0])
    ensures Clustered([x] + d, eq)
  {
    var s := [x] + d;
    forall i, j, k | 0 <= i < j < k < |s| && eq(s[i], s[k]) ensures eq(s[i], s[j]) {
      assert s[k] == d[k - 1] && s[j] == d[j - 1];
      if i == 0 {
        assert eq(d[0], d[k - 1]);
        if j > 1 {
          assert eq(d[0], d[j - 1]);
        }
      } else {
        assert s[i] == d[i - 1];
      }
    }
  }

  /** The nodes bound for one place stay clustered when equal nodes have one place. */
  lemma {:induction false} ClusteredBound(c: Chain, m: nat, to: Target, eq: (Item, Item) -> bool)
    requires Clustered(c, eq) && Equivalence(eq) && Respects(to, eq)
    ensures Clustered(Bound(c, m, to), eq)
    ensures c != [] && to(c[0]) == m ==>
      forall k ::
          0 <= k < |Bound(c[1..], m, to)| && eq(c[0], Bound(c[1..], m, to)[k]) ==> eq(c[0], Bound(c[1..], m, to)[0])
  {
    if c != [] {
      ClusteredTail(c, eq);
      ClusteredBound(c[1..], m, to, eq);
      var d := Bound(c[1..], m, to);
      if to(c[0]) == m {
        forall k | 0 <= k < |d| && eq(c[0], d[k]) ensures eq(c[0], d[0]) {
          BoundMembers(c[1..], m, to);
          assert d[k] in c[1..];
          FirstStays(c, m, to, eq, d[k]);
        }
        ClusteredFirst(c[0], d, eq);
      } else {
        assert Bound(c, m, to) == d;
      }
    }
  }

  /** When an equal node follows, the very next one is equal too, and bound for the same place. */
  lemma FirstStays(c: Chain, m: nat, to: Target, eq: (Item, Item) -> bool, y: Item)
    requires c != [] && Clustered(c, eq) && Equivalence(eq) && Respects(to, eq)
    requires to(c[0]) == m && y in c[1..] && eq(c[0], y)
    ensures Bound(c[1..], m, to) != [] && eq(c[0], Bound(c[1..], m, to)[0])
  {
    var k :| 0 <= k < |c[1..]| && c[1..][k] == y;
    assert c[k + 1] == y;
    if k > 0 {
      assert eq(c[0], c[1]);
    }
    assert c[1..][0] == c[1] && to(c[1]) == m;
  }

  lemma ClusteredReversed(c: Chain, eq: (Item, Item) -> bool)
    requires Clustered(c, eq) && Equivalence(eq)
    ensures Clustered(Reversed(c), eq)
  {
    var r := Reversed(c);
    ReversedMembers(c);
    forall i, j, k | 0 <= i < j < k < |r| && eq(r[i], r[k]) ensures eq(r[i], r[j]) {
      ReversedAt(c, i);
      ReversedAt(c, j);
      ReversedAt(c, k);
      assert eq(c[|c| - 1 - k], c[|c| - 1 - i]);
      assert eq(c[|c| - 1 - k], c[|c| - 1 - j]);
    }
  }

  // ------------------------------------------------- a row of buckets

  type Row = seq<Chain>

  /** The bucket `n` has been gone through: what is bound elsewhere has been put in front, node by node. */
  ghost function Dealt(row: Row, n: nat, to: Target): Row
    requires n < |row|
  {
    seq(|row|, m requires 0 <= m < |row| =>
      if m == n then Bound(row[n], n, to) else Reversed(Bound(row[n], m, to)) + row[m])
  }

  ghost function RowItems(row: Row): multiset<Item>
  {
    if row == [] then multiset{} else multiset(row[0]) + RowItems(row[1..])
  }

  lemma {:induction false} UpdateRowItems(row: Row, i: nat, c: Chain)
    requires i < |row|
    ensures RowItems(row[i := c]) + multiset(row[i]) == RowItems(row) + multiset(c)
  {
    if i == 0 {
      assert row[i := c][1..] == row[1..];
    } else {
      assert row[i := c][1..] == row[1..][i - 1 := c];
      UpdateRowItems(row[1..], i - 1, c);
      var first, rest, rest' := multiset(row[0]), RowItems(row[1..]), RowItems(row[1..][i - 1 := c]);
      assert (first + rest') + multiset(row[i]) == first + (rest' + multiset(row[i]));
      assert (first + rest) + multiset(c) == first + (rest + multiset(c));
    }
  }

  /** A row part of the way through its bucket `n`: the first `k` nodes of `c` have been dealt with. */
  ghost function Partway(row: Row, n: nat, k: nat, to: Target): Row
    requires n < |row| && k <= |row[n]|
  {
    seq(|row|, m requires 0 <= m < |row| =>
      if m == n then Bound(row[n][..k], n, to) + row[n][k..] else Reversed(Bound(row[n][..k], m, to)) + row[m])
  }

  lemma PartwayStart(row: Row, n: nat, to: Target)
    requires n < |row|
    ensures Partway(row, n, 0, to) == row && Partway(row, n, |row[n]|, to) == Dealt(row, n, to)
  {
    assert row[n][..0] == [] && row[n][0..] == row[n];
    assert row[n][..|row[n]|] == row[n] && row[n][|row[n]|..] == [];
    forall m | 0 <= m < |row|
      ensures Partway(row, n, 0, to)[m] == row[m] && Partway(row, n, |row[n]|, to)[m] == Dealt(row, n, to)[m]
    {
      assert [] + row[m] == row[m] && Bound(row[n], n, to) + [] == Bound(row[n], n, to);
    }
  }

  /** What one more node changes in bucket `m`. */
  lemma PartwayAt(row: Row, n: nat, k: nat, to: Target, m: nat)
    requires n < |row| && k < |row[n]| && m < |row|
    ensures var x, p, at := row[n][k], Partway(row, n, k, to)[m], |Bound(row[n][..k], n, to)|;
      Partway(row, n, k + 1, to)[m] ==
        if m == n then Bound(row[n][..k], n, to) + (if to(x) == n then [x] else []) + row[n][k + 1..]
        else if to(x) == m then [x] + p else p
  {
    var x, pre := row[n][k], row[n][..k];
    assert row[n][..k + 1] == pre + [x];
    BoundSnoc(pre, x, m, to);
    if m != n && to(x) == m {
      ReversedSnoc(Bound(pre, m, to), x);
      assert ([x] + Reversed(Bound(pre, m, to))) + row[m] == [x] + (Reversed(Bound(pre, m, to)) + row[m]);
    } else if m != n {
      assert Bound(pre, m, to) + [] == Bound(pre, m, to);
    }
  }

  /** The node to be dealt with next. */
  lemma PartwayNext(row: Row, n: nat, k: nat, to: Target)
    requires n < |row| && k < |row[n]|
    ensures var x, p, kept := row[n][k], Partway(row, n, k, to)[n], Bound(row[n][..k], n, to);
      && |kept| < |p| && p[|kept|] == x && p[..|kept|] + p[|kept| + 1..] == kept + row[n][k + 1..]
      && |Bound(row[n][..k + 1], n, to)| == |kept| + if to(x) == n then 1 else 0
  {
    var x, pre := row[n][k], row[n][..k];
    assert row[n][..k + 1] == pre + [x] && row[n][k..] == [x] + row[n][k + 1..];
    BoundSnoc(pre, x, n, to);
  }

  lemma PartwayStays(row: Row, n: nat, k: nat, to: Target)
    requires n < |row| && k < |row[n]| && to(row[n][k]) == n
    ensures Partway(row, n, k + 1, to) == Partway(row, n, k, to)
  {
    hide Bound, Reversed;
    var q, r := Partway(row, n, k + 1, to), Partway(row, n, k, to);
    assert row[n][k..] == [row[n][k]] + row[n][k + 1..];
    Regroup(Bound(row[n][..k], n, to), [row[n][k]], row[n][k + 1..]);
    forall m | 0 <= m < |row| ensures q[m] == r[m] {
      PartwayAt(row, n, k, to, m);
    }
  }

  /** The node moves to the front of its bucket. */
  lemma PartwayGoes(row: Row, n: nat, k: nat, to: Target)
    requires n < |row| && k < |row[n]| && to(row[n][k]) < |row| && to(row[n][k]) != n
    ensures var x, p, at := row[n][k], Partway(row, n, k, to), |Bound(row[n][..k], n, to)|;
      at < |p[n]| && Partway(row, n, k + 1, to) == p[n := p[n][..at] + p[n][at + 1..]][to(x) := [x] + p[to(x)]]
  {
    hide Bound;
    var x, p, at := row[n][k], Partway(row, n, k, to), |Bound(row[n][..k], n, to)|;
    PartwayNext(row, n, k, to);
    var q, r := Partway(row, n, k + 1, to), p[n := p[n][..at] + p[n][at + 1..]][to(x) := [x] + p[to(x)]];
    forall m | 0 <= m < |row| ensures q[m] == r[m] {
      PartwayAt(row, n, k, to, m);
    }
  }

  // ------------------------------------------ what dealing with a bucket keeps

  /** No node is lost: a turn only moves one. */
  lemma MovedItems(row: Row, n: nat, at: nat, m: nat)
    requires n < |row| && m < |row| && m != n && at < |row[n]|
    ensures RowItems(row[n := row[n][..at] + row[n][at + 1..]][m := [row[n][at]] + row[m]]) == RowItems(row)
  {
    hide RowItems;
    var c, x := row[n][..at] + row[n][at + 1..], row[n][at];
    var row1 := row[n := c];
    var row2 := row1[m := [x] + row[m]];
    UpdateRowItems(row, n, c);
    UpdateRowItems(row1, m, [x] + row[m]);
    TakenOut(row[n], at);
    PutInFront(row[m], x);
    CancelTwice(RowItems(row2), RowItems(row1), RowItems(row), multiset(row[m]), multiset(c), x);
  }

  lemma TakenOut(c: Chain, at: nat)
    requires at < |c|
    ensures multiset(c) == multiset(c[..at] + c[at + 1..]) + multiset{c[at]}
  {
    assert c == c[..at] + [c[at]] + c[at + 1..];
  }

  lemma PutInFront(c: Chain, x: Item)
    ensures multiset([x] + c) == multiset{x} + multiset(c)
  {
  }

  lemma CancelTwice(r2: multiset<Item>, r1: multiset<Item>, r: multiset<Item>, k: multiset<Item>, c: multiset<Item>,
                    x: Item)
    requires r2 + k == r1 + (multiset{x} + k) && r1 + (c + multiset{x}) == r + c
    ensures r2 == r
  {
    forall e ensures r2[e] == r[e] {
      assert (r2 + k)[e] == (r1 + (multiset{x} + k))[e];
      assert (r1 + (c + multiset{x}))[e] == (r + c)[e];
    }
  }

  lemma PartwayLeft(row: Row, n: nat, k: nat, to: Target)
    requires n < |row| && k <= |row[n]|
    ensures |Partway(row, n, k, to)| == |row|
        && |Partway(row, n, k, to)[n]| == |Bound(row[n][..k], n, to)| + (|row[n]| - k)
  {
  }

  lemma {:induction false} PartwayItems(row: Row, n: nat, k: nat, to: Target)
    requires n < |row| && k <= |row[n]| && forall x <- row[n] :: to(x) < |row|
    ensures RowItems(Partway(row, n, k, to)) == RowItems(row)
    decreases k
  {
    hide *;
    if k == 0 {
      PartwayStart(row, n, to);
    } else {
      PartwayLeft(row, n, k - 1, to);
      PartwayItems(row, n, k - 1, to);
      assert row[n][k - 1] in row[n];
      if to(row[n][k - 1]) == n {
        PartwayStays(row, n, k - 1, to);
      } else {
        PartwayNext(row, n, k - 1, to);
        PartwayGoes(row, n, k - 1, to);
        MovedItems(Partway(row, n, k - 1, to), n, |Bound(row[n][..k - 1], n, to)|, to(row[n][k - 1]));
      }
    }
  }

  /** The buckets before `n`, and those from `last` on, hold only what belongs there; all have somewhere to go. */
  ghost predicate DoneUpTo(row: Row, n: nat, last: nat, to: Target)
  {
    forall m :: 0 <= m < |row| ==> forall x <- row[m] :: to(x) < |row| && (m < n || m >= last ==> to(x) == m)
  }

  lemma DealtDone(row: Row, n: nat, last: nat, to: Target)
    requires n < last <= |row| && DoneUpTo(row, n, last, to)
    ensures DoneUpTo(Dealt(row, n, to), n + 1, last, to) && RowItems(Dealt(row, n, to)) == RowItems(row)
  {
    PartwayStart(row, n, to);
    PartwayItems(row, n, |row[n]|, to);
    var row' := Dealt(row, n, to);
    forall m, x | 0 <= m < |row'| && x in row'[m]
      ensures to(x) < |row| && (m < n + 1 || m >= last ==> to(x) == m)
    {
      DealtFrom(row, n, to, m, x);
    }
  }

  /** Equal nodes are in one bucket, next to each other. */
  ghost predicate Grouped(row: Row, eq: (Item, Item) -> bool)
  {
    && (forall m :: 0 <= m < |row| ==> Clustered(row[m], eq))
    && forall l, m :: 0 <= l < m < |row| ==> Unequal(row[l], row[m], eq)
  }

  lemma UnequalSides(row: Row, eq: (Item, Item) -> bool, l: nat, m: nat, x: Item, y: Item)
    requires Grouped(row, eq) && Equivalence(eq) && l < |row| && m < |row| && l != m && x in row[l] && y in row[m]
    ensures !eq(x, y)
  {
    var i :| 0 <= i < |row[l]| && row[l][i] == x;
    var j :| 0 <= j < |row[m]| && row[m][j] == y;
    if l < m {
      assert Unequal(row[l], row[m], eq);
    } else {
      assert Unequal(row[m], row[l], eq);
      assert !eq(row[m][j], row[l][i]);
    }
  }

  /** Where a node of bucket `m` has come from. */
  lemma DealtFrom(row: Row, n: nat, to: Target, m: nat, x: Item)
    requires n < |row| && m < |row| && x in Dealt(row, n, to)[m]
    ensures (x in row[n] && to(x) == m) || (m != n && x in row[m])
  {
    BoundMembers(row[n], m, to);
    ReversedMembers(Bound(row[n], m, to));
  }

  lemma DealtClustered(row: Row, n: nat, to: Target, eq: (Item, Item) -> bool, m: nat)
    requires n < |row| && m < |row| && Grouped(row, eq) && Equivalence(eq) && Respects(to, eq)
    ensures Clustered(Dealt(row, n, to)[m], eq)
  {
    ClusteredBound(row[n], m, to, eq);
    if m != n {
      var front := Reversed(Bound(row[n], m, to));
      ClusteredReversed(Bound(row[n], m, to), eq);
      forall i, j | 0 <= i < |front| && 0 <= j < |row[m]| ensures !eq(front[i], row[m][j]) {
        ReversedMembers(Bound(row[n], m, to));
        BoundMembers(row[n], m, to);
        assert front[i] in front && row[m][j] in row[m];
        UnequalSides(row, eq, n, m, front[i], row[m][j]);
      }
      ClusteredJoin(front, row[m], eq);
    }
  }

  /** Dealing with a bucket keeps equal nodes together when they have one place to go. */
  lemma DealtGrouped(row: Row, n: nat, to: Target, eq: (Item, Item) -> bool)
    requires n < |row| && Grouped(row, eq) && Equivalence(eq) && Respects(to, eq)
    ensures Grouped(Dealt(row, n, to), eq)
  {
    var row' := Dealt(row, n, to);
    forall m | 0 <= m < |row| ensures Clustered(row'[m], eq) {
      DealtClustered(row, n, to, eq, m);
    }
    forall l, m | 0 <= l < m < |row| ensures Unequal(row'[l], row'[m], eq) {
      forall i, j | 0 <= i < |row'[l]| && 0 <= j < |row'[m]| ensures !eq(row'[l][i], row'[m][j]) {
        DealtUnequal(row, n, to, eq, l, m, row'[l][i], row'[m][j]);
      }
    }
  }

  lemma DealtUnequal(row: Row, n: nat, to: Target, eq: (Item, Item) -> bool, l: nat, m: nat, x: Item, y: Item)
    requires n < |row| && l < m < |row| && Grouped(row, eq) && Equivalence(eq) && Respects(to, eq)
    requires x in Dealt(row, n, to)[l] && y in Dealt(row, n, to)[m]
    ensures !eq(x, y)
  {
    DealtFrom(row, n, to, l, x);
    DealtFrom(row, n, to, m, y);
    if l != n && x in row[l] {
      if m != n && y in row[m] {
        UnequalSides(row, eq, l, m, x, y);
      } else {
        UnequalSides(row, eq, l, n, x, y);
      }
    } else if m != n && y in row[m] {
      UnequalSides(row, eq, n, m, x, y);
    }
  }

  /** The row after the buckets from `from` to `n` have been dealt with. */
  ghost function AllDealt(row: Row, from: nat, n: nat, to: Target): (r: Row)
    requires from <= n <= |row|
    ensures |r| == |row|
  {
    if n == from then row else Dealt(AllDealt(row, from, n - 1, to), n - 1, to)
  }

  lemma AllDealtNext(row: Row, from: nat, n: nat, to: Target)
    requires from <= n <= |row|
    ensures AllDealt(row, from, n, to) == if n == from then row else Dealt(AllDealt(row, from, n - 1, to), n - 1, to)
  {
  }

  /** Going through all buckets puts every node where it belongs, and loses none. */
  lemma {:induction false} AllDealtDone(row: Row, from: nat, n: nat, last: nat, to: Target)
    requires from <= n <= last <= |row| && DoneUpTo(row, from, last, to)
    ensures DoneUpTo(AllDealt(row, from, n, to), n, last, to) && RowItems(AllDealt(row, from, n, to)) == RowItems(row)
    decreases n
  {
    hide *;
    AllDealtNext(row, from, n, to);
    if n > from {
      AllDealtDone(row, from, n - 1, last, to);
      DealtDone(AllDealt(row, from, n - 1, to), n - 1, last, to);
    }
  }

  /** And keeps equal nodes together. */
  lemma {:induction false} AllDealtGrouped(row: Row, from: nat, n: nat, to: Target, eq: (Item, Item) -> bool)
    requires from <= n <= |row| && Grouped(row, eq) && Equivalence(eq) && Respects(to, eq)
    ensures Grouped(AllDealt(row, from, n, to), eq)
    decreases n
  {
    hide *;
    AllDealtNext(row, from, n, to);
    if n > from {
      AllDealtGrouped(row, from, n - 1, to, eq);
      DealtGrouped(AllDealt(row, from, n - 1, to), n - 1, to, eq);
    }
  }

  // --------------------------------------------------- whole buckets at once

  /** The bucket `n` goes to the front of bucket `m` as it is. */
  ghost function WholeMoved(row: Row, n: nat, m: nat): Row
    requires n < |row| && m < |row| && m != n
  {
    row[n := []][m := row[n] + row[m]]
  }

  /** Every bucket from `start` on has another one to go to. */
  ghost predicate GoesElsewhere(row: Row, start: nat, ac: nat, at: nat -> nat)
  {
    forall n :: start <= n < ac ==> at(n) < |row| && at(n) != n
  }

  ghost function AllWhole(row: Row, from: nat, n: nat, at: nat -> nat): (r: Row)
    requires from <= n <= |row| && GoesElsewhere(row, from, n, at)
    ensures |r| == |row|
  {
    if n == from then row else WholeMoved(AllWhole(row, from, n - 1, at), n - 1, at(n - 1))
  }

  lemma WholeItems(row: Row, n: nat, m: nat)
    requires n < |row| && m < |row| && m != n
    ensures RowItems(WholeMoved(row, n, m)) == RowItems(row)
  {
    var row1 := row[n := []];
    UpdateRowItems(row, n, []);
    UpdateRowItems(row1, m, row[n] + row[m]);
    var r2, r1, r, c, k := RowItems(WholeMoved(row, n, m)), RowItems(row1), RowItems(row), multiset(row[n]),
        multiset(row[m]);
    assert multiset(row[n] + row[m]) == c + k;
    assert r2 + k == r1 + (c + k) && r1 + c == r;
    forall e ensures r2[e] == r[e] {
      assert (r2 + k)[e] == (r1 + (c + k))[e];
    }
  }

  lemma WholeDone(row: Row, n: nat, m: nat, last: nat, to: Target)
    requires n < last <= |row| && m < |row| && m != n && DoneUpTo(row, n, last, to)
    requires forall x <- row[n] :: to(x) == m
    ensures DoneUpTo(WholeMoved(row, n, m), n + 1, last, to)
  {
  }

  lemma WholeGrouped(row: Row, n: nat, m: nat, eq: (Item, Item) -> bool)
    requires n < |row| && m < |row| && m != n && Grouped(row, eq) && Equivalence(eq)
    ensures Grouped(WholeMoved(row, n, m), eq)
  {
    var row' := WholeMoved(row, n, m);
    forall i, j | 0 <= i < |row[n]| && 0 <= j < |row[m]| ensures !eq(row[n][i], row[m][j]) {
      UnequalSides(row, eq, n, m, row[n][i], row[m][j]);
    }
    ClusteredJoin(row[n], row[m], eq);
    forall k, l | 0 <= k < l < |row| ensures Unequal(row'[k], row'[l], eq) {
      forall i, j | 0 <= i < |row'[k]| && 0 <= j < |row'[l]| ensures !eq(row'[k][i], row'[l][j]) {
        WholeUnequal(row, n, m, eq, k, l, row'[k][i], row'[l][j]);
      }
    }
  }

  lemma WholeUnequal(row: Row, n: nat, m: nat, eq: (Item, Item) -> bool, k: nat, l: nat, x: Item, y: Item)
    requires n < |row| && m < |row| && m != n && Grouped(row, eq) && Equivalence(eq) && k < l < |row|
    requires x in WholeMoved(row, n, m)[k] && y in WholeMoved(row, n, m)[l]
    ensures !eq(x, y)
  {
    var k0, l0 := if k == m && x in row[n] then n else k, if l == m && y in row[n] then n else l;
    UnequalSides(row, eq, k0, l0, x, y);
  }

  // ------------------------------------------------------ where nodes belong

  /** How a table turns a hash value into a bucket number. */
  datatype Policy = Modulo | PowerOfTwo | PrimeFastMod

  /** A bucket count; for the prime sizes also its place in the list of them. */
  datatype Size = Size(count: nat, index: nat)

  ghost predicate SizeFor(p: Policy, z: Size)
  {
    && z.count > 0 && (p.PowerOfTwo? ==> IsPow2(z.count))
    && (p.PrimeFastMod? ==> z.index < SIZES && z.count == PrimeList(z.index))
  }

  function Slot(p: Policy, hash: nat, z: Size): (b: nat)
    requires SizeFor(p, z) && hash < WORD64
    ensures b < z.count
    ensures b == (if p.PrimeFastMod? && z.index < SIZES_UNDER_32BIT then (hash % WORD32 + hash / WORD32) % WORD32
                  else hash) % z.count
  {
    match p
    case Modulo => hash % z.count
    case PowerOfTwo =>
      MaskIsRemainder(hash, z.count);
      And(hash, z.count - 1)
    case PrimeFastMod => Position(hash, z.index)
  }

  /** When hash values need not be looked at again to shrink a table. */
  predicate FastShrink(p: Policy, z: Size, z': Size)
    requires z'.count > 0
  {
    z.count >= z'.count && (p.PowerOfTwo? || z.count % z'.count == 0)
  }

  lemma RemainderTwice(h: nat, n: nat, d: nat)
    requires d > 0 && n > 0 && n % d == 0
    ensures h % n % d == h % d
  {
    var q, r := Divide(h, n);
    var k, zero := Divide(n, d);
    var q', r' := Divide(r, d);
    assert h == (q * k + q') * d + r' by {
      assert q * n == q * (k * d) == q * k * d;
    }
    QuotientIs(h, d, q * k + q', r');
  }

  lemma Twice(q: nat, d: nat)
    ensures q * (2 * d) == 2 * (q * d)
  {
  }

  /** The smaller of two powers of two divides the larger. */
  lemma {:induction false} Pow2Divides(n: nat, d: nat)
    requires IsPow2(n) && IsPow2(d) && d <= n
    ensures n % d == 0
    decreases n
  {
    if d == 1 {
    } else if d < n {
      Pow2Divides(n / 2, d / 2);
      var q, r := Divide(n / 2, d / 2);
      Twice(q, d / 2);
      QuotientIs(n, d, q, 0);
    } else {
      QuotientIs(n, d, 1, 0);
    }
  }

  /** A prime size is a multiple of another one only when both have at most 32 bits, or neither has. */
  lemma SameSide(z: Size, z': Size)
    requires SizeFor(PrimeFastMod, z) && SizeFor(PrimeFastMod, z') && FastShrink(PrimeFastMod, z, z')
    ensures z.index < SIZES_UNDER_32BIT <==> z'.index < SIZES_UNDER_32BIT
  {
    if z.index < SIZES_UNDER_32BIT <= z'.index {
      NoMultiples(z'.index, z.index);
    } else if z'.index < SIZES_UNDER_32BIT <= z.index {
      NoMultiples(z.index, z'.index);
    }
  }

  /** Moving whole buckets agrees with looking at every hash value. */
  lemma FastShrinkAgrees(p: Policy, hash: nat, z: Size, z': Size)
    requires SizeFor(p, z) && SizeFor(p, z') && hash < WORD64 && z.count <= WORD64 && FastShrink(p, z, z')
    ensures Slot(p, hash, z) < WORD64 && Slot(p, Slot(p, hash, z), z') == Slot(p, hash, z')
  {
    match p
    case Modulo => RemainderTwice(hash, z.count, z'.count);
    case PowerOfTwo => MasksAgree(hash, z.count, z'.count);
    case PrimeFastMod =>
      SameSide(z, z');
      PositionsAgree(hash, z.index, z'.index);
  }

  lemma MasksAgree(hash: nat, n: nat, d: nat)
    requires IsPow2(n) && IsPow2(d) && d <= n <= WORD64
    ensures And(hash, n - 1) < WORD64 && And(And(hash, n - 1), d - 1) == And(hash, d - 1)
  {
    Pow2Divides(n, d);
    MaskIsRemainder(hash, n);
    MaskIsRemainder(hash, d);
    MaskIsRemainder(And(hash, n - 1), d);
    RemainderTwice(hash, n, d);
  }

  lemma PositionsAgree(hash: nat, i: nat, j: nat)
    requires hash < WORD64 && i < SIZES && j < SIZES && (i < SIZES_UNDER_32BIT <==> j < SIZES_UNDER_32BIT)
    requires PrimeList(i) % PrimeList(j) == 0
    ensures Position(hash, i) < WORD64 && Position(Position(hash, i), j) == Position(hash, j)
  {
    hide PrimeList, Position;
    var a := if i < SIZES_UNDER_32BIT then (hash % WORD32 + hash / WORD32) % WORD32 else hash;
    var b := a % PrimeList(i);
    RemainderTwice(a, PrimeList(i), PrimeList(j));
    if i < SIZES_UNDER_32BIT {
      FoldSmall(b);
    }
  }

  lemma FoldSmall(b: nat)
    requires b < WORD32
    ensures (b % WORD32 + b / WORD32) % WORD32 == b
  {
    QuotientIs(b, WORD32, 0, b);
  }

  // ------------------------------------------------------------ the algorithm

  ghost function RowOf(a: array<Chain>, m: nat, b: array<Chain>, n: nat): Row
    requires m <= a.Length && n <= b.Length
    reads a, b
  {
    if a == b then a[..if m > n then m else n] else a[..m] + b[..n]
  }

  /** Where the new buckets begin in the row. */
  ghost function Base(a: array<Chain>, m: nat, b: array<Chain>): nat
  {
    if a == b then 0 else m
  }

  ghost function TargetOf(p: Policy, h: Hash, z: Size, base: nat): Target
  {
    (x: Item) => if SizeFor(p, z) && h(x) < WORD64 then base + Slot(p, h(x), z) else 0
  }

  /** The node at index `at` of bucket `n` moves to the front of bucket `m` of the new array. */
  method TransferNode(a: array<Chain>, ghost ac: nat, b: array<Chain>, ghost bc: nat, n: nat, at: nat, m: nat)
    requires ac <= a.Length && bc <= b.Length && n < ac && m < bc && at < |a[n]| && (a == b ==> n != m)
    modifies a, b
    ensures var row := old(RowOf(a, ac, b, bc));
      RowOf(a, ac, b, bc) == row[n := row[n][..at] + row[n][at + 1..]][Base(a, ac, b) + m :=
          [row[n][at]] + row[Base(a, ac, b) + m]]
  {
    var c := a[n];
    b[m] := [c[at]] + b[m];
    a[n] := c[..at] + c[at + 1..];
  }

  /** All nodes of bucket `n` move to the front of bucket `m` of the new array. */
  method TransferBucket(a: array<Chain>, ghost ac: nat, b: array<Chain>, ghost bc: nat, n: nat, m: nat)
    requires ac <= a.Length && bc <= b.Length && n < ac && m < bc && (a == b ==> n != m)
    modifies a, b
    ensures Base(a, ac, b) + m != n
    ensures RowOf(a, ac, b, bc) == WholeMoved(old(RowOf(a, ac, b, bc)), n, Base(a, ac, b) + m)
  {
    var c := a[n];
    b[m] := c + b[m];
    a[n] := [];
  }

  lemma RowBucket(a: array<Chain>, ac: nat, b: array<Chain>, bc: nat, n: nat)
    requires ac <= a.Length && bc <= b.Length && n < ac
    ensures n < |RowOf(a, ac, b, bc)| && a[n] == RowOf(a, ac, b, bc)[n]
  {
  }

  lemma RowHolds(a: array<Chain>, ac: nat, b: array<Chain>, bc: nat)
    requires ac <= a.Length && bc <= b.Length
    ensures ac <= |RowOf(a, ac, b, bc)|
  {
  }

  /** One node of bucket `n` goes to its bucket, or stays. */
  method RehashNode(a: array<Chain>, ghost ac: nat, b: array<Chain>, n: nat, before: nat, first: nat, p: Policy,
                    z: Size, h: Hash,
                    ghost row: Row, ghost k: nat) returns (before': nat, first': nat)
    requires ac <= a.Length && z.count <= b.Length && n < ac && SizeFor(p, z) && forall x :: h(x) < WORD64
    requires n < |row| && k < |row[n]| && before == |Bound(row[n][..k], n, TargetOf(p, h, z, Base(a, ac, b)))|
    requires RowOf(a, ac, b, z.count) == Partway(row, n, k, TargetOf(p, h, z, Base(a, ac, b)))
    modifies a, b
    ensures RowOf(a, ac, b, z.count) == Partway(row, n, k + 1, TargetOf(p, h, z, Base(a, ac, b)))
    ensures before' == |Bound(row[n][..k + 1], n, TargetOf(p, h, z, Base(a, ac, b)))|
    ensures first' <= first && first' <= Slot(p, h(row[n][k]), z)
    ensures first' == first || first' == Slot(p, h(row[n][k]), z)
  {
    hide *;
    ghost var to := TargetOf(p, h, z, Base(a, ac, b));
    NodeFacts(a, ac, b, n, before, p, z, h, row, k);
    var x := a[n][before];
    var newN := Slot(p, h(x), z);
    before', first' := before, if newN < first then newN else first;
    if a == b && newN == n {
      PartwayStays(row, n, k, to);
      before' := before + 1;
    } else {
      PartwayGoes(row, n, k, to);
      TransferNode(a, ac, b, z.count, n, before, newN);
    }
  }

  /** The node to be looked at, and where it belongs. */
  lemma NodeFacts(a: array<Chain>, ac: nat, b: array<Chain>, n: nat, before: nat, p: Policy, z: Size, h: Hash,
                  row: Row, k: nat)
    requires ac <= a.Length && z.count <= b.Length && n < ac && SizeFor(p, z) && forall x :: h(x) < WORD64
    requires n < |row| && k < |row[n]| && before == |Bound(row[n][..k], n, TargetOf(p, h, z, Base(a, ac, b)))|
    requires RowOf(a, ac, b, z.count) == Partway(row, n, k, TargetOf(p, h, z, Base(a, ac, b)))
    ensures before < |a[n]| && a[n][before] == row[n][k] && |RowOf(a, ac, b, z.count)| == |row|
        && RowOf(a, ac, b, z.count)[n] == a[n]
    ensures var to, x := TargetOf(p, h, z, Base(a, ac, b)), row[n][k];
      && to(x) == Base(a, ac, b) + Slot(p, h(x), z) && to(x) < |row| && Slot(p, h(x), z) < z.count
      && (to(x) == n <==> a == b && Slot(p, h(x), z) == n)
      && |Bound(row[n][..k + 1], n, to)| == before + if to(x) == n then 1 else 0
  {
    hide Partway, Bound, Slot;
    var to := TargetOf(p, h, z, Base(a, ac, b));
    RowBucket(a, ac, b, z.count, n);
    PartwayLeft(row, n, k, to);
    PartwayNext(row, n, k, to);
    TargetInside(p, h, z, Base(a, ac, b), row[n][k]);
    NewPart(a, ac, b, z.count);
  }

  /** No node of the bucket belongs in a bucket before `first`. */
  ghost predicate From(c: Chain, first: nat, p: Policy, h: Hash, z: Size)
    requires SizeFor(p, z) && forall x :: h(x) < WORD64
  {
    forall x <- c :: first <= Slot(p, h(x), z)
  }

  lemma NoneYet(c: Chain, n: nat, to: Target, first: nat, p: Policy, h: Hash, z: Size)
    requires SizeFor(p, z) && forall x :: h(x) < WORD64
    ensures From(c[..0], first, p, h, z) && |Bound(c[..0], n, to)| == 0
  {
  }

  lemma FromNext(c: Chain, k: nat, first: nat, first': nat, p: Policy, h: Hash, z: Size)
    requires SizeFor(p, z) && (forall x :: h(x) < WORD64) && k < |c| && From(c[..k], first, p, h, z)
    requires first' <= first && first' <= Slot(p, h(c[k]), z)
    ensures From(c[..k + 1], first', p, h, z)
  {
    assert c[..k + 1] == c[..k] + [c[k]];
  }

  /** A node of the bucket belongs in the bucket `first`. */
  ghost predicate SomeAt(c: Chain, first: nat, p: Policy, h: Hash, z: Size)
    requires SizeFor(p, z) && forall x :: h(x) < WORD64
  {
    exists x <- c :: first == Slot(p, h(x), z)
  }

  lemma AtNext(c: Chain, k: nat, first: nat, first': nat, p: Policy, h: Hash, z: Size)
    requires SizeFor(p, z) && (forall x :: h(x) < WORD64) && k < |c|
    requires first' == first || first' == Slot(p, h(c[k]), z)
    ensures first' == first || SomeAt(c, first', p, h, z)
  {
    assert c[k] in c;
  }

  /** Every node is looked at, and goes to the bucket of its hash value unless it is there already. */
  method RehashBucket(a: array<Chain>, ac: nat, b: array<Chain>, n: nat, first: nat, p: Policy, z: Size, h: Hash,
                      ghost row: Row)
    returns (first': nat)
    requires ac <= a.Length && z.count <= b.Length && n < ac && SizeFor(p, z) && forall x :: h(x) < WORD64
    requires RowOf(a, ac, b, z.count) == row
    modifies a, b
    ensures RowOf(a, ac, b, z.count) == Dealt(row, n, TargetOf(p, h, z, Base(a, ac, b)))
    ensures first' <= first && From(row[n], first', p, h, z) && (first' == first || SomeAt(row[n], first', p, h, z))
  {
    hide *;
    ghost var to, k := TargetOf(p, h, z, Base(a, ac, b)), 0;
    RowBucket(a, ac, b, z.count, n);
    PartwayStart(row, n, to);
    NoneYet(row[n], n, to, first, p, h, z);
    var before := 0;
    first' := first;
    while before < |a[n]|
      invariant k <= |row[n]| && RowOf(a, ac, b, z.count) == Partway(row, n, k, to)
          && before == |Bound(row[n][..k], n, to)|
      invariant first' <= first && From(row[n][..k], first', p, h, z)
      invariant first' == first || SomeAt(row[n], first', p, h, z)
      decreases |row[n]| - k
    {
      RowBucket(a, ac, b, z.count, n);
      PartwayLeft(row, n, k, to);
      ghost var was := first';
      before, first' := RehashNode(a, ac, b, n, before, first', p, z, h, row, k);
      FromNext(row[n], k, was, first', p, h, z);
      AtNext(row[n], k, was, first', p, h, z);
      k := k + 1;
    }
    RowBucket(a, ac, b, z.count, n);
    PartwayLeft(row, n, k, to);
    assert row[n][..k] == row[n];
  }

  /** Of the new buckets dealt with, those before `first` are empty. */
  ghost predicate EmptyBelow(row: Row, n: nat, last: nat, base: nat, first: nat)
  {
    forall m :: base <= m < base + first && m < |row| && (m < n || m >= last) ==> row[m] == []
  }

  lemma {:induction false} NoneBound(c: Chain, first: nat, p: Policy, h: Hash, z: Size, base: nat, m: nat)
    requires SizeFor(p, z) && (forall x :: h(x) < WORD64) && From(c, first, p, h, z) && m < base + first
    ensures Bound(c, m, TargetOf(p, h, z, base)) == []
  {
    if c != [] {
      NoneBound(c[1..], first, p, h, z, base, m);
    }
  }

  lemma DealtEmptyBelow(row: Row, n: nat, last: nat, base: nat, first: nat, first': nat, p: Policy, h: Hash, z: Size)
    requires SizeFor(p, z) && (forall x :: h(x) < WORD64) && n < last <= |row| && EmptyBelow(row, n, last, base, first)
    requires first' <= first && From(row[n], first', p, h, z)
    ensures EmptyBelow(Dealt(row, n, TargetOf(p, h, z, base)), n + 1, last, base, first')
  {
    var to := TargetOf(p, h, z, base);
    forall m | base <= m < base + first' && m < |row| && (m < n + 1 || m >= last) ensures Dealt(row, n, to)[m] == [] {
      BoundMembers(row[n], m, to);
      NoneBound(row[n], first', p, h, z, base, m);
    }
  }

  /** A node of the row belongs in the bucket `first`. */
  ghost predicate ItemAt(row: Row, first: nat, p: Policy, h: Hash, z: Size)
    requires SizeFor(p, z) && forall x :: h(x) < WORD64
  {
    exists x <- RowItems(row) :: first == Slot(p, h(x), z)
  }

  lemma {:induction false} RowMember(row: Row, n: nat, x: Item)
    requires n < |row| && x in row[n]
    ensures x in RowItems(row)
  {
    if n > 0 {
      RowMember(row[1..], n - 1, x);
    }
  }

  lemma {:induction false} RowWhere(row: Row, x: Item) returns (n: nat)
    requires x in RowItems(row)
    ensures n < |row| && x in row[n]
  {
    if x in row[0] {
      n := 0;
    } else {
      n := RowWhere(row[1..], x);
      n := n + 1;
    }
  }

  lemma ItemNext(row: Row, now: Row, n: nat, first: nat, first': nat, p: Policy, h: Hash, z: Size)
    requires SizeFor(p, z) && (forall x :: h(x) < WORD64) && n < |now| && RowItems(now) == RowItems(row)
    requires first' == first || SomeAt(now[n], first', p, h, z)
    ensures first' == first || ItemAt(row, first', p, h, z)
  {
    hide RowItems, Slot;
    if first' != first {
      var x :| x in now[n] && first' == Slot(p, h(x), z);
      RowMember(now, n, x);
    }
  }

  /** The bucket where a node belongs holds it. */
  lemma ItemThere(r: Row, p: Policy, h: Hash, z: Size, was: Row, first: nat)
    requires (forall x :: h(x) < WORD64) && Hashed(r, p, h, z) && RowItems(r) == RowItems(was)
    requires ItemAt(was, first, p, h, z)
    ensures first < |r| && r[first] != []
  {
    hide RowItems, Slot;
    var x :| x in RowItems(was) && first == Slot(p, h(x), z);
    var m := RowWhere(r, x);
  }

  method RehashNodes(a: array<Chain>, ac: nat, b: array<Chain>, start: nat, first: nat, p: Policy, z: Size, h: Hash,
                     ghost row: Row)
    returns (first': nat)
    requires ac <= a.Length && z.count <= b.Length && start <= ac && SizeFor(p, z) && forall x :: h(x) < WORD64
    requires RowOf(a, ac, b, z.count) == row && EmptyBelow(row, start, ac, Base(a, ac, b), first)
    requires ac <= |row| && DoneUpTo(row, start, ac, TargetOf(p, h, z, Base(a, ac, b)))
    modifies a, b
    ensures RowOf(a, ac, b, z.count) == AllDealt(row, start, ac, TargetOf(p, h, z, Base(a, ac, b)))
    ensures first' == first || ItemAt(row, first', p, h, z)
    ensures first' <= first && EmptyBelow(RowOf(a, ac, b, z.count), ac, ac, Base(a, ac, b), first')
  {
    hide *;
    ghost var to, base := TargetOf(p, h, z, Base(a, ac, b)), Base(a, ac, b);
    RowHolds(a, ac, b, z.count);
    AllDealtNext(row, start, start, to);
    first' := first;
    for n := start to ac
      invariant RowOf(a, ac, b, z.count) == AllDealt(row, start, n, to)
      invariant first' <= first && EmptyBelow(AllDealt(row, start, n, to), n, ac, base, first')
      invariant first' == first || ItemAt(row, first', p, h, z)
    {
      AllDealtDone(row, start, n, ac, to);
      ghost var now, was := AllDealt(row, start, n, to), first';
      AllDealtNext(row, start, n + 1, to);
      first' := RehashBucket(a, ac, b, n, first', p, z, h, now);
      DealtEmptyBelow(now, n, ac, base, was, first', p, h, z);
      ItemNext(row, now, n, was, first', p, h, z);
    }
  }

  /** The bucket a whole bucket goes to. */
  ghost function WholeTarget(p: Policy, z: Size, base: nat): nat -> nat
  {
    (n: nat) => if SizeFor(p, z) && n < WORD64 then base + Slot(p, n, z) else 0
  }

  lemma WholeTargets(a: array<Chain>, ac: nat, b: array<Chain>, start: nat, p: Policy, z: Size)
    requires ac <= a.Length && z.count <= b.Length && start <= ac <= WORD64 && SizeFor(p, z)
        && (a == b ==> z.count <= start)
    ensures ac <= |RowOf(a, ac, b, z.count)|
    ensures forall n ::
        start <= n <= ac ==> GoesElsewhere(RowOf(a, ac, b, z.count), start, n, WholeTarget(p, z, Base(a, ac, b)))
  {
  }

  /** Moves one bucket as a whole. */
  method RehashWholeBucket(a: array<Chain>, ac: nat, b: array<Chain>, n: nat, first: nat, p: Policy, z: Size)
    returns (first': nat)
    requires ac <= a.Length && z.count <= b.Length && n < ac <= WORD64 && SizeFor(p, z) && (a == b ==> z.count <= n)
    modifies a, b
    ensures var at := Base(a, ac, b) + Slot(p, n, z);
      at != n && RowOf(a, ac, b, z.count) == WholeMoved(old(RowOf(a, ac, b, z.count)), n, at)
    ensures first' == if Slot(p, n, z) < first then Slot(p, n, z) else first
  {
    var newN := Slot(p, n, z);
    first' := if newN < first then newN else first;
    TransferBucket(a, ac, b, z.count, n, newN);
  }

  lemma WholeEmptyBelow(row: Row, n: nat, last: nat, base: nat, first: nat, first': nat, m: nat)
    requires n < last <= |row| && base + m < |row| && base + m != n && EmptyBelow(row, n, last, base, first)
    requires first' <= first && first' <= m
    ensures EmptyBelow(WholeMoved(row, n, base + m), n + 1, last, base, first')
  {
  }

  /** The least of `bound` and the buckets that the buckets from `start` to `n` go to. */
  ghost predicate LeastFrom(first: nat, bound: nat, start: nat, n: nat, p: Policy, z: Size)
    requires SizeFor(p, z) && n <= WORD64
  {
    && first <= bound && (forall k: nat :: start <= k < n ==> first <= Slot(p, k, z))
    && (first == bound || exists k: nat :: start <= k < n && first == Slot(p, k, z))
  }

  lemma LeastStart(bound: nat, start: nat, p: Policy, z: Size)
    requires SizeFor(p, z) && start <= WORD64
    ensures LeastFrom(bound, bound, start, start, p, z)
  {
  }

  lemma LeastNext(first': nat, first: nat, bound: nat, start: nat, n: nat, p: Policy, z: Size)
    requires SizeFor(p, z) && start <= n < WORD64 && LeastFrom(first, bound, start, n, p, z)
    requires first' == if Slot(p, n, z) < first then Slot(p, n, z) else first
    ensures LeastFrom(first', bound, start, n + 1, p, z)
  {
    hide Slot;
  }

  /** The first bucket that whole buckets have been moved to, or may have been left in place. */
  ghost predicate LeastWhole(first: nat, sameBuffer: bool, cache: nat, count: nat, p: Policy, z: Size)
    requires SizeFor(p, z) && count <= WORD64
  {
    if sameBuffer && cache < z.count then LeastFrom(first, cache, z.count, count, p, z)
    else LeastFrom(first, z.count, cache, count, p, z)
  }

  method RehashWhole(a: array<Chain>, ac: nat, b: array<Chain>, start: nat, first: nat, p: Policy, z: Size,
                     ghost row: Row)
    returns (first': nat)
    requires ac <= a.Length && z.count <= b.Length && start <= ac <= WORD64 && SizeFor(p, z)
    requires RowOf(a, ac, b, z.count) == row && (a == b ==> z.count <= start)
    requires EmptyBelow(row, start, ac, Base(a, ac, b), first)
    modifies a, b
    ensures LeastFrom(first', first, start, ac, p, z)
    ensures GoesElsewhere(row, start, ac, WholeTarget(p, z, Base(a, ac, b)))
    ensures RowOf(a, ac, b, z.count) == AllWhole(row, start, ac, WholeTarget(p, z, Base(a, ac, b)))
    ensures first' <= first && EmptyBelow(RowOf(a, ac, b, z.count), ac, ac, Base(a, ac, b), first')
  {
    hide *;
    ghost var at, base := WholeTarget(p, z, Base(a, ac, b)), Base(a, ac, b);
    WholeTargets(a, ac, b, start, p, z);
    AllWholeNext(row, start, start, at);
    assert forall n :: start <= n <= ac ==> GoesElsewhere(row, start, n, at);
    LeastStart(first, start, p, z);
    first' := first;
    for n := start to ac
      invariant RowOf(a, ac, b, z.count) == AllWhole(row, start, n, at)
      invariant first' <= first && EmptyBelow(AllWhole(row, start, n, at), n, ac, base, first')
      invariant LeastFrom(first', first, start, n, p, z)
    {
      ghost var was := first';
      AllWholeNext(row, start, n + 1, at);
      WholeTargetAt(p, z, base, n);
      first' := RehashWholeBucket(a, ac, b, n, first', p, z);
      WholeEmptyBelow(AllWhole(row, start, n, at), n, ac, base, was, first', Slot(p, n, z));
      LeastNext(first', was, first, start, n, p, z);
    }
  }

  lemma AllWholeNext(row: Row, from: nat, n: nat, at: nat -> nat)
    requires from <= n <= |row| && GoesElsewhere(row, from, n, at)
    ensures n > from ==> at(n - 1) < |row| && at(n - 1) != n - 1 && GoesElsewhere(row, from, n - 1, at)
    ensures AllWhole(row, from, n, at) == if n == from then row
        else WholeMoved(AllWhole(row, from, n - 1, at), n - 1, at(n - 1))
  {
  }

  lemma WholeTargetAt(p: Policy, z: Size, base: nat, n: nat)
    requires SizeFor(p, z) && n < WORD64
    ensures WholeTarget(p, z, base)(n) == base + Slot(p, n, z)
  {
  }

  // ----------------------------------------------------------- what it leaves

  lemma {:induction false} RowItemsJoin(r: Row, s: Row)
    ensures RowItems(r + s) == RowItems(r) + RowItems(s)
  {
    if r == [] {
      assert r + s == s;
    } else {
      assert (r + s)[1..] == r[1..] + s && (r + s)[0] == r[0];
      RowItemsJoin(r[1..], s);
    }
  }

  lemma {:induction false} EmptyRow(r: Row)
    requires forall m :: 0 <= m < |r| ==> r[m] == []
    ensures RowItems(r) == multiset{}
  {
    if r != [] {
      EmptyRow(r[1..]);
    }
  }

  /** Every node is in the bucket of its hash value. */
  ghost predicate Hashed(r: Row, p: Policy, h: Hash, z: Size)
  {
    && SizeFor(p, z) && |r| == z.count
    && forall m :: 0 <= m < |r| ==> forall x <- r[m] :: h(x) < WORD64 && Slot(p, h(x), z) == m
  }

  /** Every node is in the bucket of a remainder: that of its hash value, which the smaller primes fold before. */
  ghost predicate Remainders(r: Row, p: Policy, h: Hash, z: Size)
    requires |r| == z.count
  {
    forall m :: 0 <= m < |r| ==> forall x <- r[m] ::
      m == (if p.PrimeFastMod? && z.index < SIZES_UNDER_32BIT then (h(x) % WORD32 + h(x) / WORD32) % WORD32
            else h(x)) % z.count
  }

  lemma HashedRemainders(r: Row, p: Policy, h: Hash, z: Size)
    requires Hashed(r, p, h, z)
    ensures Remainders(r, p, h, z)
  {
  }

  /** Every node of the row is where `to` says. */
  ghost predicate AllThere(row: Row, to: Target)
  {
    forall m :: 0 <= m < |row| ==> forall x <- row[m] :: to(x) == m
  }

  /** The new buckets are the part of the row that begins at `base`. */
  ghost predicate PartOf(new': Row, row: Row, base: nat)
  {
    base + |new'| <= |row| && forall m :: 0 <= m < |new'| ==> new'[m] == row[base + m]
  }

  /** When every node of the row is in its bucket, the new array holds them all. */
  lemma NewHoldsAll(row: Row, new': Row, base: nat, p: Policy, h: Hash, z: Size)
    requires SizeFor(p, z) && (forall x :: h(x) < WORD64) && |new'| == z.count && PartOf(new', row, base)
    requires AllThere(row, TargetOf(p, h, z, base))
    ensures RowItems(new') == RowItems(row)
  {
    hide RowItems, Slot, AllThere, SizeFor;
    var before, after := row[..base], row[base + |new'|..];
    assert row == before + (new' + after);
    RowItemsJoin(before, new' + after);
    RowItemsJoin(new', after);
    NothingOutside(row, base, p, h, z);
    EmptyRow(before);
    EmptyRow(after);
  }

  lemma NothingOutside(row: Row, base: nat, p: Policy, h: Hash, z: Size)
    requires SizeFor(p, z) && (forall x :: h(x) < WORD64) && base + z.count <= |row|
    requires AllThere(row, TargetOf(p, h, z, base))
    ensures forall m :: 0 <= m < |row| && (m < base || m >= base + z.count) ==> row[m] == []
  {
    forall m | 0 <= m < |row| && (m < base || m >= base + z.count) ensures row[m] == [] {
      NothingThere(row, base, p, h, z, m);
    }
  }

  lemma NothingThere(row: Row, base: nat, p: Policy, h: Hash, z: Size, m: nat)
    requires SizeFor(p, z) && (forall x :: h(x) < WORD64) && m < |row| && (m < base || m >= base + z.count)
    requires AllThere(row, TargetOf(p, h, z, base))
    ensures row[m] == []
  {
    if row[m] != [] {
      var x := row[m][0];
      assert x in row[m];
      TargetInside(p, h, z, base, x);
    }
  }

  lemma TargetInside(p: Policy, h: Hash, z: Size, base: nat, x: Item)
    requires SizeFor(p, z) && h(x) < WORD64
    ensures base <= TargetOf(p, h, z, base)(x) < base + z.count
  {
  }

  lemma NewHashed(row: Row, new': Row, base: nat, p: Policy, h: Hash, z: Size)
    requires SizeFor(p, z) && (forall x :: h(x) < WORD64) && |new'| == z.count && PartOf(new', row, base)
    requires AllThere(row, TargetOf(p, h, z, base))
    ensures Hashed(new', p, h, z)
  {
    forall m, x | 0 <= m < |new'| && x in new'[m] ensures Slot(p, h(x), z) == m {
      assert x in row[base + m];
      assert TargetOf(p, h, z, base)(x) == base + m;
    }
  }

  lemma PartGrouped(row: Row, new': Row, base: nat, eq: (Item, Item) -> bool)
    requires PartOf(new', row, base) && Grouped(row, eq)
    ensures Grouped(new', eq)
  {
    forall l, m | 0 <= l < m < |new'| ensures Unequal(new'[l], new'[m], eq) {
      assert Unequal(row[base + l], row[base + m], eq);
    }
  }

  /** Everything in the buckets from `from` to `last` goes with its bucket, and to a place outside of them. */
  ghost predicate GoesWhole(row: Row, from: nat, last: nat, at: nat -> nat, to: Target)
    requires last <= |row|
  {
    && GoesElsewhere(row, from, last, at)
    && forall b :: from <= b < last ==> (at(b) < from || at(b) >= last) && forall x <- row[b] :: to(x) == at(b)
  }

  lemma {:induction false} AllWholeItems(row: Row, from: nat, n: nat, at: nat -> nat)
    requires from <= n <= |row| && GoesElsewhere(row, from, n, at)
    ensures RowItems(AllWhole(row, from, n, at)) == RowItems(row)
    decreases n
  {
    hide *;
    AllWholeNext(row, from, n, at);
    if n > from {
      AllWholeItems(row, from, n - 1, at);
      WholeItems(AllWhole(row, from, n - 1, at), n - 1, at(n - 1));
    }
  }

  lemma {:induction false} AllWholeGrouped(row: Row, from: nat, n: nat, at: nat -> nat, eq: (Item, Item) -> bool)
    requires from <= n <= |row| && GoesElsewhere(row, from, n, at) && Grouped(row, eq) && Equivalence(eq)
    ensures Grouped(AllWhole(row, from, n, at), eq)
    decreases n
  {
    hide *;
    AllWholeNext(row, from, n, at);
    if n > from {
      AllWholeGrouped(row, from, n - 1, at, eq);
      WholeGrouped(AllWhole(row, from, n - 1, at), n - 1, at(n - 1), eq);
    }
  }

  /** Moving whole buckets puts every node where looking at each of them would. */
  lemma {:induction false} AllWholeDone(row: Row, from: nat, n: nat, last: nat, at: nat -> nat, to: Target)
    requires from <= n <= last <= |row| && DoneUpTo(row, from, last, to)
    requires GoesWhole(row, from, last, at, to) && GoesElsewhere(row, from, n, at)
    ensures DoneUpTo(AllWhole(row, from, n, at), n, last, to)
    ensures forall b :: n <= b < last ==> AllWhole(row, from, n, at)[b] == row[b]
    decreases n
  {
    if n > from {
      AllWholeDone(row, from, n - 1, last, at, to);
      WholeDone(AllWhole(row, from, n - 1, at), n - 1, at(n - 1), last, to);
    }
  }

  // ------------------------------------------------------------------ start

  /** The old buckets before `cache` are empty, and the new ones have been initialised. */
  ghost predicate Begins(row: Row, ac: nat, cache: nat)
  {
    cache <= ac <= |row| && forall m :: 0 <= m < |row| && (m < cache || m >= ac) ==> row[m] == []
  }

  lemma BeginsDone(row: Row, ac: nat, cache: nat, p: Policy, h: Hash, z: Size, base: nat)
    requires Begins(row, ac, cache) && SizeFor(p, z) && (forall x :: h(x) < WORD64) && base + z.count <= |row|
    ensures DoneUpTo(row, cache, ac, TargetOf(p, h, z, base)) && EmptyBelow(row, cache, ac, base, z.count)
  {
    forall m, x | 0 <= m < |row| && x in row[m] ensures TargetOf(p, h, z, base)(x) < |row| {
      TargetInside(p, h, z, base, x);
    }
  }

  lemma SlotOfSmall(p: Policy, n: nat, z: Size)
    requires SizeFor(p, z) && n < z.count && n < WORD64
    ensures Slot(p, n, z) == n
  {
    match p
    case Modulo => QuotientIs(n, z.count, 0, n);
    case PowerOfTwo =>
      MaskIsRemainder(n, z.count);
      QuotientIs(n, z.count, 0, n);
    case PrimeFastMod => PositionOfSmall(n, z.index);
  }

  lemma PositionOfSmall(n: nat, i: nat)
    requires i < SIZES && n < PrimeList(i) && n < WORD64
    ensures Position(n, i) == n
  {
    hide PrimeList;
    QuotientIs(n, PrimeList(i), 0, n);
    if i < SIZES_UNDER_32BIT {
      QuotientIs(n, WORD32, 0, n);
    }
  }

  /** Old nodes, by their old bucket number. */
  lemma OldSlotTells(row: Row, ac: nat, p: Policy, h: Hash, z: Size, z': Size, base: nat, b: nat, x: Item)
    requires SizeFor(p, z) && SizeFor(p, z') && h(x) < WORD64 && z.count <= WORD64 && FastShrink(p, z, z')
    requires z.count <= |row| && Hashed(row[..z.count], p, h, z) && b < z.count && x in row[b]
    ensures TargetOf(p, h, z', base)(x) == WholeTarget(p, z', base)(b)
  {
    assert x in row[..z.count][b];
    FastShrinkAgrees(p, h(x), z, z');
  }

  /** The last buckets of an array that shrinks in place: those that stay need not be looked at. */
  lemma BeginsInPlace(row: Row, cache: nat, p: Policy, h: Hash, z: Size, z': Size)
    requires SizeFor(p, z) && SizeFor(p, z') && (forall x :: h(x) < WORD64) && z.count <= WORD64 && FastShrink(p, z, z')
    requires |row| == z.count && Begins(row, z.count, cache) && Hashed(row, p, h, z)
    ensures DoneUpTo(row, z'.count, z.count, TargetOf(p, h, z', 0)) && EmptyBelow(row, z'.count, z.count, 0, cache)
  {
    assert row[..z.count] == row;
    forall m, x | 0 <= m < |row| && x in row[m]
      ensures TargetOf(p, h, z', 0)(x) < |row| && (m < z'.count ==> TargetOf(p, h, z', 0)(x) == m)
    {
      TargetInside(p, h, z', 0, x);
      OldSlotTells(row, z.count, p, h, z, z', 0, m, x);
      if m < z'.count {
        SlotOfSmall(p, m, z');
      }
    }
  }

  lemma BeginsWhole(row: Row, start: nat, p: Policy, h: Hash, z: Size, z': Size, base: nat)
    requires SizeFor(p, z) && SizeFor(p, z') && (forall x :: h(x) < WORD64) && z.count <= WORD64 && FastShrink(p, z, z')
    requires z.count <= |row| && Hashed(row[..z.count], p, h, z)
    requires base + z'.count <= |row| && (base >= z.count || base + z'.count <= start)
    ensures GoesWhole(row, start, z.count, WholeTarget(p, z', base), TargetOf(p, h, z', base))
  {
    var at, to := WholeTarget(p, z', base), TargetOf(p, h, z', base);
    forall b | start <= b < z.count
      ensures at(b) < |row| && at(b) != b && (at(b) < start || at(b) >= z.count) && forall x <- row[b] :: to(x) == at(b)
    {
      WholeTargetAt(p, z', base, b);
      forall x | x in row[b] ensures to(x) == at(b) {
        OldSlotTells(row, z.count, p, h, z, z', base, b, x);
      }
    }
  }

  // ------------------------------------------------------------------- whole

  /** What a rehash leaves: the nodes of `was`, each in the bucket of its hash value, equal nodes together as before. */
  ghost predicate Rehashed(now: Row, was: Row, p: Policy, h: Hash, z: Size, eq: (Item, Item) -> bool)
  {
    && Hashed(now, p, h, z) && RowItems(now) == RowItems(was)
    && (HashRespects(h, eq) && Grouped(was, eq) ==> Grouped(now, eq))
  }

  lemma RehashedParts(now: Row, was: Row, p: Policy, h: Hash, z: Size, eq: (Item, Item) -> bool)
    requires Rehashed(now, was, p, h, z, eq)
    ensures Hashed(now, p, h, z) && RowItems(now) == RowItems(was) && |now| == z.count && Remainders(now, p, h, z)
  {
    hide RowItems, Grouped;
    HashedRemainders(now, p, h, z);
  }

  /** Equal nodes have equal hash values. */
  ghost predicate HashRespects(h: Hash, eq: (Item, Item) -> bool)
  {
    Equivalence(eq) && forall x, y :: eq(x, y) ==> h(x) == h(y)
  }

  /** The row holds what the old array held, and otherwise only empty buckets. */
  lemma RowStarts(was: Row, row: Row, ac: nat, eq: (Item, Item) -> bool)
    requires ac <= |row| && row[..ac] == was && forall m :: ac <= m < |row| ==> row[m] == []
    ensures RowItems(row) == RowItems(was) && (Grouped(was, eq) ==> Grouped(row, eq))
  {
    assert row == was + row[ac..];
    RowItemsJoin(was, row[ac..]);
    EmptyRow(row[ac..]);
    assert forall m :: 0 <= m < ac ==> row[m] == was[m];
  }

  lemma SameTarget(p: Policy, h: Hash, z: Size, base: nat, eq: (Item, Item) -> bool)
    requires HashRespects(h, eq)
    ensures Respects(TargetOf(p, h, z, base), eq)
  {
  }

  lemma Finish(row: Row, last: nat, new': Row, base: nat, p: Policy, h: Hash, z: Size, was: Row,
               eq: (Item, Item) -> bool)
    requires SizeFor(p, z) && (forall x :: h(x) < WORD64) && |new'| == z.count && PartOf(new', row, base)
    requires DoneUpTo(row, last, last, TargetOf(p, h, z, base)) && RowItems(row) == RowItems(was)
    requires HashRespects(h, eq) && Grouped(was, eq) ==> Grouped(row, eq)
    ensures Rehashed(new', was, p, h, z, eq)
  {
    NewHoldsAll(row, new', base, p, h, z);
    NewHashed(row, new', base, p, h, z);
    if Grouped(row, eq) {
      PartGrouped(row, new', base, eq);
    }
  }

  lemma NodesDone(row: Row, start: nat, ac: nat, base: nat, p: Policy, h: Hash, z: Size, was: Row,
                  eq: (Item, Item) -> bool)
    requires start <= ac <= |row| && DoneUpTo(row, start, ac, TargetOf(p, h, z, base)) && RowItems(row) == RowItems(was)
    requires Grouped(was, eq) ==> Grouped(row, eq)
    ensures var r := AllDealt(row, start, ac, TargetOf(p, h, z, base));
      && DoneUpTo(r, ac, ac, TargetOf(p, h, z, base)) && RowItems(r) == RowItems(was)
      && (HashRespects(h, eq) && Grouped(was, eq) ==> Grouped(r, eq))
  {
    var to := TargetOf(p, h, z, base);
    AllDealtDone(row, start, ac, ac, to);
    if HashRespects(h, eq) && Grouped(was, eq) {
      SameTarget(p, h, z, base, eq);
      AllDealtGrouped(row, start, ac, to, eq);
    }
  }

  lemma WholesDone(row: Row, start: nat, ac: nat, base: nat, p: Policy, h: Hash, z: Size, was: Row,
                   eq: (Item, Item) -> bool)
    requires start <= ac <= |row| && DoneUpTo(row, start, ac, TargetOf(p, h, z, base)) && RowItems(row) == RowItems(was)
    requires Grouped(was, eq) ==> Grouped(row, eq)
    requires GoesWhole(row, start, ac, WholeTarget(p, z, base), TargetOf(p, h, z, base))
    ensures var r := AllWhole(row, start, ac, WholeTarget(p, z, base));
      && DoneUpTo(r, ac, ac, TargetOf(p, h, z, base)) && RowItems(r) == RowItems(was)
      && (HashRespects(h, eq) && Grouped(was, eq) ==> Grouped(r, eq))
  {
    var to, at := TargetOf(p, h, z, base), WholeTarget(p, z, base);
    AllWholeDone(row, start, ac, ac, at, to);
    AllWholeItems(row, start, ac, at);
    if HashRespects(h, eq) && Grouped(was, eq) {
      AllWholeGrouped(row, start, ac, at, eq);
    }
  }

  /** The new array is the part of the row from its base on. */
  lemma NewPart(a: array<Chain>, ac: nat, b: array<Chain>, bc: nat)
    requires ac <= a.Length && bc <= b.Length
    ensures var row := RowOf(a, ac, b, bc);
      && Base(a, ac, b) + bc <= |row| && ac <= |row| && row[..ac] == a[..ac] && PartOf(b[..bc], row, Base(a, ac, b))
      && (a == b ==> |row| == if ac > bc then ac else bc)
  {
  }

  lemma EmptyPart(row: Row, new': Row, base: nat, last: nat, first: nat)
    requires PartOf(new', row, base) && EmptyBelow(row, last, last, base, first) && first <= |new'|
    ensures forall m :: 0 <= m < first ==> new'[m] == []
  {
  }

  /** The table before a rehash: the buckets before `cache` are empty. */
  ghost predicate Prepared(a: array<Chain>, z: Size, cache: nat, b: array<Chain>, z': Size, p: Policy)
    reads a
  {
    && SizeFor(p, z) && SizeFor(p, z') && z.count <= a.Length && z'.count <= b.Length && z.count <= WORD64
    && cache <= z.count && forall m :: 0 <= m < cache ==> a[m] == []
  }

  /** Empties the new buckets, so that they and the old ones make a row. */
  method BeginRow(a: array<Chain>, z: Size, cache: nat, b: array<Chain>, z': Size, p: Policy, full: bool,
                  ghost eq: (Item, Item) -> bool)
    requires Prepared(a, z, cache, b, z', p) && (full ==> a == b && z == z')
    modifies b
    ensures Prepared(a, z, cache, b, z', p)
    ensures var row := RowOf(a, z.count, b, z'.count);
      && Begins(row, z.count, cache) && row[..z.count] == old(a[..z.count]) && RowItems(row) == RowItems(row[..z.count])
      && (Grouped(row[..z.count], eq) ==> Grouped(row, eq))
  {
    if !full {
      InitializeNewBuckets(a, z.count, b, z'.count);
    }
    assert a[..z.count] == old(a[..z.count]);
    RowStarts(a[..z.count], RowOf(a, z.count, b, z'.count), z.count, eq);
  }

  /** Every node by its hash value. */
  method RehashByNode(a: array<Chain>, z: Size, cache: nat, b: array<Chain>, z': Size, p: Policy, h: Hash,
                      ghost row: Row,
                      ghost was: Row, ghost eq: (Item, Item) -> bool) returns (first: nat)
    requires Prepared(a, z, cache, b, z', p) && row == RowOf(a, z.count, b, z'.count) && Begins(row, z.count, cache)
    requires (forall x :: h(x) < WORD64) && RowItems(row) == RowItems(was) && (Grouped(was, eq) ==> Grouped(row, eq))
    modifies a, b
    ensures Rehashed(b[..z'.count], was, p, h, z', eq) && first <= z'.count && forall m ::
        0 <= m < first ==> b[..z'.count][m] == []
    ensures first == z'.count || b[first] != []
  {
    ghost var base := Base(a, z.count, b);
    NewPart(a, z.count, b, z'.count);
    BeginsDone(row, z.count, cache, p, h, z', base);
    NodesDone(row, cache, z.count, base, p, h, z', was, eq);
    first := RehashNodes(a, z.count, b, cache, z'.count, p, z', h, row);
    NewPart(a, z.count, b, z'.count);
    Finish(RowOf(a, z.count, b, z'.count), z.count, b[..z'.count], base, p, h, z', was, eq);
    EmptyPart(RowOf(a, z.count, b, z'.count), b[..z'.count], base, z.count, first);
    if first != z'.count {
      ItemThere(b[..z'.count], p, h, z', row, first);
    }
  }

  /** Bucket by bucket, when the hash values need not be looked at. */
  method RehashByBucket(a: array<Chain>, z: Size, start: nat, first: nat, b: array<Chain>, z': Size, p: Policy,
                        ghost h: Hash,
                        ghost row: Row, ghost was: Row, ghost eq: (Item, Item) -> bool) returns (first': nat)
    requires Prepared(a, z, 0, b, z', p) && row == RowOf(a, z.count, b, z'.count) && start <= z.count
        && FastShrink(p, z, z')
    requires row[..z.count] == was && Hashed(was, p, h, z) && (a == b ==> z'.count <= start)
    requires DoneUpTo(row, start, z.count, TargetOf(p, h, z', Base(a, z.count, b)))
    requires EmptyBelow(row, start, z.count, Base(a, z.count, b), first) && first <= z'.count
    requires (forall x :: h(x) < WORD64) && RowItems(row) == RowItems(was) && (Grouped(was, eq) ==> Grouped(row, eq))
    modifies a, b
    ensures Rehashed(b[..z'.count], was, p, h, z', eq) && first' <= z'.count && forall m ::
        0 <= m < first' ==> b[..z'.count][m] == []
    ensures LeastFrom(first', first, start, z.count, p, z')
  {
    ghost var base := Base(a, z.count, b);
    NewPart(a, z.count, b, z'.count);
    BeginsWhole(row, start, p, h, z, z', base);
    WholesDone(row, start, z.count, base, p, h, z', was, eq);
    first' := RehashWhole(a, z.count, b, start, first, p, z', row);
    NewPart(a, z.count, b, z'.count);
    Finish(RowOf(a, z.count, b, z'.count), z.count, b[..z'.count], base, p, h, z', was, eq);
    EmptyPart(RowOf(a, z.count, b, z'.count), b[..z'.count], base, z.count, first');
  }

  /** Between the two arrays, or within the one. */
  method RehashBuckets(a: array<Chain>, z: Size, cache: nat, b: array<Chain>, z': Size, p: Policy, h: Hash, full: bool,
                       ghost eq: (Item, Item) -> bool) returns (first: nat)
    requires Prepared(a, z, cache, b, z', p) && forall x :: h(x) < WORD64
    requires if full then a == b && z == z' else Hashed(a[..z.count], p, h, z)
    modifies a, b
    ensures Rehashed(b[..z'.count], old(a[..z.count]), p, h, z', eq)
    ensures first <= z'.count && forall m :: 0 <= m < first ==> b[..z'.count][m] == []
    ensures full || !FastShrink(p, z, z') ==> first == z'.count || b[first] != []
    ensures !full && FastShrink(p, z, z') ==> LeastWhole(first, a == b, cache, z.count, p, z')
  {
    var sameBuffer := a == b;
    var fastShrink := !full && FastShrink(p, z, z');
    var start := cache;
    first := z'.count;
    if sameBuffer && fastShrink && start < z'.count {
      first, start := start, z'.count;
    }
    ghost var was := a[..z.count];
    BeginRow(a, z, cache, b, z', p, full, eq);
    ghost var row := RowOf(a, z.count, b, z'.count);
    assert row[..z.count] == was;
    if !fastShrink {
      first := RehashByNode(a, z, start, b, z', p, h, row, was, eq);
    } else {
      FastBegins(a, z, cache, b, z', p, h, row);
      first := RehashByBucket(a, z, start, first, b, z', p, h, row, was, eq);
    }
  }

  /** Where moving whole buckets begins. */
  lemma FastBegins(a: array<Chain>, z: Size, cache: nat, b: array<Chain>, z': Size, p: Policy, h: Hash, row: Row)
    requires Prepared(a, z, cache, b, z', p) && (forall x :: h(x) < WORD64) && FastShrink(p, z, z')
    requires row == RowOf(a, z.count, b, z'.count) && Begins(row, z.count, cache) && Hashed(row[..z.count], p, h, z)
    ensures var base, inPlace := Base(a, z.count, b), a == b && cache < z'.count;
      var start, first := if inPlace then z'.count else cache, if inPlace then cache else z'.count;
      DoneUpTo(row, start, z.count, TargetOf(p, h, z', base)) && EmptyBelow(row, start, z.count, base, first)
  {
    NewPart(a, z.count, b, z'.count);
    if a == b && cache < z'.count {
      assert row[..z.count] == row;
      BeginsInPlace(row, cache, p, h, z, z');
    } else {
      BeginsDone(row, z.count, cache, p, h, z', Base(a, z.count, b));
    }
  }

  class HashTable {
    const policy: Policy
    var buckets: array<Chain>
    var sizing: Size
    var size: nat
    /** No bucket before this one holds anything. */
    var cache: nat

    ghost predicate Ready()
      reads this, buckets
    {
      Prepared(buckets, sizing, cache, buckets, sizing, policy)
    }

    ghost function Contents(): Row
      requires Ready()
      reads this, buckets
    {
      buckets[..sizing.count]
    }

    /** Every node can be found. */
    ghost predicate Valid(h: Hash)
      reads this, buckets
    {
      Ready() && Hashed(Contents(), policy, h, sizing) && size == |RowItems(Contents())|
    }

    /**
     Puts the nodes into the new buckets; a full rehash keeps the buckets, but takes nothing to be where it belongs.
     */
    method RehashImpl(newBuckets: array<Chain>, newSize: Size, h: Hash, full: bool, ghost eq: (Item, Item) -> bool)
      requires Ready() && SizeFor(policy, newSize) && newSize.count <= newBuckets.Length && newSize.count <= WORD64
      requires forall x :: h(x) < WORD64
      requires size == |RowItems(Contents())|
      requires if full then newBuckets == buckets && newSize == sizing else Valid(h)
      modifies this, buckets, newBuckets
      ensures Valid(h) && buckets == newBuckets && sizing == newSize && size == old(size)
      ensures Rehashed(Contents(), old(Contents()), policy, h, newSize, eq)
      ensures Remainders(Contents(), policy, h, newSize)
      ensures full || !FastShrink(policy, old(sizing), newSize) ==> cache == newSize.count || Contents()[cache] != []
      ensures !full && FastShrink(policy, old(sizing), newSize) ==>
        LeastWhole(cache, newBuckets == old(buckets), old(cache), old(sizing.count), policy, newSize)
    {
      hide Rehashed, Remainders, LeastWhole, FastShrink, Hashed, Slot, RowItems, IsPow2;
      var backup := size;
      size := 0;
      var first := RehashBuckets(buckets, sizing, cache, newBuckets, newSize, policy, h, full, eq);
      size := backup;
      buckets, sizing, cache := newBuckets, newSize, first;
      RehashedParts(Contents(), old(Contents()), policy, h, newSize, eq);
    }
  }
}

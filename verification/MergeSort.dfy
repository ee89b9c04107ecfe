/**
 Merging and sorting of lists as values: a binary counter of sorted lists, the older elements in the higher slots.
 */
module MergeSort {
  import opened Ordering
  import opened CircularList
  import opened Division
  import opened Sequences

  ghost predicate Sorted(s: seq<Node>, p: Comparator)
  {
    forall i, j :: 0 <= i < j < |s| ==> !p(s[j].key, s[i].key)
  }

  /** The elements equivalent to a key, in order. */
  ghost function Alike(s: seq<Node>, k: Key, p: Comparator): seq<Node>
  {
    if s == [] then [] else (if p(s[0].key, k) || p(k, s[0].key) then [] else [s[0]]) + Alike(s[1..], k, p)
  }

  /** The same nodes, equivalent ones in the order they had. */
  ghost predicate Stable(t: seq<Node>, s: seq<Node>, p: Comparator)
  {
    multiset(t) == multiset(s) && forall k :: Alike(t, k, p) == Alike(s, k, p)
  }

  /** Elements of `b` go in front of those of `a` they are less than. */
  ghost function Merge(a: seq<Node>, b: seq<Node>, p: Comparator): seq<Node>
    decreases |a| + |b|
  {
    if a == [] then b
    else if b == [] then a
    else if p(b[0].key, a[0].key) then [b[0]] + Merge(a, b[1..], p)
    else [a[0]] + Merge(a[1..], b, p)
  }

  lemma {:induction false} AlikeJoin(a: seq<Node>, b: seq<Node>, k: Key, p: Comparator)
    ensures Alike(a + b, k, p) == Alike(a, k, p) + Alike(b, k, p)
  {
    if a == [] {
      assert a + b == b;
    } else {
      assert (a + b)[1..] == a[1..] + b && (a + b)[0] == a[0];
      AlikeJoin(a[1..], b, k, p);
      var first := if p(a[0].key, k) || p(k, a[0].key) then [] else [a[0]];
      assert first + (Alike(a[1..], k, p) + Alike(b, k, p)) == (first + Alike(a[1..], k, p)) + Alike(b, k, p);
    }
  }

  lemma {:induction false} NoneAlike(a: seq<Node>, k: Key, p: Comparator)
    requires forall i :: 0 <= i < |a| ==> p(k, a[i].key)
    ensures Alike(a, k, p) == []
  {
    if a != [] {
      NoneAlike(a[1..], k, p);
    }
  }

  lemma {:induction false} MergeItems(a: seq<Node>, b: seq<Node>, p: Comparator)
    ensures multiset(Merge(a, b, p)) == multiset(a) + multiset(b)
    decreases |a| + |b|
  {
    if a != [] && b != [] {
      assert a == [a[0]] + a[1..] && b == [b[0]] + b[1..];
      if p(b[0].key, a[0].key) {
        MergeItems(a, b[1..], p);
      } else {
        MergeItems(a[1..], b, p);
      }
    }
  }

  lemma MergeIn(a: seq<Node>, b: seq<Node>, p: Comparator)
    ensures |Merge(a, b, p)| == |a| + |b|
    ensures forall n <- Merge(a, b, p) :: n in a || n in b
  {
    MergeItems(a, b, p);
    forall n | n in Merge(a, b, p) ensures n in a || n in b {
      assert n in multiset(Merge(a, b, p));
    }
    assert |multiset(Merge(a, b, p))| == |multiset(a)| + |multiset(b)|;
  }

  lemma SortedTail(s: seq<Node>, p: Comparator)
    requires Sorted(s, p) && s != []
    ensures Sorted(s[1..], p)
  {
  }

  lemma {:induction false} MergeSorted(a: seq<Node>, b: seq<Node>, p: Comparator)
    requires Sorted(a, p) && Sorted(b, p) && StrictWeakOrder(p)
    ensures Sorted(Merge(a, b, p), p)
    decreases |a| + |b|
  {
    if a != [] && b != [] {
      if p(b[0].key, a[0].key) {
        MergeSorted(a, b[1..], p);
        HeadFirst(b[0], a, b[1..], p);
      } else {
        MergeSorted(a[1..], b, p);
        HeadFirst(a[0], a[1..], b, p);
      }
    }
  }

  /** What precedes two lists precedes what they merge to. */
  lemma HeadFirst(n: Node, a: seq<Node>, b: seq<Node>, p: Comparator)
    requires Sorted(Merge(a, b, p), p)
    requires forall i :: 0 <= i < |a| ==> !p(a[i].key, n.key)
    requires forall i :: 0 <= i < |b| ==> !p(b[i].key, n.key)
    ensures Sorted([n] + Merge(a, b, p), p)
  {
    var m := Merge(a, b, p);
    MergeIn(a, b, p);
    forall i | 0 <= i < |m| ensures !p(m[i].key, n.key) {
      assert m[i] in m;
    }
  }

  lemma AlikeHead(n: Node, s: seq<Node>, k: Key, p: Comparator)
    ensures Alike([n] + s, k, p) == AlikeOne(n, k, p) + Alike(s, k, p)
  {
    assert ([n] + s)[1..] == s;
  }

  /** Nothing in a sorted list is equivalent to what is less than its first element. */
  lemma NoneAlikeBelow(n: Node, a: seq<Node>, k: Key, p: Comparator)
    requires Sorted(a, p) && StrictWeakOrder(p) && a != [] && p(n.key, a[0].key) && !p(n.key, k) && !p(k, n.key)
    ensures Alike(a, k, p) == []
  {
    forall i | 0 <= i < |a| ensures p(k, a[i].key) {
    }
    NoneAlike(a, k, p);
  }

  ghost function AlikeOne(n: Node, k: Key, p: Comparator): seq<Node>
  {
    if p(n.key, k) || p(k, n.key) then [] else [n]
  }

  lemma MergeHead(a: seq<Node>, b: seq<Node>, p: Comparator)
    requires a != [] && b != []
    ensures Merge(a, b, p) == if p(b[0].key, a[0].key) then [b[0]] + Merge(a, b[1..], p)
        else [a[0]] + Merge(a[1..], b, p)
    ensures a == [a[0]] + a[1..] && b == [b[0]] + b[1..]
  {
  }

  lemma EitherFirst(h: seq<Node>, x: seq<Node>, y: seq<Node>)
    requires h == [] || x == []
    ensures h + (x + y) == x + (h + y)
  {
  }

  lemma MergeNothing(a: seq<Node>, b: seq<Node>, k: Key, p: Comparator)
    requires a == [] || b == []
    ensures Alike(Merge(a, b, p), k, p) == Alike(a, k, p) + Alike(b, k, p)
  {
  }

  /** Equivalent elements of the first list come before those of the second. */
  lemma {:induction false} MergeStable(a: seq<Node>, b: seq<Node>, k: Key, p: Comparator)
    requires Sorted(a, p) && Sorted(b, p) && StrictWeakOrder(p)
    ensures Alike(Merge(a, b, p), k, p) == Alike(a, k, p) + Alike(b, k, p)
    decreases |a| + |b|
  {
    if a == [] || b == [] {
      MergeNothing(a, b, k, p);
      return;
    }
    hide Alike, Sorted, StrictWeakOrder, Merge;
    MergeHead(a, b, p);
    if p(b[0].key, a[0].key) {
      SortedTail(b, p);
      MergeStable(a, b[1..], k, p);
      AlikeHead(b[0], Merge(a, b[1..], p), k, p);
      AlikeHead(b[0], b[1..], k, p);
      if !p(b[0].key, k) && !p(k, b[0].key) {
        NoneAlikeBelow(b[0], a, k, p);
      }
      EitherFirst(AlikeOne(b[0], k, p), Alike(a, k, p), Alike(b[1..], k, p));
    } else {
      SortedTail(a, p);
      MergeStable(a[1..], b, k, p);
      AlikeHead(a[0], Merge(a[1..], b, p), k, p);
      AlikeHead(a[0], a[1..], k, p);
      Regroup(AlikeOne(a[0], k, p), Alike(a[1..], k, p), Alike(b, k, p));
    }
  }

  /** Merging two sorted lists comes to sorting the one followed by the other. */
  lemma StableMerge(a: seq<Node>, b: seq<Node>, p: Comparator)
    requires Sorted(a, p) && Sorted(b, p) && StrictWeakOrder(p)
    ensures Stable(Merge(a, b, p), a + b, p)
  {
    MergeItems(a, b, p);
    forall k ensures Alike(Merge(a, b, p), k, p) == Alike(a + b, k, p) {
      MergeStable(a, b, k, p);
      AlikeJoin(a, b, k, p);
    }
  }

  lemma StableJoin(t: seq<Node>, s: seq<Node>, t': seq<Node>, s': seq<Node>, p: Comparator)
    requires Stable(t, s, p) && Stable(t', s', p)
    ensures Stable(t + t', s + s', p)
  {
    forall k ensures Alike(t + t', k, p) == Alike(s + s', k, p) {
      AlikeJoin(t, t', k, p);
      AlikeJoin(s, s', k, p);
    }
  }

  lemma StableThen(t: seq<Node>, s: seq<Node>, r: seq<Node>, p: Comparator)
    requires Stable(t, s, p) && Stable(s, r, p)
    ensures Stable(t, r, p)
  {
  }

  // ------------------------------------------------------------- the counter

  type Slots = seq<seq<Node>>

  /** A list is carried into slot `i`: what is there is merged with it and carried on. */
  ghost function CarryIn(cs: Slots, carry: seq<Node>, i: nat, p: Comparator): Slots
    requires i <= |cs|
    decreases |cs| - i
  {
    if i < |cs| && cs[i] != [] then CarryIn(cs[i := []], Merge(cs[i], carry, p), i + 1, p)
    else if i == |cs| then cs + [carry]
    else cs[i := carry]
  }

  /** The slots when the first `k` elements have been taken from the list. */
  ghost function Counted(s: seq<Node>, k: nat, p: Comparator): Slots
    requires k <= |s|
  {
    if k == 0 then [] else CarryIn(Counted(s, k - 1, p), [s[k - 1]], 0, p)
  }

  /** All slots up to `j` merged into one. */
  ghost function Collapsed(cs: Slots, j: nat, p: Comparator): seq<Node>
    requires j < |cs|
  {
    if j == 0 then cs[0] else Merge(cs[j], Collapsed(cs, j - 1, p), p)
  }

  /** A slot is empty or holds exactly `2^i` elements; the last one is in use. */
  ghost predicate Binary(cs: Slots)
  {
    (forall i :: 0 <= i < |cs| ==> cs[i] == [] || |cs[i]| == Pow2(i)) && (cs != [] ==> cs[|cs| - 1] != [])
  }

  /** The number of elements in all slots. */
  ghost function Total(cs: Slots): nat
  {
    if cs == [] then 0 else Total(cs[..|cs| - 1]) + |cs[|cs| - 1]|
  }

  lemma {:induction false} TotalUpdate(cs: Slots, i: nat, c: seq<Node>)
    requires i < |cs|
    ensures Total(cs[i := c]) + |cs[i]| == Total(cs) + |c|
  {
    var n := |cs| - 1;
    if i == n {
      assert cs[i := c][..n] == cs[..n];
    } else {
      assert cs[i := c][..n] == cs[..n][i := c];
      TotalUpdate(cs[..n], i, c);
    }
  }

  lemma CarryBinary(cs: Slots, carry: seq<Node>, i: nat, p: Comparator)
    requires i <= |cs| && |carry| == Pow2(i) && (forall j :: 0 <= j < |cs| ==> cs[j] == [] || |cs[j]| == Pow2(j))
    requires i < |cs| ==> cs[|cs| - 1] != []
    ensures Binary(CarryIn(cs, carry, i, p)) && Total(CarryIn(cs, carry, i, p)) == Total(cs) + |carry|
    ensures |cs| <= |CarryIn(cs, carry, i, p)| <= |cs| + 1
    decreases |cs| - i
  {
    if i < |cs| && cs[i] != [] {
      hide Merge, Total;
      MergeIn(cs[i], carry, p);
      TotalUpdate(cs, i, []);
      CarryBinary(cs[i := []], Merge(cs[i], carry, p), i + 1, p);
    } else if i == |cs| {
      assert (cs + [carry])[..|cs|] == cs;
    } else {
      TotalUpdate(cs, i, carry);
    }
  }

  /** The slots in use are no more than the number of elements has binary digits. */
  lemma {:induction false} CountedBinary(s: seq<Node>, k: nat, p: Comparator)
    requires k <= |s|
    ensures Binary(Counted(s, k, p)) && Total(Counted(s, k, p)) == k
    ensures Counted(s, k, p) != [] ==> Pow2(|Counted(s, k, p)| - 1) <= k
    decreases k
  {
    hide Merge, CarryIn, Pow2;
    if k > 0 {
      CountedBinary(s, k - 1, p);
      OneBinary(Counted(s, k - 1, p), s[k - 1], p);
    }
    if Counted(s, k, p) != [] {
      LastSlot(Counted(s, k, p));
    }
  }

  lemma OneBinary(cs: Slots, n: Node, p: Comparator)
    requires Binary(cs)
    ensures Binary(CarryIn(cs, [n], 0, p)) && Total(CarryIn(cs, [n], 0, p)) == Total(cs) + 1
  {
    CarryBinary(cs, [n], 0, p);
  }

  lemma LastSlot(cs: Slots)
    requires Binary(cs) && cs != []
    ensures Pow2(|cs| - 1) <= Total(cs)
  {
  }

  lemma {:induction false} Pow2Grows(a: nat, b: nat)
    requires a <= b
    ensures Pow2(a) <= Pow2(b)
  {
    if a < b {
      Pow2Grows(a, b - 1);
    }
  }

  /** Sixty-four slots are enough. */
  lemma SlotsSuffice(s: seq<Node>, k: nat, p: Comparator)
    requires k <= |s| && k < Pow2(64)
    ensures |Counted(s, k, p)| <= 64
  {
    CountedBinary(s, k, p);
    var n := |Counted(s, k, p)|;
    if n > 64 {
      Pow2Grows(64, n - 1);
    }
  }

  // --------------------------------------------------- what the slots amount to

  /** The elements of all slots, those of higher slots first. */
  ghost function Older(cs: Slots): seq<Node>
  {
    if cs == [] then [] else cs[|cs| - 1] + Older(cs[..|cs| - 1])
  }

  ghost predicate EmptyBefore(cs: Slots, i: nat)
  {
    forall j :: 0 <= j < i && j < |cs| ==> cs[j] == []
  }

  ghost predicate AllSorted(cs: Slots, p: Comparator)
  {
    forall i :: 0 <= i < |cs| ==> Sorted(cs[i], p)
  }

  lemma {:induction false} OlderEmpty(cs: Slots)
    requires EmptyBefore(cs, |cs|)
    ensures Older(cs) == []
  {
    if cs != [] {
      OlderEmpty(cs[..|cs| - 1]);
    }
  }

  /** The first slot in use holds the last elements. */
  lemma {:induction false} OlderSet(cs: Slots, i: nat, c: seq<Node>)
    requires i < |cs| && EmptyBefore(cs, i)
    ensures Older(cs[i := c]) == Older(cs[i := []]) + c
  {
    var n := |cs| - 1;
    if i == n {
      assert cs[i := c][..n] == cs[..n] && cs[i := []][..n] == cs[..n];
      OlderEmpty(cs[..n]);
    } else {
      assert cs[i := c][..n] == cs[..n][i := c] && cs[i := []][..n] == cs[..n][i := []];
      OlderSet(cs[..n], i, c);
      assert cs[n] + (Older(cs[..n][i := []]) + c) == (cs[n] + Older(cs[..n][i := []])) + c;
    }
  }

  /** Carrying a list in adds its elements after those that were there. */
  lemma {:induction false} CarryStable(cs: Slots, carry: seq<Node>, i: nat, p: Comparator)
    requires i <= |cs| && EmptyBefore(cs, i) && AllSorted(cs, p) && Sorted(carry, p) && StrictWeakOrder(p)
    ensures AllSorted(CarryIn(cs, carry, i, p), p) && Stable(Older(CarryIn(cs, carry, i, p)), Older(cs) + carry, p)
    decreases |cs| - i, 1
  {
    if i < |cs| && cs[i] != [] {
      CarryOn(cs, carry, i, p);
    } else if i == |cs| {
      OlderEmpty(cs);
      assert (cs + [carry])[..|cs|] == cs && Older(cs + [carry]) == carry + [] && [] + carry == carry + [];
    } else {
      assert cs[i := []] == cs;
      OlderSet(cs, i, carry);
    }
  }

  lemma CarryOn(cs: Slots, carry: seq<Node>, i: nat, p: Comparator)
    requires i < |cs| && cs[i] != [] && EmptyBefore(cs, i) && AllSorted(cs, p) && Sorted(carry, p) && StrictWeakOrder(p)
    ensures AllSorted(CarryIn(cs, carry, i, p), p) && Stable(Older(CarryIn(cs, carry, i, p)), Older(cs) + carry, p)
    decreases |cs| - i, 0
  {
    hide *;
    var rest, m := cs[i := []], Merge(cs[i], carry, p);
    SlotEmptied(cs, carry, i, p);
    MergeSorted(cs[i], carry, p);
    CarryStable(rest, m, i + 1, p);
    StableMerge(cs[i], carry, p);
    StableSelf(Older(rest), p);
    StableJoin(Older(rest), Older(rest), m, cs[i] + carry, p);
    assert cs[i := cs[i]] == cs;
    OlderSet(cs, i, cs[i]);
    assert Older(rest) + (cs[i] + carry) == Older(cs) + carry;
    StableThen(Older(CarryIn(cs, carry, i, p)), Older(rest) + m, Older(cs) + carry, p);
  }

  lemma SlotEmptied(cs: Slots, carry: seq<Node>, i: nat, p: Comparator)
    requires i < |cs| && cs[i] != [] && EmptyBefore(cs, i) && AllSorted(cs, p)
    ensures Sorted(cs[i], p) && EmptyBefore(cs[i := []], i + 1) && AllSorted(cs[i := []], p)
    ensures CarryIn(cs, carry, i, p) == CarryIn(cs[i := []], Merge(cs[i], carry, p), i + 1, p)
  {
  }

  lemma StableSelf(s: seq<Node>, p: Comparator)
    ensures Stable(s, s, p)
  {
  }

  lemma CountedFirst(s: seq<Node>, p: Comparator)
    ensures AllSorted(Counted(s, 0, p), p) && Stable(Older(Counted(s, 0, p)), s[..0], p)
  {
  }

  lemma CountedNext(s: seq<Node>, k: nat, p: Comparator)
    requires 0 < k <= |s|
    ensures Counted(s, k, p) == CarryIn(Counted(s, k - 1, p), [s[k - 1]], 0, p) && s[..k - 1] + [s[k - 1]] == s[..k]
    ensures EmptyBefore(Counted(s, k - 1, p), 0) && Sorted([s[k - 1]], p)
  {
    hide CarryIn;
  }

  /** The slots hold the elements taken so far, the older ones in the higher slots. */
  lemma {:induction false} CountedStable(s: seq<Node>, k: nat, p: Comparator)
    requires k <= |s| && StrictWeakOrder(p)
    ensures AllSorted(Counted(s, k, p), p) && Stable(Older(Counted(s, k, p)), s[..k], p)
    decreases k
  {
    hide *;
    if k == 0 {
      CountedFirst(s, p);
    } else {
      var cs, n := Counted(s, k - 1, p), [s[k - 1]];
      CountedStable(s, k - 1, p);
      CountedNext(s, k, p);
      CarryStable(cs, n, 0, p);
      StableSelf(n, p);
      StableJoin(Older(cs), s[..k - 1], n, n, p);
      StableThen(Older(CarryIn(cs, n, 0, p)), Older(cs) + n, s[..k], p);
    }
  }

  lemma {:induction false} CollapsedStable(cs: Slots, j: nat, p: Comparator)
    requires j < |cs| && AllSorted(cs, p) && StrictWeakOrder(p)
    ensures Sorted(Collapsed(cs, j, p), p) && Stable(Collapsed(cs, j, p), Older(cs[..j + 1]), p)
    decreases j
  {
    assert cs[..j + 1][..j] == cs[..j] && cs[..j + 1][j] == cs[j];
    if j == 0 {
      assert Older(cs[..1]) == cs[0] + Older(cs[..0]) == cs[0];
    } else {
      var c := Collapsed(cs, j - 1, p);
      CollapsedStable(cs, j - 1, p);
      MergeSorted(cs[j], c, p);
      StableMerge(cs[j], c, p);
      StableJoin(cs[j], cs[j], c, Older(cs[..j]), p);
      StableThen(Merge(cs[j], c, p), cs[j] + c, Older(cs[..j + 1]), p);
    }
  }

  /** The list that sorting leaves. */
  ghost function SortResult(s: seq<Node>, p: Comparator): seq<Node>
  {
    var cs := Counted(s, |s|, p);
    if cs == [] then s else Collapsed(cs, |cs| - 1, p)
  }

  /** It is sorted, has the same nodes, and equivalent ones keep their order. */
  lemma SortIsStable(s: seq<Node>, p: Comparator)
    requires StrictWeakOrder(p)
    ensures Sorted(SortResult(s, p), p) && Stable(SortResult(s, p), s, p)
  {
    var cs := Counted(s, |s|, p);
    CountedStable(s, |s|, p);
    assert s[..|s|] == s;
    if cs != [] {
      CollapsedStable(cs, |cs| - 1, p);
      assert cs[..|cs|] == cs;
      StableThen(SortResult(s, p), Older(cs), s, p);
    } else {
      CountedBinary(s, |s|, p);
    }
  }
}

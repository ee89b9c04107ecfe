/** Sequences turned around, and rotated. */
module Sequences {
  import opened Division

  lemma Regroup<T>(a: seq<T>, b: seq<T>, c: seq<T>)
    ensures a + (b + c) == (a + b) + c
  {
  }

  ghost function Reversed<T>(s: seq<T>): (r: seq<T>)
    ensures |r| == |s|
  {
    if s == [] then [] else Reversed(s[1..]) + [s[0]]
  }

  lemma {:induction false} ReversedAt<T>(s: seq<T>, i: nat)
    requires i < |s|
    ensures Reversed(s)[i] == s[|s| - 1 - i]
  {
    if i < |s| - 1 {
      ReversedAt(s[1..], i);
    }
  }

  lemma {:induction false} ReversedSnoc<T>(s: seq<T>, x: T)
    ensures Reversed(s + [x]) == [x] + Reversed(s)
  {
    if s == [] {
      assert [] + [x] == [x];
    } else {
      assert (s + [x])[1..] == s[1..] + [x] && (s + [x])[0] == s[0];
      ReversedSnoc(s[1..], x);
    }
  }

  lemma {:induction false} ReversedMembers<T>(s: seq<T>)
    ensures forall x <- Reversed(s) :: x in s
    ensures forall x <- s :: x in Reversed(s)
    ensures multiset(Reversed(s)) == multiset(s)
  {
    if s != [] {
      ReversedMembers(s[1..]);
      assert s == [s[0]] + s[1..];
    }
  }

  // --------------------------------------------------------------- rotation

  /** The first `k` elements go to the end. */
  ghost function Turned<T>(s: seq<T>, k: nat): seq<T>
    requires k <= |s|
  {
    s[k..] + s[..k]
  }

  /** The part of the count that matters. */
  ghost function Shift<T>(s: seq<T>, n: nat): (k: nat)
    ensures k <= n && k <= |s| && (k < |s| || s == [])
  {
    if s == [] then 0 else n % |s|
  }

  /** The list turned `n` elements to the front, as often around as it takes. */
  ghost function RotatedBack<T>(s: seq<T>, n: nat): seq<T>
  {
    Turned(s, Shift(s, n))
  }

  /** The list turned `n` elements to the end. */
  ghost function RotatedForth<T>(s: seq<T>, n: nat): seq<T>
  {
    Turned(s, |s| - Shift(s, n))
  }

  /** Where element `i` of the rotated list comes from. */
  lemma RotatedBackAt<T>(s: seq<T>, n: nat, i: nat)
    requires i < |s|
    ensures |RotatedBack(s, n)| == |s| && RotatedBack(s, n)[i] == s[(i + n) % |s|]
  {
    var q, r := Divide(n, |s|);
    assert RotatedBack(s, n) == s[r..] + s[..r];
    if i + r < |s| {
      QuotientIs(i + n, |s|, q, i + r);
    } else {
      assert (q + 1) * |s| == q * |s| + |s|;
      QuotientIs(i + n, |s|, q + 1, i + r - |s|);
    }
  }

  /** Turning one step at a time comes to the same. */
  lemma {:induction false} RotatedBackSteps<T>(s: seq<T>, n: nat)
    ensures RotatedBack(s, n + 1) == RotatedBack(RotatedBack(s, n), 1)
  {
    if s != [] {
      var m, t := |s|, RotatedBack(s, n);
      assert |RotatedBack(s, n + 1)| == m && |t| == m && |RotatedBack(t, 1)| == m;
      forall i | 0 <= i < m ensures RotatedBack(s, n + 1)[i] == RotatedBack(t, 1)[i] {
        RotatedBackAt(s, n + 1, i);
        RotatedBackAt(t, 1, i);
        RotatedBackAt(s, n, (i + 1) % m);
        StepRemainder(i, n, m);
      }
    }
  }

  lemma StepRemainder(i: nat, n: nat, m: nat)
    requires i < m
    ensures ((i + 1) % m + n) % m == (i + (n + 1)) % m
  {
    if i + 1 < m {
      QuotientIs(i + 1, m, 0, i + 1);
    } else {
      QuotientIs(i + 1, m, 1, 0);
      var q, r := Divide(n, m);
      assert (q + 1) * m == q * m + m;
      QuotientIs(m + n, m, q + 1, r);
    }
  }

  /** Each direction undoes the other. */
  lemma RotationsUndo<T>(s: seq<T>, n: nat)
    ensures RotatedForth(RotatedBack(s, n), n) == s && RotatedBack(RotatedForth(s, n), n) == s
  {
    if s != [] {
      var q, k := Divide(n, |s|);
      TurnedTwice(s, k);
      TurnedTwice(s, |s| - k);
      assert |Turned(s, k)| == |s| && |Turned(s, |s| - k)| == |s|;
    }
  }

  lemma TurnedTwice<T>(s: seq<T>, k: nat)
    requires k <= |s|
    ensures Turned(Turned(s, k), |s| - k) == s
  {
    assert Turned(s, k)[|s| - k..] == s[..k] && Turned(s, k)[..|s| - k] == s[k..];
  }

  lemma NoTurn<T>(s: seq<T>, n: nat)
    requires n == 0 || |s| <= 1
    ensures RotatedBack(s, n) == s && RotatedForth(s, n) == s && Shift(s, n) == 0
  {
  }

  lemma TurnedAround<T>(s: seq<T>)
    ensures Turned(s, 0) == s && Turned(s, |s|) == s
  {
  }

  lemma ShiftSmall<T>(s: seq<T>, n: nat)
    ensures n < |s| ==> Shift(s, n) == n
  {
    if n < |s| {
      QuotientIs(n, |s|, 0, n);
    }
  }

  lemma ShiftNext<T>(s: seq<T>, n: nat)
    requires s != []
    ensures Shift(s, n + 1) == if Shift(s, n) + 1 == |s| then 0 else Shift(s, n) + 1
  {
    var q, r := Divide(n, |s|);
    if r + 1 == |s| {
      assert (q + 1) * |s| == q * |s| + |s|;
      QuotientIs(n + 1, |s|, q + 1, 0);
    } else {
      QuotientIs(n + 1, |s|, q, r + 1);
    }
  }

  /** Reduces the count once the size is known. */
  method Reduce<T>(n: nat, size: nat, ghost s: seq<T>) returns (k: nat)
    requires size == |s| && size > 0
    ensures k == Shift(s, n)
  {
    k := n % size;
  }

  /** The same, counted from the other end. */
  method ReduceBack<T>(n: nat, size: nat, ghost s: seq<T>) returns (k: nat)
    requires size == |s| && size > 0
    ensures k == if Shift(s, n) == 0 then 0 else |s| - Shift(s, n)
  {
    var r := n % size;
    k := (size - r) % size;
    if r == 0 {
      QuotientIs(size, size, 1, 0);
    } else {
      QuotientIs(size - r, size, 0, size - r);
    }
  }
}

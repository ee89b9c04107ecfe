/**
 Linear hashing: a table that grows and shrinks one bucket at a time.  A bucket is the sequence of its
 groups; a group holds nodes with equal keys, and is never taken apart.
 */
module LinearHash {
  import opened Division
  import opened HashItems

  type Group = seq<Item>
  type Bucket = seq<Group>

  // ----------------------------------------------------------- the slot of a hash value

  ghost predicate IsPow2(n: nat)
  {
    n > 0 && (n == 1 || (n % 2 == 0 && IsPow2(n / 2)))
  }

  /** The bits that are set in both words. */
  function And(a: nat, b: nat): nat
  {
    if a == 0 || b == 0 then 0 else a % 2 * (b % 2) + 2 * And(a / 2, b / 2)
  }

  /** Masking with one less than a power of two takes the remainder. */
  lemma {:induction false} MaskIsRemainder(h: nat, n: nat)
    requires IsPow2(n)
    ensures And(h, n - 1) == h % n
    decreases n
  {
    if n > 1 && h > 0 {
      MaskIsRemainder(h / 2, n / 2);
      assert (n - 1) / 2 == n / 2 - 1 && (n - 1) % 2 == 1;
      RemainderHalves(h, n / 2);
    }
  }

  lemma RemainderHalves(h: nat, m: nat)
    requires m > 0
    ensures h % (2 * m) == h % 2 + 2 * (h / 2 % m)
  {
    var q, r := h / 2 / m, h / 2 % m;
    assert h / 2 == q * m + r;
    assert h == 2 * (q * m + r) + h % 2 == q * (2 * m) + (2 * r + h % 2);
    QuotientIs(h, 2 * m, q, 2 * r + h % 2);
  }

  function HashToBucket(hash: nat, count: nat): nat
    requires count > 0
  {
    And(hash, count - 1)
  }

  /** The buckets from `split` on are not in use yet; what would go there is still half the table further down. */
  function HashToBucketSplit(hash: nat, count: nat, split: nat): (b: int)
    requires count > 0
    ensures IsPow2(count) ==> b == if hash % count < split then hash % count else hash % count - count / 2
  {
    assert IsPow2(count) ==> And(hash, count - 1) == hash % count by {
      if IsPow2(count) {
        MaskIsRemainder(hash, count);
      }
    }
    var b := HashToBucket(hash, count);
    b - if b >= split then count / 2 else 0
  }

  ghost predicate Sizes(count: nat, split: nat)
  {
    count >= 2 && IsPow2(count) && count / 2 <= split <= count
  }

  lemma SlotBelowSplit(hash: nat, count: nat, split: nat)
    requires Sizes(count, split)
    ensures 0 <= HashToBucketSplit(hash, count, split) < split
  {
    MaskIsRemainder(hash, count);
  }

  /** Using one more bucket only concerns what is in the bucket half the table further down. */
  lemma SlotGrows(hash: nat, count: nat, split: nat)
    requires Sizes(count, split) && split < count
    ensures HashToBucketSplit(hash, count, split) != split - count / 2 ==>
      HashToBucketSplit(hash, count, split + 1) == HashToBucketSplit(hash, count, split)
    ensures HashToBucketSplit(hash, count, split) == split - count / 2 ==>
      HashToBucketSplit(hash, count, split + 1) == split - count / 2
          || HashToBucketSplit(hash, count, split + 1) == split
  {
    MaskIsRemainder(hash, count);
  }

  lemma SlotShrinks(hash: nat, count: nat, split: nat)
    requires Sizes(count, split) && split > count / 2
    ensures var b := HashToBucketSplit(hash, count, split);
      HashToBucketSplit(hash, count, split - 1) == if b == split - 1 then split - 1 - count / 2 else b
  {
    MaskIsRemainder(hash, count);
  }

  /** Doubling or halving an array changes no slot when the split is at the smaller of the two sizes. */
  lemma SlotDoubles(hash: nat, count: nat)
    requires IsPow2(count)
    ensures IsPow2(2 * count) && HashToBucketSplit(hash, 2 * count, count) == HashToBucketSplit(hash, count, count)
  {
    MaskIsRemainder(hash, count);
    assert 2 * count / 2 == count;
    MaskIsRemainder(hash, 2 * count);
    HalfRemainder(hash, count, 2 * count);
  }

  lemma HalfRemainder(h: nat, c: nat, d: nat)
    requires c > 0 && d == 2 * c
    ensures h % c == h % d - if h % d >= c then c else 0
  {
    var q, r := Divide(h, d);
    HalfQuotient(h, c, d, q, r);
  }

  lemma HalfQuotient(h: nat, c: nat, d: nat, q: nat, r: nat)
    requires h == q * d + r && d == 2 * c && r < d
    ensures h % c == r - if r >= c then c else 0
  {
    assert q * d == 2 * q * c;
    if r >= c {
      assert (2 * q + 1) * c == 2 * q * c + c;
      QuotientIs(h, c, 2 * q + 1, r - c);
    } else {
      QuotientIs(h, c, 2 * q, r);
    }
  }

  // ----------------------------------------------------------- tables as values

  /** Every node is in the bucket its hash value asks for. */
  ghost predicate Placed(bs: seq<Bucket>, split: nat, h: Hash)
  {
    && Sizes(|bs|, split)
    && forall b :: 0 <= b < |bs| ==> InSlot(bs[b], b, |bs|, split, h)
  }

  ghost predicate InSlot(bucket: Bucket, b: int, count: nat, split: nat, h: Hash)
    requires count > 0
  {
    forall g <- bucket :: g != [] && Fits(g, b, count, split, h)
  }

  ghost predicate Fits(g: Group, b: int, count: nat, split: nat, h: Hash)
    requires count > 0
  {
    forall x <- g :: HashToBucketSplit(h(x), count, split) == b
  }

  /** The groups are groups of equal hash values. */
  ghost predicate Uniform(g: Group, h: Hash)
  {
    g != [] && forall x <- g :: h(x) == h(g[0])
  }

  ghost predicate AllUniform(bs: seq<Bucket>, h: Hash)
  {
    forall b :: 0 <= b < |bs| ==> forall g <- bs[b] :: Uniform(g, h)
  }

  /** No bucket beyond the split is in use. */
  lemma EmptyFromSplit(bs: seq<Bucket>, split: nat, h: Hash, b: nat)
    requires Placed(bs, split, h) && split <= b < |bs|
    ensures bs[b] == []
  {
    if bs[b] != [] {
      var g := bs[b][0];
      assert g in bs[b] && g != [] && g[0] in g;
      SlotBelowSplit(h(g[0]), |bs|, split);
    }
  }

  ghost function BucketItems(bucket: Bucket): multiset<Item>
  {
    if bucket == [] then multiset{} else multiset(bucket[0]) + BucketItems(bucket[1..])
  }

  ghost function Items(bs: seq<Bucket>): multiset<Item>
  {
    if bs == [] then multiset{} else BucketItems(bs[0]) + Items(bs[1..])
  }

  lemma {:induction false} JoinItems(a: Bucket, b: Bucket)
    ensures BucketItems(a + b) == BucketItems(a) + BucketItems(b)
  {
    if a == [] {
      assert a + b == b;
    } else {
      assert (a + b)[1..] == a[1..] + b && (a + b)[0] == a[0];
      JoinItems(a[1..], b);
    }
  }

  lemma FirstItems(bs: seq<Bucket>)
    requires bs != []
    ensures Items(bs) == BucketItems(bs[0]) + Items(bs[1..])
  {
  }

  lemma {:induction false} UpdateItems(bs: seq<Bucket>, i: nat, bucket: Bucket)
    requires i < |bs|
    ensures Items(bs[i := bucket]) + BucketItems(bs[i]) == Items(bs) + BucketItems(bucket)
  {
    hide Items, BucketItems;
    FirstItems(bs);
    FirstItems(bs[i := bucket]);
    var first, rest, rest' := BucketItems(bs[0]), Items(bs[1..]), Items(bs[i := bucket][1..]);
    if i == 0 {
      assert bs[i := bucket][1..] == bs[1..];
      assert (BucketItems(bucket) + rest) + first == (first + rest) + BucketItems(bucket);
    } else {
      assert bs[i := bucket][1..] == bs[1..][i - 1 := bucket];
      UpdateItems(bs[1..], i - 1, bucket);
      assert (first + rest') + BucketItems(bs[i]) == first + (rest' + BucketItems(bs[i]));
      assert (first + rest) + BucketItems(bucket) == first + (rest + BucketItems(bucket));
    }
  }

  /** Moving nodes between two buckets loses none. */
  lemma MoveItems(bs: seq<Bucket>, i: nat, a: Bucket, j: nat, b: Bucket)
    requires i < |bs| && j < |bs| && i != j
    requires BucketItems(a) + BucketItems(b) == BucketItems(bs[i]) + BucketItems(bs[j])
    ensures Items(bs[i := a][j := b]) == Items(bs)
  {
    hide Items, BucketItems;
    UpdateItems(bs, i, a);
    UpdateItems(bs[i := a], j, b);
    CancelBoth(Items(bs), Items(bs[i := a]), Items(bs[i := a][j := b]), BucketItems(bs[i]), BucketItems(bs[j]),
               BucketItems(a), BucketItems(b));
  }

  lemma CancelBoth(x: multiset<Item>, y: multiset<Item>, z: multiset<Item>, oi: multiset<Item>, oj: multiset<Item>,
                   ni: multiset<Item>, nj: multiset<Item>)
    requires y + oi == x + ni && z + oj == y + nj && ni + nj == oi + oj
    ensures z == x
  {
    forall e ensures z[e] == x[e] {
      assert (y + oi)[e] == (x + ni)[e] && (z + oj)[e] == (y + nj)[e] && (ni + nj)[e] == (oi + oj)[e];
    }
  }

  lemma Cancel(x: multiset<Item>, y: multiset<Item>, k: multiset<Item>)
    requires x + k == y + k
    ensures x == y
  {
    forall e ensures x[e] == y[e] {
      assert (x + k)[e] == (y + k)[e];
    }
  }

  // --------------------------------------------------------------- one step

  /** The groups of a bucket whose first node satisfies `p`, in order. */
  ghost function Staying(bucket: Bucket, p: Group -> bool): Bucket
  {
    if bucket == [] then [] else (if p(bucket[0]) then [bucket[0]] else []) + Staying(bucket[1..], p)
  }

  /** The others, each put in front of those before it. */
  ghost function Leaving(bucket: Bucket, p: Group -> bool): Bucket
  {
    if bucket == [] then [] else Leaving(bucket[1..], p) + if p(bucket[0]) then [] else [bucket[0]]
  }

  lemma {:induction false} StayingSnoc(bucket: Bucket, g: Group, p: Group -> bool)
    ensures Staying(bucket + [g], p) == Staying(bucket, p) + if p(g) then [g] else []
    ensures Leaving(bucket + [g], p) == (if p(g) then [] else [g]) + Leaving(bucket, p)
  {
    if bucket != [] {
      assert (bucket + [g])[1..] == bucket[1..] + [g] && (bucket + [g])[0] == bucket[0];
      StayingSnoc(bucket[1..], g, p);
    }
  }

  lemma {:induction false} StayingItems(bucket: Bucket, p: Group -> bool)
    ensures BucketItems(Staying(bucket, p)) + BucketItems(Leaving(bucket, p)) == BucketItems(bucket)
  {
    if bucket != [] {
      StayingItems(bucket[1..], p);
      var g, rest := bucket[0], bucket[1..];
      assert BucketItems([g]) == multiset(g);
      if p(g) {
        JoinItems([g], Staying(rest, p));
        assert Leaving(bucket, p) == Leaving(rest, p);
      } else {
        JoinItems(Leaving(rest, p), [g]);
        assert Staying(bucket, p) == Staying(rest, p);
      }
    }
  }

  lemma {:induction false} StayingGroups(bucket: Bucket, p: Group -> bool)
    ensures forall g <- Staying(bucket, p) :: g in bucket && p(g)
    ensures forall g <- Leaving(bucket, p) :: g in bucket && !p(g)
  {
    if bucket != [] {
      StayingGroups(bucket[1..], p);
      assert forall g <- bucket[1..] :: g in bucket;
    }
  }

  /** Stays in the bucket `i` once the split has moved on. */
  ghost function StaysIn(i: int, count: nat, split: nat, h: Hash): Group -> bool
    requires count > 0
  {
    (g: Group) => g != [] && HashToBucketSplit(h(g[0]), count, split) == i
  }

  /** The table after one more bucket has come into use. */
  ghost function Grown(bs: seq<Bucket>, split: nat, h: Hash): seq<Bucket>
    requires Sizes(|bs|, split) && split < |bs|
  {
    var i := split - |bs| / 2;
    var p := StaysIn(i, |bs|, split + 1, h);
    bs[i := Staying(bs[i], p)][split := Leaving(bs[i], p)]
  }

  lemma FitsStill(g: Group, count: nat, split: nat, h: Hash, b: int, split': nat, b': int)
    requires count > 0 && Uniform(g, h) && Fits(g, b, count, split, h)
    requires HashToBucketSplit(h(g[0]), count, split') == b'
    ensures Fits(g, b', count, split', h)
  {
  }

  /** A group that was in slot `was` and has kept to the rules of the new split. */
  lemma GroupMoves(g: Group, count: nat, split: nat, h: Hash, was: nat, b: nat)
    requires Sizes(count, split) && split < count && Uniform(g, h) && Fits(g, was, count, split, h)
    requires was == split - count / 2 ==> b == if StaysIn(was, count, split + 1, h)(g) then was else split
    requires was != split - count / 2 ==> b == was
    ensures Fits(g, b, count, split + 1, h)
  {
    assert g[0] in g;
    SlotGrows(h(g[0]), count, split);
    FitsStill(g, count, split, h, was, split + 1, b);
  }

  lemma GrownSlot(bs: seq<Bucket>, split: nat, h: Hash, b: nat)
    requires Placed(bs, split, h) && AllUniform(bs, h) && split < |bs| && b < |bs|
    ensures forall g <- Grown(bs, split, h)[b] :: Uniform(g, h) && Fits(g, b, |bs|, split + 1, h)
  {
    var i := split - |bs| / 2;
    StayingGroups(bs[i], StaysIn(i, |bs|, split + 1, h));
    forall g <- Grown(bs, split, h)[b] ensures Uniform(g, h) && Fits(g, b, |bs|, split + 1, h) {
      var was := if b == split then i else b;
      assert g in bs[was];
      GroupMoves(g, |bs|, split, h, was, b);
    }
  }

  lemma NoItems()
    ensures BucketItems([]) == multiset{}
  {
  }

  /** Growing keeps every node, and puts each where it belongs now. */
  lemma GrownPlaced(bs: seq<Bucket>, split: nat, h: Hash)
    requires Placed(bs, split, h) && AllUniform(bs, h) && split < |bs|
    ensures Placed(Grown(bs, split, h), split + 1, h) && AllUniform(Grown(bs, split, h), h)
    ensures Items(Grown(bs, split, h)) == Items(bs)
  {
    hide Grown, StaysIn, Uniform, InSlot, Items, BucketItems;
    GrownSlots(bs, split, h);
    GrownItems(bs, split, h);
  }

  lemma GrownSlots(bs: seq<Bucket>, split: nat, h: Hash)
    requires Placed(bs, split, h) && AllUniform(bs, h) && split < |bs|
    ensures Placed(Grown(bs, split, h), split + 1, h) && AllUniform(Grown(bs, split, h), h)
  {
    hide Fits, StaysIn, Staying, Leaving;
    forall b: nat | b < |bs|
      ensures InSlot(Grown(bs, split, h)[b], b, |bs|, split + 1, h)
          && forall g <- Grown(bs, split, h)[b] :: Uniform(g, h)
    {
      GrownSlot(bs, split, h, b);
    }
  }

  lemma GrownItems(bs: seq<Bucket>, split: nat, h: Hash)
    requires Placed(bs, split, h) && split < |bs|
    ensures Items(Grown(bs, split, h)) == Items(bs)
  {
    hide Items, BucketItems, Staying, Leaving, StaysIn, InSlot;
    var i := split - |bs| / 2;
    var p := StaysIn(i, |bs|, split + 1, h);
    EmptyFromSplit(bs, split, h, split);
    NoItems();
    StayingItems(bs[i], p);
    MoveItems(bs, i, Staying(bs[i], p), split, Leaving(bs[i], p));
  }

  /** A growing step given up after `k` groups: those moved are back, in front of those that stayed. */
  ghost function GivenUp(bs: seq<Bucket>, split: nat, h: Hash, k: nat): seq<Bucket>
    requires Sizes(|bs|, split) && split < |bs| && k <= |bs[split - |bs| / 2]|
  {
    var i := split - |bs| / 2;
    var p := StaysIn(i, |bs|, split + 1, h);
    bs[i := Leaving(bs[i][..k], p) + (Staying(bs[i][..k], p) + bs[i][k..])]
  }

  lemma GivenUpPlaced(bs: seq<Bucket>, split: nat, h: Hash, k: nat)
    requires Placed(bs, split, h) && AllUniform(bs, h) && split < |bs| && k <= |bs[split - |bs| / 2]|
    ensures Placed(GivenUp(bs, split, h, k), split, h) && AllUniform(GivenUp(bs, split, h, k), h)
  {
    var i := split - |bs| / 2;
    var p := StaysIn(i, |bs|, split + 1, h);
    var pre, post := bs[i][..k], bs[i][k..];
    StayingGroups(pre, p);
    assert bs[i] == pre + post;
    assert forall g <- GivenUp(bs, split, h, k)[i] :: g in bs[i];
  }

  lemma PutBack(pre: Bucket, post: Bucket, p: Group -> bool)
    ensures BucketItems(Leaving(pre, p) + (Staying(pre, p) + post)) == BucketItems(pre + post)
  {
    StayingItems(pre, p);
    JoinItems(Staying(pre, p), post);
    JoinItems(Leaving(pre, p), Staying(pre, p) + post);
    JoinItems(pre, post);
  }

  lemma SameItems(bs: seq<Bucket>, i: nat, bucket: Bucket)
    requires i < |bs| && BucketItems(bucket) == BucketItems(bs[i])
    ensures Items(bs[i := bucket]) == Items(bs)
  {
    UpdateItems(bs, i, bucket);
    Cancel(Items(bs[i := bucket]), Items(bs), BucketItems(bs[i]));
  }

  lemma GivenUpItems(bs: seq<Bucket>, split: nat, h: Hash, k: nat)
    requires Sizes(|bs|, split) && split < |bs| && k <= |bs[split - |bs| / 2]|
    ensures Items(GivenUp(bs, split, h, k)) == Items(bs)
  {
    hide Items, BucketItems, Staying, Leaving;
    var i := split - |bs| / 2;
    var p := StaysIn(i, |bs|, split + 1, h);
    var pre, post := bs[i][..k], bs[i][k..];
    PutBack(pre, post, p);
    assert bs[i] == pre + post;
    SameItems(bs, i, Leaving(pre, p) + (Staying(pre, p) + post));
  }

  /** The table after the last bucket in use has been given back. */
  ghost function Shrunk(bs: seq<Bucket>, split: nat): seq<Bucket>
    requires Sizes(|bs|, split) && split > |bs| / 2
  {
    var i := split - 1 - |bs| / 2;
    bs[i := bs[split - 1] + bs[i]][split - 1 := []]
  }

  lemma ShrunkSlot(bs: seq<Bucket>, split: nat, h: Hash, b: nat)
    requires Placed(bs, split, h) && AllUniform(bs, h) && split > |bs| / 2 && b < |bs|
    ensures forall g <- Shrunk(bs, split)[b] :: Uniform(g, h) && Fits(g, b, |bs|, split - 1, h)
  {
    forall g <- Shrunk(bs, split)[b] ensures Uniform(g, h) && Fits(g, b, |bs|, split - 1, h) {
      var was := if g in bs[b] then b else split - 1;
      assert g in bs[was] && Uniform(g, h) && g[0] in g;
      SlotShrinks(h(g[0]), |bs|, split);
      FitsStill(g, |bs|, split, h, was, split - 1, b);
    }
  }

  lemma ShrunkPlaced(bs: seq<Bucket>, split: nat, h: Hash)
    requires Placed(bs, split, h) && AllUniform(bs, h) && split > |bs| / 2
    ensures Placed(Shrunk(bs, split), split - 1, h) && AllUniform(Shrunk(bs, split), h)
  {
    forall b: nat | b < |bs|
      ensures InSlot(Shrunk(bs, split)[b], b, |bs|, split - 1, h) && forall g <- Shrunk(bs, split)[b] :: Uniform(g, h)
    {
      ShrunkSlot(bs, split, h, b);
    }
  }

  lemma ShrunkItems(bs: seq<Bucket>, split: nat)
    requires Sizes(|bs|, split) && split > |bs| / 2
    ensures Items(Shrunk(bs, split)) == Items(bs)
  {
    var i := split - 1 - |bs| / 2;
    JoinItems(bs[split - 1], bs[i]);
    MoveItems(bs, i, bs[split - 1] + bs[i], split - 1, []);
  }

  /** The same buckets in an array twice or half as long, at the split the smaller size dictates. */
  lemma ResizedPlaced(bs: seq<Bucket>, bs': seq<Bucket>, split: nat, h: Hash)
    requires Placed(bs, split, h)
    requires (|bs'| == 2 * |bs| && split == |bs|) || (|bs'| == |bs| / 2 && split == |bs'|)
    requires |bs'| >= 2
    requires forall b :: 0 <= b < split ==> bs'[b] == bs[b]
    requires forall b :: split <= b < |bs'| ==> bs'[b] == []
    ensures Placed(bs', split, h)
  {
    assert IsPow2(|bs'|) && Sizes(|bs'|, split) by {
      SlotDoubles(0, |bs|);
    }
    forall b: nat | b < |bs'| ensures InSlot(bs'[b], b, |bs'|, split, h) {
      if b < split {
        forall g <- bs'[b] ensures g != [] && Fits(g, b, |bs'|, split, h) {
          assert g in bs[b];
          forall x <- g ensures HashToBucketSplit(h(x), |bs'|, split) == b {
            SlotDoubles(h(x), split);
          }
        }
      }
    }
  }

  lemma {:induction false} EmptyTail(bs: seq<Bucket>)
    requires forall b :: 0 <= b < |bs| ==> bs[b] == []
    ensures Items(bs) == multiset{}
  {
    if bs != [] {
      EmptyTail(bs[1..]);
    }
  }

  lemma {:induction false} ItemsJoin(a: seq<Bucket>, b: seq<Bucket>)
    ensures Items(a + b) == Items(a) + Items(b)
  {
    if a == [] {
      assert a + b == b;
    } else {
      assert (a + b)[1..] == a[1..] + b && (a + b)[0] == a[0];
      ItemsJoin(a[1..], b);
    }
  }

  lemma ResizedItems(bs: seq<Bucket>, bs': seq<Bucket>, split: nat, h: Hash)
    requires Placed(bs, split, h) && split <= |bs| && split <= |bs'|
    requires forall b :: 0 <= b < split ==> bs'[b] == bs[b]
    requires forall b :: split <= b < |bs'| ==> bs'[b] == []
    ensures Items(bs') == Items(bs)
  {
    forall b: nat | split <= b < |bs| ensures bs[b] == [] {
      EmptyFromSplit(bs, split, h, b);
    }
    assert bs == bs[..split] + bs[split..] && bs' == bs'[..split] + bs'[split..] && bs'[..split] == bs[..split];
    ItemsJoin(bs[..split], bs[split..]);
    ItemsJoin(bs'[..split], bs'[split..]);
    EmptyTail(bs[split..]);
    EmptyTail(bs'[split..]);
  }

  // -------------------------------------------------------------- the table

  /** The array a table lives in, and how much of it is in use; owned by the caller. */
  datatype BucketTraits = BucketTraits(buckets: array<Bucket>, count: nat)

  /** What a step that hashes nodes comes to: it changed the table or not, or a hash failed half way. */
  datatype Outcome = Done(changed: bool) | Threw

  lemma StepAt(bucket: Bucket, k: nat, p: Group -> bool)
    requires k < |bucket|
    ensures bucket[k] in bucket
    ensures var stay, rest := Staying(bucket[..k], p), bucket[k..];
      && (stay + rest)[|stay|] == bucket[k] && stay + rest == stay + [bucket[k]] + bucket[k + 1..]
      && (stay + rest)[..|stay|] + (stay + rest)[|stay| + 1..] == stay + bucket[k + 1..]
    ensures Staying(bucket[..k + 1], p) == Staying(bucket[..k], p) + if p(bucket[k]) then [bucket[k]] else []
    ensures Leaving(bucket[..k + 1], p) == (if p(bucket[k]) then [] else [bucket[k]]) + Leaving(bucket[..k], p)
  {
    assert bucket[..k + 1] == bucket[..k] + [bucket[k]];
    StayingSnoc(bucket[..k], bucket[k], p);
  }

  /** The next group to look at, and where it may go. */
  lemma GroupAt(bs: seq<Bucket>, s: nat, h: Hash, k: nat)
    requires Placed(bs, s, h) && AllUniform(bs, h) && s < |bs| && k < |bs[s - |bs| / 2]|
    ensures bs[s - |bs| / 2][k] != []
    ensures var i := s - |bs| / 2;
      var p, g := StaysIn(i, |bs|, s + 1, h), bs[i][k];
      var stay, rest, n := Staying(bs[i][..k], p), bs[i][k..], HashToBucketSplit(h(g[0]), |bs|, s + 1);
      && g != [] && (n == i || n == s) && (p(g) <==> n == i)
      && |stay + rest| > |stay| && (stay + rest)[|stay|] == g && stay + rest == stay + [g] + bs[i][k + 1..]
      && (stay + rest)[..|stay|] + (stay + rest)[|stay| + 1..] == stay + bs[i][k + 1..]
      && Staying(bs[i][..k + 1], p) == stay + (if p(g) then [g] else [])
      && Leaving(bs[i][..k + 1], p) == (if p(g) then [] else [g]) + Leaving(bs[i][..k], p)
  {
    var i := s - |bs| / 2;
    var g := bs[i][k];
    StepAt(bs[i], k, StaysIn(i, |bs|, s + 1, h));
    assert Uniform(g, h) && Fits(g, i, |bs|, s, h) && g[0] in g;
    SlotGrows(h(g[0]), |bs|, s);
  }

  /** A node is in the bucket of its remainder, or half a table further down if that bucket is not in use. */
  ghost predicate ByRemainder(bs: seq<Bucket>, split: nat, h: Hash)
  {
    forall b :: 0 <= b < |bs| ==> forall g <- bs[b] :: forall x <- g :: AtRemainder(h(x), |bs|, split, b)
  }

  ghost predicate AtRemainder(hash: nat, count: nat, split: nat, b: int)
    requires count > 0
  {
    b == if hash % count < split then hash % count else hash % count - count / 2
  }

  lemma PlacedByRemainder(bs: seq<Bucket>, split: nat, h: Hash)
    requires Placed(bs, split, h)
    ensures ByRemainder(bs, split, h)
  {
    forall b, g, x | 0 <= b < |bs| && g in bs[b] && x in g ensures AtRemainder(h(x), |bs|, split, b) {
      assert InSlot(bs[b], b, |bs|, split, h) && Fits(g, b, |bs|, split, h);
    }
  }

  /** A hash that a growing step has to look at fails. */
  ghost predicate SomeFails(bucket: Bucket, fails: Item -> bool)
  {
    exists g <- bucket :: g != [] && fails(g[0])
  }

  lemma NoneFails(bucket: Bucket, fails: Item -> bool)
    requires forall j :: 0 <= j < |bucket| ==> bucket[j] != [] && !fails(bucket[j][0])
    ensures !SomeFails(bucket, fails)
  {
  }

  lemma OneFails(bucket: Bucket, fails: Item -> bool, k: nat)
    requires k < |bucket| && bucket[k] != [] && fails(bucket[k][0])
    ensures SomeFails(bucket, fails)
  {
    assert bucket[k] in bucket;
  }

  /** Staying and leaving groups are the groups there were. */
  lemma {:induction false} StayingBag(bucket: Bucket, p: Group -> bool)
    ensures multiset(Staying(bucket, p)) + multiset(Leaving(bucket, p)) == multiset(bucket)
  {
    if bucket != [] {
      StayingBag(bucket[1..], p);
      assert bucket == [bucket[0]] + bucket[1..];
    }
  }

  /** The groups of two buckets taken together are what they were, and so are all other buckets. */
  ghost predicate OnlyBetween(bs: seq<Bucket>, bs': seq<Bucket>, i: nat, s: nat)
    requires i < |bs| && s < |bs| && i != s
  {
    && |bs'| == |bs| && multiset(bs'[i]) + multiset(bs'[s]) == multiset(bs[i]) + multiset(bs[s])
    && forall b :: 0 <= b < |bs| && b != i && b != s ==> bs'[b] == bs[b]
  }

  lemma GrownBetween(bs: seq<Bucket>, split: nat, h: Hash)
    requires Placed(bs, split, h) && split < |bs|
    ensures OnlyBetween(bs, Grown(bs, split, h), split - |bs| / 2, split)
  {
    hide Staying, Leaving;
    var i := split - |bs| / 2;
    EmptyFromSplit(bs, split, h, split);
    StayingBag(bs[i], StaysIn(i, |bs|, split + 1, h));
  }

  lemma GivenUpBetween(bs: seq<Bucket>, split: nat, h: Hash, k: nat)
    requires Sizes(|bs|, split) && split < |bs| && k <= |bs[split - |bs| / 2]|
    ensures OnlyBetween(bs, GivenUp(bs, split, h, k), split - |bs| / 2, split)
  {
    hide Staying, Leaving;
    var i := split - |bs| / 2;
    StayingBag(bs[i][..k], StaysIn(i, |bs|, split + 1, h));
    assert bs[i] == bs[i][..k] + bs[i][k..];
  }

  lemma ShrunkBetween(bs: seq<Bucket>, split: nat)
    requires Sizes(|bs|, split) && split > |bs| / 2
    ensures OnlyBetween(bs, Shrunk(bs, split), split - 1 - |bs| / 2, split - 1)
  {
  }

  lemma PlacedSizes(bs: seq<Bucket>, split: nat, h: Hash)
    requires Placed(bs, split, h)
    ensures Sizes(|bs|, split)
  {
  }

  class Table {
    var traits: BucketTraits
    var split: nat
    /** No bucket before this one holds anything. */
    var cache: nat

    /** An empty table: half of its buckets are in use. */
    constructor (traits: BucketTraits, ghost h: Hash)
      requires 2 <= traits.count <= traits.buckets.Length && IsPow2(traits.count)
      modifies traits.buckets
      ensures this.traits == traits && split == traits.count / 2 && cache == traits.count && Valid(h)
      ensures Items(Contents()) == multiset{}
    {
      this.traits := traits;
      split, cache := traits.count / 2, traits.count;
      new;
      InitBuckets(traits.buckets, 0, traits.count);
      EmptyTail(traits.buckets[..traits.count]);
    }

    /** An empty table that has been halved keeps a cache beyond its end, until it is shrunk or doubled. */
    ghost predicate CacheInReach()
      reads this
    {
      cache <= traits.count || (split == traits.count && cache <= 2 * traits.count)
    }

    ghost predicate Ready()
      reads this, traits.buckets
    {
      && traits.count <= traits.buckets.Length && Sizes(traits.count, split) && CacheInReach()
      && forall b :: 0 <= b < cache && b < traits.count ==> traits.buckets[b] == []
    }

    ghost function Contents(): seq<Bucket>
      requires Ready()
      reads this, traits.buckets
    {
      traits.buckets[..traits.count]
    }

    /** Every node can be found, and nothing but groups is stored. */
    ghost predicate Valid(h: Hash)
      reads this, traits.buckets
    {
      Ready() && Placed(Contents(), split, h) && AllUniform(Contents(), h)
    }

    /** The cache moves on to the first bucket that holds something. */
    method ErasureUpdateCache()
      requires Ready() && cache <= traits.count
      modifies this`cache
      ensures Ready() && cache <= traits.count
      ensures cache == traits.count || traits.buckets[cache] != []
    {
      while cache != traits.count
        invariant Ready() && cache <= traits.count
        decreases traits.count - cache
      {
        if traits.buckets[cache] != [] {
          return;
        }
        cache := cache + 1;
      }
    }

    /** The array with the first `k` groups of the bucket `i` dealt with. */
    ghost predicate Underway(bs: seq<Bucket>, i: nat, s: nat, k: nat, p: Group -> bool)
      requires i < |bs| && s < |bs| && k <= |bs[i]|
      reads this, traits.buckets
    {
      && |bs| <= traits.buckets.Length
      && traits.buckets[i] == Staying(bs[i][..k], p) + bs[i][k..]
      && traits.buckets[s] == Leaving(bs[i][..k], p)
      && forall b :: 0 <= b < |bs| && b != i && b != s ==> traits.buckets[b] == bs[b]
    }

    /** Moves the group at index `at` of one bucket to the front of another. */
    method TransferAfter(to: nat, from: nat, at: nat)
      requires to < traits.buckets.Length && from < traits.buckets.Length && to != from && at < |traits.buckets[from]|
      modifies traits.buckets
      ensures traits.buckets[from] == old(traits.buckets[from][..at] + traits.buckets[from][at + 1..])
      ensures traits.buckets[to] == [old(traits.buckets[from][at])] + old(traits.buckets[to])
      ensures forall b ::
          0 <= b < traits.buckets.Length && b != to && b != from ==> traits.buckets[b] == old(traits.buckets[b])
    {
      var bucket := traits.buckets[from];
      traits.buckets[to] := [bucket[at]] + traits.buckets[to];
      traits.buckets[from] := bucket[..at] + bucket[at + 1..];
    }

    /** Moves all groups of one bucket to the front of another. */
    method TransferAll(to: nat, from: nat)
      requires to < traits.buckets.Length && from < traits.buckets.Length && to != from
      modifies traits.buckets
      ensures traits.buckets[from] == [] && traits.buckets[to] == old(traits.buckets[from] + traits.buckets[to])
      ensures forall b ::
          0 <= b < traits.buckets.Length && b != to && b != from ==> traits.buckets[b] == old(traits.buckets[b])
    {
      traits.buckets[to] := traits.buckets[from] + traits.buckets[to];
      traits.buckets[from] := [];
    }

    /** A hash has failed: what was moved goes back, and so does the split. */
    method Rollback(h: Hash, i: nat, s: nat, ghost bs: seq<Bucket>, ghost k: nat)
      requires |bs| == traits.count <= traits.buckets.Length && Placed(bs, s, h) && AllUniform(bs, h) && s < |bs|
      requires i == s - |bs| / 2 && k <= |bs[i]| && split == s + 1 && bs[s] == []
      requires Underway(bs, i, s, k, StaysIn(i, |bs|, s + 1, h))
      requires cache <= traits.count && forall b :: 0 <= b < cache && b < traits.count ==> bs[b] == []
      modifies this`split, traits.buckets
      ensures Valid(h) && split == s && Items(Contents()) == Items(bs) && OnlyBetween(bs, Contents(), i, s)
    {
      hide Placed, AllUniform, Items, OnlyBetween;
      PlacedSizes(bs, s, h);
      GivenUpBetween(bs, s, h, k);
      GivenUpPlaced(bs, s, h, k);
      GivenUpItems(bs, s, h, k);
      TransferAll(i, s);
      split := split - 1;
      assert traits.buckets[..traits.count] == GivenUp(bs, s, h, k);
      assert i < cache ==> bs[i] == [] && GivenUp(bs, s, h, k)[i] == [];
    }

    /** The next group of the bucket `i` stays or goes to the new bucket `s`. */
    method GrowOne(h: Hash, fails: Item -> bool, i: nat, s: nat, before: nat, ghost bs: seq<Bucket>, ghost k: nat)
      returns (failed: bool, before': nat)
      requires |bs| == traits.count <= traits.buckets.Length && Placed(bs, s, h) && AllUniform(bs, h) && s < |bs|
      requires i == s - |bs| / 2 && k < |bs[i]| && split == s + 1
      requires Underway(bs, i, s, k, StaysIn(i, |bs|, s + 1, h))
          && before == |Staying(bs[i][..k], StaysIn(i, |bs|, s + 1, h))|
      modifies traits.buckets
      ensures Underway(bs, i, s, if failed then k else k + 1, StaysIn(i, |bs|, s + 1, h))
      ensures !failed ==> before' == |Staying(bs[i][..k + 1], StaysIn(i, |bs|, s + 1, h))|
      ensures bs[i][k] != [] && failed == fails(bs[i][k][0])
    {
      GroupAt(bs, s, h, k);
      var g := traits.buckets[i][before];
      failed, before' := fails(g[0]), before;
      if failed {
        return;
      }
      var newN := HashToBucketSplit(h(g[0]), traits.count, split);
      if newN == i {
        before' := before + 1;
      } else {
        TransferAfter(newN, i, before);
      }
    }

    /** One more bucket comes into use; a group goes there when the hash value of its first node says so. */
    method Grow(h: Hash, fails: Item -> bool) returns (threw: bool)
      requires Valid(h) && split < traits.count
      modifies this`split, this`cache, traits.buckets
      ensures Valid(h) && traits == old(traits) && cache <= traits.count
      ensures threw <==> SomeFails(old(Contents()[split - traits.count / 2]), fails)
      ensures !threw ==> split == old(split) + 1 && Contents() == Grown(old(Contents()), old(split), h)
      ensures !threw ==> cache == traits.count || Contents()[cache] != []
      ensures threw ==> split == old(split) && cache == old(cache)
      ensures Items(Contents()) == old(Items(Contents()))
      ensures OnlyBetween(old(Contents()), Contents(), old(split) - traits.count / 2, old(split))
    {
      hide Placed, AllUniform, Items, OnlyBetween, SomeFails, Grown;
      PlacedSizes(Contents(), split, h);
      var i, s, count := split - traits.count / 2, split, traits.count;
      ghost var bs := Contents();
      EmptyFromSplit(bs, s, h, s);
      split := split + 1;
      var failed;
      ghost var k;
      failed, k := GrowAll(h, fails, i, s, bs);
      if failed {
        Rollback(h, i, s, bs, k);
        return true;
      }
      GrowDone(bs, i, s, h, k);
      GrownBetween(bs, s, h);
      ErasureUpdateCache();
      threw := false;
    }

    /** Goes through the groups of the bucket `i` until a hash fails. */
    method GrowAll(h: Hash, fails: Item -> bool, i: nat, s: nat, ghost bs: seq<Bucket>)
      returns (failed: bool, ghost k: nat)
      requires |bs| == traits.count <= traits.buckets.Length && Placed(bs, s, h) && AllUniform(bs, h) && s < |bs|
      requires i == s - |bs| / 2 && split == s + 1 && bs[s] == [] && traits.buckets[..traits.count] == bs
      modifies traits.buckets
      ensures k <= |bs[i]| && Underway(bs, i, s, k, StaysIn(i, |bs|, s + 1, h)) && (failed <==> SomeFails(bs[i], fails))
      ensures !failed ==> |traits.buckets[i]| <= |Staying(bs[i][..k], StaysIn(i, |bs|, s + 1, h))|
    {
      hide Placed, AllUniform, SomeFails, Underway, Staying, Leaving, StaysIn;
      failed, k := false, 0;
      ghost var p := StaysIn(i, |bs|, s + 1, h);
      var before := 0;
      PlacedSizes(bs, s, h);
      NoneDone(bs, i, s, p);
      while before < |traits.buckets[i]|
        invariant k <= |bs[i]| && !failed
        invariant Underway(bs, i, s, k, p) && before == |Staying(bs[i][..k], p)|
        invariant forall j :: 0 <= j < k ==> bs[i][j] != [] && !fails(bs[i][j][0])
        decreases |bs[i]| - k
      {
        MoreToDo(bs, i, s, k, p);
        failed, before := GrowOne(h, fails, i, s, before, bs, k);
        if failed {
          OneFails(bs[i], fails, k);
          return;
        }
        k := k + 1;
      }
      MoreToDo(bs, i, s, k, p);
      NoneFails(bs[i], fails);
    }

    lemma NoneDone(bs: seq<Bucket>, i: nat, s: nat, p: Group -> bool)
      requires i < s < |bs| <= traits.buckets.Length && traits.buckets[..|bs|] == bs && bs[s] == []
      ensures Underway(bs, i, s, 0, p) && Staying(bs[i][..0], p) == []
    {
      assert bs[i][..0] == [] && bs[i][0..] == bs[i];
    }

    /** The loop goes on exactly while there are groups left. */
    lemma MoreToDo(bs: seq<Bucket>, i: nat, s: nat, k: nat, p: Group -> bool)
      requires i < |bs| && s < |bs| && k <= |bs[i]| && Underway(bs, i, s, k, p)
      ensures |traits.buckets[i]| > |Staying(bs[i][..k], p)| <==> k < |bs[i]|
    {
    }

    lemma GrowDone(bs: seq<Bucket>, i: nat, s: nat, h: Hash, k: nat)
      requires |bs| == traits.count <= traits.buckets.Length && Placed(bs, s, h) && AllUniform(bs, h) && s < |bs|
      requires i == s - |bs| / 2 && k <= |bs[i]| && split == s + 1 && bs[s] == []
      requires Underway(bs, i, s, k, StaysIn(i, |bs|, s + 1, h))
      requires |traits.buckets[i]| <= |Staying(bs[i][..k], StaysIn(i, |bs|, s + 1, h))|
      requires cache <= traits.count && forall b :: 0 <= b < cache && b < traits.count ==> bs[b] == []
      ensures Valid(h) && Contents() == Grown(bs, s, h) && Items(Contents()) == Items(bs) && k == |bs[i]|
    {
      hide Placed, AllUniform, Items;
      PlacedSizes(bs, s, h);
      GrownPlaced(bs, s, h);
      assert k == |bs[i]| && bs[i][..k] == bs[i] && bs[i][k..] == [];
      assert traits.buckets[i] == Staying(bs[i], StaysIn(i, |bs|, s + 1, h));
      assert traits.buckets[..traits.count] == Grown(bs, s, h);
    }

    /** The last bucket in use is given back. */
    method Shrink(ghost h: Hash)
      requires Valid(h) && split > traits.count / 2
      modifies this`split, this`cache, traits.buckets
      ensures Valid(h) && traits == old(traits) && cache <= traits.count && split == old(split) - 1
      ensures Contents() == Shrunk(old(Contents()), old(split)) && Items(Contents()) == old(Items(Contents()))
      ensures OnlyBetween(old(Contents()), Contents(), split - traits.count / 2, split) && Contents()[split] == []
      ensures var target := split - traits.count / 2; cache == if target < old(cache) then target else old(cache)
    {
      hide Placed, AllUniform, Items;
      ShrunkBetween(Contents(), split);
      ghost var bs := Contents();
      ShrunkPlaced(bs, split, h);
      ShrunkItems(bs, split);
      var target := split - 1 - traits.count / 2;
      TransferAll(target, split - 1);
      assert traits.buckets[..traits.count] == Shrunk(bs, split);
      split := split - 1;
      if target < cache {
        cache := target;
      }
    }

    method IncrementalRehash(grow: bool, h: Hash, fails: Item -> bool) returns (r: Outcome)
      requires Valid(h)
      modifies this`split, this`cache, traits.buckets
      ensures Valid(h) && traits == old(traits) && Items(Contents()) == old(Items(Contents()))
      ensures ByRemainder(Contents(), split, h)
      ensures r == Threw <==>
        grow && old(split) < traits.count && SomeFails(old(Contents()[split - traits.count / 2]), fails)
      ensures r == Threw ==> split == old(split)
      ensures r.Done? ==> (r.changed <==> if grow then old(split) < traits.count else old(split) > traits.count / 2)
      ensures r == Threw || r.changed ==> cache <= traits.count
      ensures r.Done? ==> split == old(split) + (if !r.changed then 0 else if grow then 1 else -1)
      ensures r == Done(false) ==> Contents() == old(Contents()) && cache == old(cache)
      ensures r != Done(false) ==>
        var s := if grow then old(split) else old(split) - 1;
        OnlyBetween(old(Contents()), Contents(), s - traits.count / 2, s)
    {
      hide ByRemainder, OnlyBetween, Items, Placed, AllUniform;
      PlacedSizes(Contents(), split, h);
      if grow {
        if split < traits.count {
          var threw := Grow(h, fails);
          r := if threw then Threw else Done(true);
        } else {
          r := Done(false);
        }
      } else if split > traits.count / 2 {
        Shrink(h);
        r := Done(true);
      } else {
        r := Done(false);
      }
      PlacedByRemainder(Contents(), split, h);
    }

    /**
     Doubles or halves the array when the split is where the smaller size needs it; the new array may be the old one.
     */
    method Resize(newTraits: BucketTraits, ghost h: Hash) returns (accepted: bool)
      requires Valid(h) && 2 <= newTraits.count <= newTraits.buckets.Length && IsPow2(newTraits.count)
      modifies this, traits.buckets, newTraits.buckets
      ensures Valid(h) && split == old(split) && cache == old(cache)
      ensures Items(Contents()) == old(Items(Contents()))
      ensures accepted <==>
        || (newTraits.count / 2 == old(traits.count) && old(split) >= old(traits.count))
        || (newTraits.count == old(traits.count) / 2 && old(split) <= newTraits.count)
      ensures traits == if accepted then newTraits else old(traits)
      ensures forall b :: 0 <= b < split ==> Contents()[b] == old(Contents())[b]
      ensures ByRemainder(Contents(), split, h)
      ensures accepted ==> (cache <= traits.count <==> old(cache) <= newTraits.count)
      ensures old(Items(Contents())) != multiset{} ==> cache < split
    {
      hide Placed, AllUniform, Items, ByRemainder;
      PlacedByRemainder(Contents(), split, h);
      if Items(Contents()) != multiset{} {
        CacheInUse(Contents(), split, h, cache);
      }
      PlacedSizes(Contents(), split, h);
      var newCount, oldCount := newTraits.count, traits.count;
      if newCount / 2 == oldCount {
        if !(split >= oldCount) {
          return false;
        }
      } else if newCount == oldCount / 2 {
        if !(split <= newCount) {
          return false;
        }
      } else {
        return false;
      }
      ghost var bs := Contents();
      var ini := cache;
      MoveBuckets(traits.buckets, oldCount, newTraits.buckets, newCount, ini, split, bs, h);
      ResizedAll(bs, newTraits.buckets[..newCount], split, h);
      PlacedSizes(newTraits.buckets[..newCount], split, h);
      PlacedByRemainder(newTraits.buckets[..newCount], split, h);
      traits := newTraits;
      cache := ini;
      accepted := true;
    }
  }

  /** Halving a table just made leaves the cache at twice its number of buckets. */
  method HalveNew(traits: BucketTraits, newTraits: BucketTraits, h: Hash) returns (table: Table, accepted: bool)
    requires 2 <= traits.count <= traits.buckets.Length && IsPow2(traits.count)
    requires 2 <= newTraits.count <= newTraits.buckets.Length && IsPow2(newTraits.count)
        && newTraits.count == traits.count / 2
    modifies traits.buckets, newTraits.buckets
    ensures fresh(table) && accepted && table.Valid(h) && table.traits == newTraits
        && table.cache == 2 * table.traits.count
  {
    table := new Table(traits, h);
    Halves(traits.count);
    accepted := table.Resize(newTraits, h);
  }

  lemma Halves(n: nat)
    requires IsPow2(n) && n >= 2
    ensures n % 2 == 0
  {
  }

  // ------------------------------------------------------------------- runs

  /** One call of a user of the table. */
  datatype Call = OneStep(grow: bool) | Exchange(traits: BucketTraits)

  ghost predicate Callable(calls: seq<Call>)
  {
    forall k :: 0 <= k < |calls| && calls[k].Exchange? ==>
      2 <= calls[k].traits.count <= calls[k].traits.buckets.Length && IsPow2(calls[k].traits.count)
  }

  ghost function Arrays(calls: seq<Call>): set<array<Bucket>>
  {
    set k | 0 <= k < |calls| && calls[k].Exchange? :: calls[k].traits.buckets
  }

  /** What a user sees of a table: the array it lives in, and how far it has been split. */
  datatype Shape = Shape(traits: BucketTraits, split: nat)

  /** What a call makes of the shape; a growing step may also leave it as it is when a hash fails. */
  ghost predicate Reshapes(call: Call, a: Shape, b: Shape, fails: Item -> bool)
  {
    match call
    case OneStep(grow) =>
      b.traits == a.traits &&
      if !grow then b.split == if a.split > a.traits.count / 2 then a.split - 1 else a.split
      else if a.split == a.traits.count then b.split == a.split
      else b.split == a.split + 1 || (b.split == a.split && exists x :: fails(x))
    case Exchange(traits) =>
      b.split == a.split && b.traits ==
        if (traits.count == 2 * a.traits.count && a.split == a.traits.count)
          || (2 * traits.count == a.traits.count && a.split == traits.count)
        then traits
        else a.traits
  }

  /**
   Whatever the calls, and whichever hashes fail, every node can be found and none is lost; and unless a hash fails,
   every step and every exchange that the sizes allow takes place.
   */
  method Run(table: Table, calls: seq<Call>, h: Hash, fails: Item -> bool) returns (ghost shapes: seq<Shape>)
    requires table.Valid(h) && Callable(calls)
    modifies table, table.traits.buckets, Arrays(calls)
    ensures table.Valid(h) && Items(table.Contents()) == old(Items(table.Contents()))
    ensures ByRemainder(table.Contents(), table.split, h)
    ensures |shapes| == |calls| + 1 && shapes[0] == old(Shape(table.traits, table.split))
    ensures shapes[|calls|] == Shape(table.traits, table.split)
    ensures forall k :: 0 <= k < |calls| ==> Reshapes(calls[k], shapes[k], shapes[k + 1], fails)
  {
    hide ByRemainder, Reshapes, Placed, AllUniform, Items;
    shapes := [Shape(table.traits, table.split)];
    for k := 0 to |calls|
      invariant table.Valid(h) && Items(table.Contents()) == old(Items(table.Contents()))
      invariant table.traits.buckets in Arrays(calls) + {old(table.traits.buckets)}
      invariant |shapes| == k + 1 && shapes[0] == old(Shape(table.traits, table.split))
      invariant shapes[k] == Shape(table.traits, table.split)
      invariant forall j :: 0 <= j < k ==> Reshapes(calls[j], shapes[j], shapes[j + 1], fails)
    {
      assert calls[k].Exchange? ==> calls[k].traits.buckets in Arrays(calls);
      Perform(table, calls[k], h, fails);
      shapes := shapes + [Shape(table.traits, table.split)];
    }
    PlacedByRemainder(table.Contents(), table.split, h);
  }

  /** One call. */
  method Perform(table: Table, call: Call, h: Hash, fails: Item -> bool)
    requires table.Valid(h) && Callable([call])
    modifies table, table.traits.buckets, Arrays([call])
    ensures table.Valid(h) && Items(table.Contents()) == old(Items(table.Contents()))
    ensures table.traits.buckets in Arrays([call]) + {old(table.traits.buckets)}
    ensures Reshapes(call, old(Shape(table.traits, table.split)), Shape(table.traits, table.split), fails)
  {
    hide ByRemainder, Placed, AllUniform, Items, OnlyBetween;
    assert [call][0] == call;
    PlacedSizes(table.Contents(), table.split, h);
    match call
    case OneStep(grow) =>
      var r := table.IncrementalRehash(grow, h, fails);
    case Exchange(traits) =>
      Halves(traits.count);
      Halves(table.traits.count);
      var accepted := table.Resize(traits, h);
  }

  /** The buckets in use come to be in the new array, with nothing beyond them. */
  method MoveBuckets(oldBuckets: array<Bucket>, oldCount: nat, newBuckets: array<Bucket>, newCount: nat, ini: nat,
                     split: nat,
                     ghost bs: seq<Bucket>, ghost h: Hash)
    requires newCount <= newBuckets.Length && oldCount <= oldBuckets.Length && oldBuckets[..oldCount] == bs
    requires Placed(bs, split, h) && split <= newCount && forall b :: 0 <= b < ini && b < oldCount ==> bs[b] == []
    modifies oldBuckets, newBuckets
    ensures forall b :: 0 <= b < split ==> newBuckets[b] == bs[b]
    ensures forall b :: split <= b < newCount ==> newBuckets[b] == []
  {
    EmptyUnused(bs, split, h);
    assert forall b :: 0 <= b < oldCount ==> oldBuckets[b] == bs[b];
    InitializeNewBuckets(oldBuckets, oldCount, newBuckets, newCount);
    if oldBuckets != newBuckets {
      CopyBuckets(oldBuckets, newBuckets, ini, split, bs);
    }
  }

  lemma ResizedAll(bs: seq<Bucket>, bs': seq<Bucket>, split: nat, h: Hash)
    requires Placed(bs, split, h) && AllUniform(bs, h) && |bs'| >= 2 && IsPow2(|bs'|)
    requires (|bs'| / 2 == |bs| && split >= |bs|) || (|bs'| == |bs| / 2 && split <= |bs'|)
    requires forall b :: 0 <= b < split ==> bs'[b] == bs[b]
    requires forall b :: split <= b < |bs'| ==> bs'[b] == []
    ensures Placed(bs', split, h) && AllUniform(bs', h) && Items(bs') == Items(bs)
  {
    ResizedPlaced(bs, bs', split, h);
    ResizedItems(bs, bs', split, h);
    ResizedUniform(bs, bs', split, h);
  }

  lemma EmptyUnused(bs: seq<Bucket>, split: nat, h: Hash)
    requires Placed(bs, split, h)
    ensures forall b :: split <= b < |bs| ==> bs[b] == []
  {
    forall b: nat | split <= b < |bs| ensures bs[b] == [] {
      EmptyFromSplit(bs, split, h, b);
    }
  }

  lemma ResizedUniform(bs: seq<Bucket>, bs': seq<Bucket>, split: nat, h: Hash)
    requires AllUniform(bs, h) && split <= |bs| && split <= |bs'|
    requires forall b :: 0 <= b < split ==> bs'[b] == bs[b]
    requires forall b :: split <= b < |bs'| ==> bs'[b] == []
    ensures AllUniform(bs', h)
  {
  }

  method InitBuckets<T>(buckets: array<seq<T>>, from: nat, to: nat)
    requires from <= to <= buckets.Length
    modifies buckets
    ensures forall b :: from <= b < to ==> buckets[b] == []
    ensures forall b :: 0 <= b < buckets.Length && !(from <= b < to) ==> buckets[b] == old(buckets[b])
  {
    for i := from to to
      invariant forall b :: from <= b < i ==> buckets[b] == []
      invariant forall b :: 0 <= b < buckets.Length && !(from <= b < i) ==> buckets[b] == old(buckets[b])
    {
      buckets[i] := [];
    }
  }

  /** Only buckets that were not in use before are emptied. */
  method InitializeNewBuckets<T>(oldBuckets: array<seq<T>>, oldCount: nat, newBuckets: array<seq<T>>, newCount: nat)
    requires newCount <= newBuckets.Length && oldCount <= oldBuckets.Length
    modifies newBuckets
    ensures oldBuckets == newBuckets ==>
      && (forall b :: oldCount <= b < newCount ==> newBuckets[b] == [])
      && (forall b :: 0 <= b < oldCount ==> newBuckets[b] == old(newBuckets[b]))
    ensures oldBuckets != newBuckets ==> forall b :: 0 <= b < newCount ==> newBuckets[b] == []
  {
    if oldBuckets == newBuckets && newCount <= oldCount {
    } else if oldBuckets == newBuckets {
      InitBuckets(oldBuckets, oldCount, newCount);
    } else {
      InitBuckets(newBuckets, 0, newCount);
    }
  }

  /** Moves the buckets in use, of which those before `ini` are known to be empty, to another array. */
  method CopyBuckets(oldBuckets: array<Bucket>, newBuckets: array<Bucket>, ini: nat, split: nat, ghost bs: seq<Bucket>)
    requires oldBuckets != newBuckets && split <= oldBuckets.Length && split <= newBuckets.Length && split <= |bs|
    requires forall b :: 0 <= b < split ==> oldBuckets[b] == bs[b] && newBuckets[b] == []
    requires forall b :: 0 <= b < ini && b < split ==> bs[b] == []
    modifies oldBuckets, newBuckets
    ensures forall b :: 0 <= b < split ==> newBuckets[b] == bs[b]
    ensures forall b :: split <= b < newBuckets.Length ==> newBuckets[b] == old(newBuckets[b])
  {
    var n := ini;
    while n < split
      invariant forall b :: 0 <= b < n && b < split ==> newBuckets[b] == bs[b]
      invariant forall b :: n <= b < split ==> oldBuckets[b] == bs[b] && newBuckets[b] == []
      invariant forall b :: split <= b < newBuckets.Length ==> newBuckets[b] == old(newBuckets[b])
    {
      newBuckets[n] := oldBuckets[n] + newBuckets[n];
      oldBuckets[n] := [];
      n := n + 1;
    }
  }

  /** A table that holds anything keeps a cache that names a bucket in use, whatever array it lives in. */
  lemma CacheInUse(bs: seq<Bucket>, split: nat, h: Hash, cache: nat)
    requires Placed(bs, split, h) && Items(bs) != multiset{}
    requires forall b :: 0 <= b < cache && b < |bs| ==> bs[b] == []
    ensures cache < split
  {
    EmptyUnused(bs, split, h);
    if cache >= split {
      EmptyTail(bs);
    }
  }
}

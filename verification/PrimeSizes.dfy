/** The prime bucket counts, and the bucket of a hash value computed without a division. */
module PrimeSizes {
  import opened Division

  /** One beyond the largest 32-bit and the largest 64-bit word. */
  const WORD32: nat := 0x1_0000_0000
  const WORD64: nat := 0x1_0000_0000_0000_0000

  const SIZES: nat := 64
  const SIZES_UNDER_32BIT: nat := 32

  /** The bucket counts. */
  function PrimeList(i: nat): (p: nat)
    requires i < SIZES
    ensures p > 0 && (i < SIZES_UNDER_32BIT ==> p < WORD32)
  {
    match i
    case 0 => 3 case 1 => 7 case 2 => 11 case 3 => 17
    case 4 => 29 case 5 => 53 case 6 => 97 case 7 => 193
    case 8 => 389 case 9 => 769 case 10 => 1543 case 11 => 3079
    case 12 => 6151 case 13 => 12289 case 14 => 24593 case 15 => 49157
    case 16 => 98317 case 17 => 196613 case 18 => 393241 case 19 => 786433
    case 20 => 1572869 case 21 => 3145739 case 22 => 6291469 case 23 => 12582917
    case 24 => 25165843 case 25 => 50331653 case 26 => 100663319 case 27 => 201326611
    case 28 => 402653189 case 29 => 805306457 case 30 => 1610612741 case 31 => 3221225473
    case 32 => 6442450939 case 33 => 12884901893 case 34 => 25769803751 case 35 => 51539607551
    case 36 => 103079215111 case 37 => 206158430209 case 38 => 412316860441 case 39 => 824633720831
    case 40 => 1649267441651 case 41 => 3298534883309 case 42 => 6597069766657 case 43 => 13194139533299
    case 44 => 26388279066623 case 45 => 52776558133303 case 46 => 105553116266489 case 47 => 211106232532969
    case 48 => 422212465066001 case 49 => 844424930131963 case 50 => 1688849860263953 case 51 => 3377699720527861
    case 52 => 6755399441055731 case 53 => 13510798882111483 case 54 => 27021597764222939 case 55 => 54043195528445957
    case 56 => 108086391056891903 case 57 => 216172782113783843 case 58 => 432345564227567621
    case 59 => 864691128455135207
    case 60 => 1729382256910270481 case 61 => 3458764513820540933 case 62 => 6917529027641081903
    case _ => 9223372036854775783
  }

  /** For each of the primes of 32 bits, what the remainder is computed with. */
  function InvSizes32(i: nat): (m: nat)
    requires i < SIZES_UNDER_32BIT
    ensures m < WORD64
  {
    match i
    case 0 => 6148914691236517206 case 1 => 2635249153387078803 case 2 => 1676976733973595602
    case 3 => 1085102592571150096
    case 4 => 636094623231363849 case 5 => 348051774975651918 case 6 => 190172619316593316 case 7 => 95578984837873325
    case 8 => 47420935922132524 case 9 => 23987963684927896 case 10 => 11955116055547344 case 11 => 5991147799191151
    case 12 => 2998982941588287 case 13 => 1501077717772769 case 14 => 750081082979285 case 15 => 375261795343686
    case 16 => 187625172388393 case 17 => 93822606204624 case 18 => 46909513691883 case 19 => 23456218233098
    case 20 => 11728086747027 case 21 => 5864041509391 case 22 => 2932024948977 case 23 => 1466014921160
    case 24 => 733007198436 case 25 => 366503839517 case 26 => 183251896093 case 27 => 91625960335
    case 28 => 45812983922 case 29 => 22906489714 case 30 => 11453246088
    case _ => 5726623060
  }

  lemma NextSizeIsMore(i: nat)
    requires i + 1 < SIZES
    ensures PrimeList(i) < PrimeList(i + 1)
  {
  }

  /** The sizes stand in order, as searching the list for one takes for granted. */
  lemma {:induction false} SizesIncrease(i: nat, j: nat)
    requires i < j < SIZES
    ensures PrimeList(i) < PrimeList(j)
    decreases j
  {
    hide PrimeList;
    NextSizeIsMore(j - 1);
    if i < j - 1 {
      SizesIncrease(i, j - 1);
    }
  }

  /** No prime of more than 32 bits is a multiple of one of fewer. */
  lemma NoMultiples(i: nat, j: nat)
    requires j < SIZES_UNDER_32BIT <= i < SIZES
    ensures PrimeList(i) % PrimeList(j) != 0 && PrimeList(i) > PrimeList(j)
  {
    if i < 40 {
      NoMultiplesBelow40(i, j);
    } else if i < 48 {
      NoMultiplesBelow48(i, j);
    } else if i < 56 {
      NoMultiplesBelow56(i, j);
    } else {
      NoMultiplesAbove(i, j);
    }
  }

  lemma NoMultiplesBelow40(i: nat, j: nat)
    requires j < SIZES_UNDER_32BIT <= i < 40
    ensures PrimeList(i) % PrimeList(j) != 0 && PrimeList(i) > PrimeList(j)
  {
  }

  lemma NoMultiplesBelow48(i: nat, j: nat)
    requires j < SIZES_UNDER_32BIT && 40 <= i < 48
    ensures PrimeList(i) % PrimeList(j) != 0 && PrimeList(i) > PrimeList(j)
  {
  }

  lemma NoMultiplesBelow56(i: nat, j: nat)
    requires j < SIZES_UNDER_32BIT && 48 <= i < 56
    ensures PrimeList(i) % PrimeList(j) != 0 && PrimeList(i) > PrimeList(j)
  {
  }

  lemma NoMultiplesAbove(i: nat, j: nat)
    requires j < SIZES_UNDER_32BIT && 56 <= i < SIZES
    ensures PrimeList(i) % PrimeList(j) != 0 && PrimeList(i) > PrimeList(j)
  {
  }

  /** The smallest number that is not below the quotient. */
  ghost predicate IsCeiling(q: nat, n: nat, d: nat)
  {
    d > 0 && n <= q * d < n + d
  }

  /** Every entry of the second table is the ceiling of `2^64` over the entry of the first. */
  lemma InverseIsCeiling(i: nat)
    requires i < SIZES_UNDER_32BIT
    ensures IsCeiling(InvSizes32(i), WORD64, PrimeList(i))
  {
  }

  /** The high 64 bits of the product, by way of two products that fit in 64 bits. */
  function Mul128(lowBits: nat, d: nat): (r: nat)
    requires lowBits < WORD64 && d < WORD32
    ensures r == lowBits * d / WORD64
  {
    HighWord(lowBits, d);
    var r1 := Wrap(lowBits % WORD32 * d);
    var r2 := Wrap(lowBits / WORD32 * d);
    Wrap(r2 + r1 / WORD32) / WORD32
  }

  function Wrap(n: nat): (r: nat)
    ensures n < WORD64 ==> r == n
  {
    n % WORD64
  }

  /** No step of the multiplication overflows. */
  lemma HighWord(lowBits: nat, d: nat)
    requires lowBits < WORD64 && d < WORD32
    ensures lowBits % WORD32 * d < WORD64 && lowBits / WORD32 * d < WORD64
    ensures lowBits / WORD32 * d + lowBits % WORD32 * d / WORD32 < WORD64
    ensures lowBits * d / WORD64 == (lowBits / WORD32 * d + lowBits % WORD32 * d / WORD32) / WORD32
  {
    var l, h := lowBits % WORD32, lowBits / WORD32;
    assert h < WORD32 && lowBits == h * WORD32 + l;
    Bound(l, d);
    Bound(h, d);
    assert lowBits * d == h * d * WORD32 + l * d;
    DivideTwice(h * d, l * d);
  }

  lemma Bound(a: nat, d: nat)
    requires a < WORD32 && d < WORD32
    ensures a * d <= (WORD32 - 1) * (WORD32 - 1)
  {
    MulMono(a, WORD32 - 1, d);
    MulMono(d, WORD32 - 1, WORD32 - 1);
  }

  lemma DivideTwice(x: nat, y: nat)
    ensures (x * WORD32 + y) / WORD64 == (x + y / WORD32) / WORD32
  {
    var q, r := y / WORD32, y % WORD32;
    var k, s := (x + q) / WORD32, (x + q) % WORD32;
    assert x * WORD32 + y == (x + q) * WORD32 + r;
    assert (x + q) * WORD32 + r == k * WORD64 + (s * WORD32 + r);
    assert s * WORD32 + r < WORD64;
    QuotientIs(x * WORD32 + y, WORD64, k, s * WORD32 + r);
  }

  function FastMod(a: nat, m: nat, d: nat): (r: nat)
    requires a < WORD32 && m < WORD64 && d < WORD32
  {
    Mul128(m * a % WORD64, d) % WORD32
  }

  lemma ProductSplits(m: nat, d: nat, e: nat, a: nat, q: nat, r: nat)
    requires a == q * d + r && m * d == WORD64 + e
    ensures m * a == q * WORD64 + (q * e + m * r)
    ensures (q * e + m * r) * d == r * WORD64 + e * a
  {
    calc {
      m * a;
      m * (q * d + r);
      q * (m * d) + m * r;
      q * WORD64 + (q * e + m * r);
    }
    calc {
      (q * e + m * r) * d;
      e * (q * d) + r * (m * d);
      e * (q * d) + r * WORD64 + e * r;
      r * WORD64 + e * (q * d + r);
    }
  }

  /** With the ceiling of `2^64 / d`, the product never needs the bits that the word cuts off. */
  lemma FastModExact(a: nat, m: nat, d: nat)
    requires a < WORD32 && m < WORD64 && 0 < d < WORD32 && IsCeiling(m, WORD64, d)
    ensures FastMod(a, m, d) == a % d
  {
    var q, r, e := a / d, a % d, m * d - WORD64;
    ProductSplits(m, d, e, a, q, r);
    LowBits(a, m, d);
    QuotientIs(m * a, WORD64, q, q * e + m * r);
    SmallError(e, a);
    QuotientIs((q * e + m * r) * d, WORD64, r, e * a);
    FastModBy(a, m, d, q * e + m * r, r);
  }

  lemma FastModBy(a: nat, m: nat, d: nat, low: nat, r: nat)
    requires a < WORD32 && m < WORD64 && d < WORD32 && r < d && m * a % WORD64 == low && low * d / WORD64 == r
    ensures FastMod(a, m, d) == r
  {
    QuotientIs(r, WORD32, 0, r);
  }

  lemma SmallError(e: nat, a: nat)
    requires e < WORD32 && a < WORD32
    ensures e * a < WORD64
  {
    Bound(a, e);
  }

  lemma LowBits(a: nat, m: nat, d: nat)
    requires a < WORD32 && 0 < d < WORD32 && IsCeiling(m, WORD64, d)
    ensures var q, r, e := a / d, a % d, m * d - WORD64; q * e + m * r < WORD64
  {
    var q, r, e := a / d, a % d, m * d - WORD64;
    BigInverse(m, d);
    ErrorSum(q, e, d);
    ProductGap(m, d, r);
    assert a == q * d + r;
  }

  lemma BigInverse(m: nat, d: nat)
    requires 0 < d < WORD32 && m * d >= WORD64
    ensures m > WORD32
  {
    if m <= WORD32 {
      MulMono(m, WORD32, d);
    }
  }

  /** The errors of `q` steps, and that of one more. */
  lemma ErrorSum(q: nat, e: nat, d: nat)
    requires e < d
    ensures q * e + e <= q * d + d - q - 1
  {
    MulMono(e, d - 1, q + 1);
    assert (q + 1) * e == q * e + e;
    assert (q + 1) * (d - 1) == q * d + d - q - 1;
  }

  /** Each of the `d - r` steps up to `d` is longer than a word of 32 bits. */
  lemma ProductGap(m: nat, d: nat, r: nat)
    requires m > WORD32 && r < d
    ensures m * r + WORD32 + (d - r) <= m * d
  {
    MulMono(WORD32 + 1, m, d - r);
    MulMono(1, d - r, WORD32);
    assert m * r == m * d - m * (d - r);
  }

  /** The bucket of a hash value in a table of the given size. */
  function Position(hash: nat, sizeIndex: nat): (r: nat)
    requires hash < WORD64 && sizeIndex < SIZES
    ensures r < PrimeList(sizeIndex)
    ensures r == (if sizeIndex < SIZES_UNDER_32BIT then (hash % WORD32 + hash / WORD32) % WORD32
                  else hash) % PrimeList(sizeIndex)
  {
    if sizeIndex < SIZES_UNDER_32BIT then
      var a := (hash % WORD32 + hash / WORD32) % WORD32;
      InverseIsCeiling(sizeIndex);
      FastModExact(a, InvSizes32(sizeIndex), PrimeList(sizeIndex));
      FastMod(a, InvSizes32(sizeIndex), PrimeList(sizeIndex))
    else
      hash % PrimeList(sizeIndex)
  }
}

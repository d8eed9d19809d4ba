/** Bucket counts of the array hash: powers of two, so that a mask picks the bucket of a hash. */
module GrowthPolicy {
  import opened Options
  import opened Bits
  import opened Serialization

  /** The largest power of two of a machine word. */
  const MAX_BUCKET_COUNT: nat := WORD_SIZE / 2

  predicate IsPowerOfTwo(value: nat) {
    value != 0 && And(value, value - 1) == 0
  }

  ghost predicate IsPower(value: nat) {
    exists k: nat :: value == Pow2(k)
  }

  /** The trick with the predecessor finds exactly the powers of two. */
  lemma {:induction false} PowerOfTwo(value: nat)
    ensures IsPowerOfTwo(value) <==> IsPower(value)
  {
    if value == 0 {
    } else if value % 2 == 1 {
      AndSelf(value / 2);
      assert Pow2(0) == 1;
    } else {
      var half := value / 2;
      assert (value - 1) / 2 == half - 1;
      PowerOfTwo(half);
      if IsPower(half) {
        var k: nat :| half == Pow2(k);
        assert value == Pow2(k + 1);
      }
      if IsPower(value) {
        var k: nat :| value == Pow2(k);
        assert k > 0 && half == Pow2(k - 1);
      }
    }
  }

  lemma {:induction false} AndSelf(x: nat)
    ensures And(x, x) == x
  {
    if x > 0 {
      AndSelf(x / 2);
    }
  }

  /** The number of binary digits. */
  ghost function Width(x: nat): nat {
    if x == 0 then 0 else 1 + Width(x / 2)
  }

  lemma {:induction false} WidthFits(x: nat)
    ensures x < Pow2(Width(x)) && (x > 0 ==> Width(x) > 0 && Bit(x, Width(x) - 1))
  {
    if x > 0 {
      WidthFits(x / 2);
    }
  }

  lemma WidthZero()
    ensures Width(0) == 0
  {
  }

  lemma WidthLeast(x: nat, k: nat)
    requires x < Pow2(k)
    ensures Width(x) <= k
  {
    hide Bit, Pow2, Width;
    WidthFits(x);
    assert x == 0 ==> Width(x) == 0 by { WidthZero(); }
    if x > 0 { BitBelow(x, k, Width(x) - 1); }
  }

  lemma BitBelow(x: nat, k: nat, i: nat)
    requires x < Pow2(k) && Bit(x, i)
    ensures i < k
  {
    if k <= i { HighBitsClear(x, k, i); }
  }

  lemma {:induction false} MaskBit(n: nat, i: nat)
    ensures Bit(Pow2(n) - 1, i) <==> i < n
    decreases n
  {
    if n == 0 {
      ZeroBit(i);
    } else {
      assert (Pow2(n) - 1) / 2 == Pow2(n - 1) - 1;
      if i > 0 { MaskBit(n - 1, i - 1); }
    }
  }

  /** Bit k of x tells whether v has one of its bits k, ..., k + n - 1. */
  ghost predicate Smeared(v: nat, x: nat, n: nat) {
    forall k: nat :: Bit(x, k) <==> HasBit(v, k, n)
  }

  ghost predicate HasBit(v: nat, k: nat, n: nat) {
    exists j: nat :: k <= j < k + n && Bit(v, j)
  }

  lemma SmearStart(x: nat)
    ensures Smeared(x, x, 1)
  {
    forall k: nat ensures Bit(x, k) <==> HasBit(x, k, 1) {
      if Bit(x, k) { assert k <= k < k + 1; }
    }
  }

  lemma PowerZero()
    ensures IsPower(1)
  {
    assert Pow2(0) == 1;
  }

  lemma SmearMore(v: nat, x: nat, n: nat)
    requires Smeared(v, x, n)
    ensures Smeared(v, Or(x, Shr(x, n)), 2 * n)
  {
    forall k: nat ensures Bit(Or(x, Shr(x, n)), k) <==> HasBit(v, k, 2 * n) {
      OrBit(x, Shr(x, n), k);
      ShrBit(x, n, k);
      assert HasBit(v, k, 2 * n) <==> HasBit(v, k, n) || HasBit(v, k + n, n) by {
        if HasBit(v, k, 2 * n) {
          var j: nat :| k <= j < k + 2 * n && Bit(v, j);
          assert if j < k + n then HasBit(v, k, n) else HasBit(v, k + n, n);
        }
      }
    }
  }

  /** A word smeared all the way down has all its bits below the highest one. */
  lemma SmearedMask(v: nat, x: nat)
    requires v < WORD_SIZE && Smeared(v, x, 64)
    ensures x == Pow2(Width(v)) - 1
  {
    WidthFits(v);
    Pow2Values();
    forall k: nat ensures Bit(x, k) == Bit(Pow2(Width(v)) - 1, k) {
      MaskBit(Width(v), k);
      WidthLeast(v, 64);
      if k < Width(v) {
        assert HasBit(v, k, 64);
      }
      if HasBit(v, k, 64) {
        var j: nat :| k <= j < k + 64 && Bit(v, j);
        BitBelow(v, Width(v), j);
      }
    }
    SameBits(x, Pow2(Width(v)) - 1);
  }

  /** round_up_to_power_of_two: the least power of two that is not below the value. */
  method RoundUpToPowerOfTwo(value: nat) returns (r: nat)
    requires value <= MAX_BUCKET_COUNT
    ensures IsPower(r) && value <= r
    ensures forall k: nat :: value <= Pow2(k) ==> r <= Pow2(k)
  {
    hide IsPowerOfTwo, Smeared, Or, Shr, Width, Pow2;
    PowerOfTwo(value);
    if IsPowerOfTwo(value) {
      return value;
    }
    if value == 0 {
      PowerZero();
      return 1;
    }
    var x: nat := value - 1;
    SmearStart(x);
    var i: nat := 1;
    while i < 64
      invariant i in {1, 2, 4, 8, 16, 32, 64} && Smeared(value - 1, x, i)
      decreases 64 - i
    {
      SmearMore(value - 1, x, i);
      x := Or(x, Shr(x, i));
      i := i * 2;
    }
    SmearedMask(value - 1, x);
    WidthFits(value - 1);
    r := x + 1;
    forall k: nat | value <= Pow2(k) ensures r <= Pow2(k) {
      WidthLeast(value - 1, k);
      Pow2Mono(Width(value - 1), k);
    }
  }

  /** The mask of a table with so many buckets. */
  ghost predicate MaskOf(count: nat, mask: nat) {
    if count == 0 then mask == 0 else IsPower(count) && mask == count - 1
  }

  /** The constructor of the policy: the count it settles on, and the mask; no count for too many buckets. */
  method Policy(minBucketCount: nat) returns (count: Option<nat>, mask: nat)
    ensures count.None? <==> minBucketCount > 0x8000_0000_0000_0000
    ensures count.Some? ==> MaskOf(count.value, mask) && minBucketCount <= count.value
    ensures count.Some? && minBucketCount > 0 ==> forall k: nat :: minBucketCount <= Pow2(k) ==> count.value <= Pow2(k)
    ensures minBucketCount == 0 ==> count == Some(0)
  {
    if minBucketCount > MAX_BUCKET_COUNT {
      return None, 0;
    }
    if minBucketCount > 0 {
      var c := RoundUpToPowerOfTwo(minBucketCount);
      return Some(c), c - 1;
    }
    return Some(0), 0;
  }

  function BucketForHash(hash: nat, mask: nat): nat {
    And(hash, mask)
  }

  /** Every hash has its bucket among those of the table. */
  lemma BucketInside(hash: nat, count: nat, mask: nat)
    requires MaskOf(count, mask)
    ensures count == 0 ==> BucketForHash(hash, mask) == 0
    ensures count > 0 ==> BucketForHash(hash, mask) < count
  {
    if count == 0 {
      AndZero(hash);
    } else {
      var k: nat :| count == Pow2(k);
      AndMask(hash, k);
      LowBound(hash, k);
    }
  }

  lemma {:induction false} LowIsMod(x: nat, n: nat)
    ensures Low(x, n) == x % Pow2(n)
    decreases n
  {
    if n > 0 {
      LowIsMod(x / 2, n - 1);
      HalfMod(x, Pow2(n - 1));
    }
  }

  lemma HalfMod(x: nat, p: nat)
    requires p > 0
    ensures x % (2 * p) == x % 2 + 2 * ((x / 2) % p)
  {
    var q, r := (x / 2) / p, (x / 2) % p;
    assert x / 2 == p * q + r;
    assert x == (2 * p) * q + (2 * r + x % 2);
    DivUnique(x, 2 * p, q, 2 * r + x % 2);
  }

  lemma DivUnique(x: nat, d: nat, q: nat, r: nat)
    requires r < d && x == d * q + r
    ensures x % d == r
  {
    assert d * (x / d - q) == r - x % d;
    MulSign(d, x / d - q);
  }

  /** The bucket of a hash is its remainder by the number of buckets. */
  lemma BucketIsRemainder(hash: nat, count: nat, mask: nat)
    requires MaskOf(count, mask) && count > 0
    ensures BucketForHash(hash, mask) == hash % count
  {
    var k: nat :| count == Pow2(k);
    AndMask(hash, k);
    LowIsMod(hash, k);
  }

  /** next_bucket_count: no count when the table cannot grow. */
  function NextBucketCount(mask: nat, factor: nat): Option<nat>
    requires factor > 0
  {
    if mask + 1 > MAX_BUCKET_COUNT / factor then None else Some((mask + 1) * factor)
  }

  lemma NextInside(mask: nat, factor: nat)
    requires factor > 0
    ensures NextBucketCount(mask, factor).Some? ==> 0 < NextBucketCount(mask, factor).value <= MAX_BUCKET_COUNT
    ensures NextBucketCount(mask, factor).Some? ==> NextBucketCount(mask, factor).value == (mask + 1) * factor
    ensures NextBucketCount(mask, factor).None? <==> mask + 1 > MAX_BUCKET_COUNT / factor
  {
    Quotient(mask + 1, factor, MAX_BUCKET_COUNT);
  }

  lemma Quotient(a: nat, b: nat, c: nat)
    requires a > 0 && b > 0
    ensures a <= c / b ==> 0 < a * b <= c
  {
    if a <= c / b {
      assert a * b <= (c / b) * b <= c;
    }
  }

  /** Growth by a power of two leads from power to power, so the policy takes the next count as it is. */
  lemma NextIsPower(count: nat, mask: nat, k: nat)
    requires MaskOf(count, mask) && k > 0 && NextBucketCount(mask, Pow2(k)).Some?
    ensures IsPower(NextBucketCount(mask, Pow2(k)).value) && count < NextBucketCount(mask, Pow2(k)).value
  {
    if count == 0 {
      assert Pow2(k) == 2 * Pow2(k - 1);
    } else {
      var j: nat :| count == Pow2(j);
      Pow2Add(j, k);
      assert Pow2(k) == 2 * Pow2(k - 1);
      Doubles(count, Pow2(k - 1));
    }
  }

  lemma Doubles(count: nat, p: nat)
    requires count > 0 && p > 0
    ensures count < count * (2 * p)
  {
  }
}

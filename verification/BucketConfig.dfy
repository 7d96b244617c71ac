/** Choosing the bucket layout: validation, the two logarithms taken exactly,
    and the loop that counts the buckets needed to cover the highest value. */
module BucketConfig {
  import opened Bits
  import opened SlotIndex

  /** Exact value of floor(log2(x)). */
  function FloorLog2(x: nat): nat
    requires x > 0
  {
    BitLenBounds(x);
    BitLen(x) - 1
  }

  /** Exact value of ceil(log2(x)). */
  function CeilLog2(x: nat): nat
    requires x > 0
  {
    BitLen(x - 1)
  }

  /** The two powers of two around a number, from below and from above. */
  lemma LogBounds(x: nat)
    requires x > 0
    ensures Pow2(FloorLog2(x)) <= x < Pow2(FloorLog2(x) + 1)
    ensures x <= Pow2(CeilLog2(x)) && (if x == 1 then CeilLog2(x) == 0 else Pow2(CeilLog2(x) - 1) < x)
  {
    BitLenBounds(x);
    if x > 1 { BitLenBounds(x - 1); }
  }

  function HalfCountMagnitude(figures: nat): nat {
    var m := CeilLog2(2 * Pow10(figures));
    (if m > 1 then m else 1) - 1
  }

  /** The smallest number of buckets, at least one, whose range covers the value;
      the doubling bound never leaves the signed 64-bit range. */
  method BucketsNeeded(value: nat, subBucketCount: nat, unitMagnitude: nat, ghost h: nat) returns (n: nat)
    requires value <= INT64_MAX
    requires subBucketCount == Pow2(h + 1) && unitMagnitude + h <= 61
    ensures n >= 1 && unitMagnitude + h + n <= 63
    ensures value < Pow2(unitMagnitude + h + n)
    ensures n > 1 ==> Pow2(unitMagnitude + h + n - 1) <= value
  {
    var untrackable := Shl(subBucketCount, unitMagnitude);
    Pow2Add(h + 1, unitMagnitude);
    assert untrackable == Pow2(unitMagnitude + h + 1);
    n := 1;
    while untrackable <= value
      invariant n >= 1 && unitMagnitude + h + n <= 62
      invariant untrackable == Pow2(unitMagnitude + h + n)
      invariant n > 1 ==> Pow2(unitMagnitude + h + n - 1) <= value
      decreases 63 - n
    {
      TopExponent(unitMagnitude + h + n);
      if untrackable > INT64_MAX / 2 {
        return n + 1;
      }
      untrackable := Shl(untrackable, 1);
      n := n + 1;
    }
  }

  lemma TopExponent(e: nat)
    requires e <= 62
    ensures Pow2(e) > INT64_MAX / 2 <==> e == 62
    ensures e == 62 ==> Pow2(e + 1) == TWO_63
    ensures Pow2(e + 1) == Shl(Pow2(e), 1)
  {
    Pow2Constants();
    if e < 62 {
      Pow2Mono(e, 61);
      Pow2StrictMono(61, 62);
    }
    assert Pow2(1) == 2;
  }

  /** Rejects exactly the parameters the source rejects; otherwise the layout is
      valid and uses no more buckets than the highest value needs. */
  method CalculateBucketConfig(lowest: int, highest: int, figures: int) returns (r: Option<Config>)
    requires lowest <= INT64_MAX && highest <= INT64_MAX
    ensures r.None? <==>
            || lowest < 1 || figures < 1 || 5 < figures || lowest * 2 > highest
            || FloorLog2(lowest) + HalfCountMagnitude(figures) > 61
    ensures r.Some? ==>
            var c := r.value;
            && c.lowestTrackable == lowest && c.highestTrackable == highest && c.significantFigures == figures
            && (c.bucketCount > 1 ==> Limit(c) <= 2 * highest)
  {
    hide Valid, Pow2, Pow10, BitLen, Limit, Shl;
    if lowest < 1 || figures < 1 || 5 < figures || lowest * 2 > highest {
      return None;
    }
    var magnitude := CeilLog2(2 * Pow10(figures));
    var half := (if magnitude > 1 then magnitude else 1) - 1;
    FiguresMagnitude(figures);
    var unit := FloorLog2(lowest);
    var count := Pow2(half + 1);
    if unit + half > 61 {
      return None;
    }
    var buckets := BucketsNeeded(highest, count, unit, half);
    BitLenBounds(lowest);
    LayoutIsValid(lowest, highest, figures, unit, half, buckets);
    var c: Config := LayoutOf(lowest, highest, figures, unit, half, count, buckets);
    LimitNeeded(c, unit, half, buckets);
    r := Some(c);
  }

  function LayoutOf(lowest: nat, highest: nat, figures: nat, unit: nat, half: nat, count: nat, buckets: nat): Layout
    requires count > 0
  {
    Layout(lowest, highest, figures, unit, half, count, count / 2,
           Shl(count - 1, unit), buckets, (buckets + 1) * (count / 2))
  }

  lemma LayoutIsValid(lowest: nat, highest: nat, figures: nat, u: nat, h: nat, buckets: nat)
    requires 1 <= lowest && highest <= INT64_MAX && 1 <= figures <= 5 && buckets >= 1
    requires Pow2(u) <= lowest < Pow2(u + 1)
    requires Pow2(h) < 2 * Pow10(figures) <= Pow2(h + 1)
    requires u + h + buckets <= 63 && highest < Pow2(u + h + buckets)
    ensures Valid(LayoutOf(lowest, highest, figures, u, h, Pow2(h + 1), buckets))
  {
    assert Pow2(h + 1) / 2 == Pow2(h);
    MulMono(1, buckets + 1, Pow2(h));
  }

  lemma LimitNeeded(c: Config, u: nat, h: nat, n: nat)
    requires c.unitMagnitude == u && c.halfCountMagnitude == h && c.bucketCount == n
    requires n > 1 ==> Pow2(u + h + n - 1) <= c.highestTrackable
    ensures n > 1 ==> Limit(c) <= 2 * c.highestTrackable
  {
    LimitIsPow2(c);
    assert Pow2(u + h + n) == 2 * Pow2(u + h + n - 1);
  }

  /** The half count is the power of two just below 2 * 10^figures. */
  lemma FiguresMagnitude(figures: nat)
    requires figures >= 1
    ensures CeilLog2(2 * Pow10(figures)) > 1
    ensures var h := HalfCountMagnitude(figures);
            Pow2(h) < 2 * Pow10(figures) <= Pow2(h + 1)
  {
    hide Pow2, Pow10, BitLen;
    PowTenAtLeast(figures);
    LogBounds(2 * Pow10(figures));
    MoreThanTwo(2 * Pow10(figures));
  }

  lemma MoreThanTwo(x: nat)
    requires x > 2
    ensures CeilLog2(x) > 1
  {
    assert BitLen((x - 1) / 2) == 1 + BitLen((x - 1) / 2 / 2);
  }

  lemma PowTenAtLeast(n: nat)
    requires n >= 1
    ensures Pow10(n) >= 10
  {
  }

  /** The slot array is small enough for 32-bit slot numbers. */
  lemma CountsLenBound(c: Config)
    ensures 0 < c.countsLen < TWO_31
  {
    assert Pow10(5) == 100000;
    PowTenMono(c.significantFigures, 5);
    assert Pow2(8) == 256;
    Pow2Add(8, 8);
    Pow2Add(16, 2);
    assert Pow2(18) == 262144;
    if c.halfCountMagnitude > 17 {
      Pow2Mono(18, c.halfCountMagnitude);
    }
    Pow2Mono(c.halfCountMagnitude, 17);
    MulMono(c.bucketCount + 1, 64, c.halfCount);
  }
}

/** Bucket layout of the HDR histogram and the log-linear map from values to
    slots. Values are 63-bit naturals; every shift, mask and leading-zero count
    of the source is kept, on mathematical integers. */
module SlotIndex {
  import opened Bits

  datatype Layout = Layout(
    lowestTrackable: nat,
    highestTrackable: nat,
    significantFigures: nat,
    unitMagnitude: nat,
    halfCountMagnitude: nat,
    subBucketCount: nat,
    halfCount: nat,
    subBucketMask: nat,
    bucketCount: nat,
    countsLen: nat)

  datatype Option<+T> = None | Some(value: T)

  function Pow10(n: nat): (r: nat)
    ensures r > 0
  {
    if n == 0 then 1 else 10 * Pow10(n - 1)
  }

  lemma {:induction false} PowTenMono(a: nat, b: nat)
    requires a <= b
    ensures Pow10(a) <= Pow10(b)
  {
    if a < b {
      PowTenMono(a, b - 1);
    }
  }

  /** What every configuration produced by CalculateBucketConfig satisfies. */
  ghost predicate Valid(c: Layout) {
    && 1 <= c.lowestTrackable
    && c.highestTrackable <= INT64_MAX
    && 1 <= c.significantFigures <= 5
    // the largest power of two not above the lowest trackable value
    && Pow2(c.unitMagnitude) <= c.lowestTrackable < Pow2(c.unitMagnitude + 1)
    // the smallest power of two covering 2 * 10^figures
    && Pow2(c.halfCountMagnitude) < 2 * Pow10(c.significantFigures) <= Pow2(c.halfCountMagnitude + 1)
    && c.subBucketCount == Pow2(c.halfCountMagnitude + 1)
    && c.halfCount == Pow2(c.halfCountMagnitude)
    && c.subBucketMask == Shl(c.subBucketCount - 1, c.unitMagnitude)
    && c.bucketCount >= 1
    && c.unitMagnitude + c.halfCountMagnitude + c.bucketCount <= 63
    && c.highestTrackable < Pow2(c.unitMagnitude + c.halfCountMagnitude + c.bucketCount)
    && c.countsLen == (c.bucketCount + 1) * c.halfCount > 0
  }

  /** The layout of an accepted configuration. */
  type Config = c: Layout | Valid(c)
    ghost witness Smallest()

  /** The layout for lowest 1, highest 2 and one significant figure. */
  ghost function Smallest(): Layout {
    Layout(1, 2, 1, 0, 4, 32, 16, 31, 1, 32)
  }

  /** One past the largest recordable value. */
  function Limit(c: Config): nat {
    c.subBucketCount * Pow2(c.unitMagnitude + (c.bucketCount - 1))
  }

  // ----- index arithmetic, function by function as in the source -----

  function BucketIndex(c: Config, v: nat): nat {
    BucketIndexBound(c, v);
    BitLen(BitOr(v, c.subBucketMask)) - c.unitMagnitude - (c.halfCountMagnitude + 1)
  }

  function SubBucketIndex(v: nat, bucket: nat, unitMagnitude: nat): nat {
    Shr(v, bucket + unitMagnitude)
  }

  function CountsIndex(c: Config, bucket: nat, sub: nat): int {
    Shl(bucket + 1, c.halfCountMagnitude) + (sub - c.halfCount)
  }

  function ValueFromIndex(bucket: nat, sub: nat, unitMagnitude: nat): nat {
    Shl(sub, bucket + unitMagnitude)
  }

  function IndexFor(c: Config, v: nat): (i: nat) {
    var b := BucketIndex(c, v);
    var sub := SubBucketIndex(v, b, c.unitMagnitude);
    Located(c, v);
    CountsIndex(c, b, sub)
  }

  function ValueAtIndex(c: Config, i: nat): nat {
    var b := Shr(i, c.halfCountMagnitude) - 1;
    var sub := BitAnd(i, c.halfCount - 1) + c.halfCount;
    if b < 0 then ValueFromIndex(0, sub - c.halfCount, c.unitMagnitude)
    else ValueFromIndex(b, sub, c.unitMagnitude)
  }

  function SizeOfEquivalentRange(c: Config, v: nat): nat {
    var b := BucketIndex(c, v);
    var sub := SubBucketIndex(v, b, c.unitMagnitude);
    var adjusted := if sub >= c.subBucketCount then b + 1 else b;
    Shl(1, c.unitMagnitude + adjusted)
  }

  function LowestEquivalent(c: Config, v: nat): nat {
    var b := BucketIndex(c, v);
    var sub := SubBucketIndex(v, b, c.unitMagnitude);
    ValueFromIndex(b, sub, c.unitMagnitude)
  }

  function NextNonEquivalent(c: Config, v: nat): nat {
    LowestEquivalent(c, v) + SizeOfEquivalentRange(c, v)
  }

  function HighestEquivalent(c: Config, v: nat): int {
    NextNonEquivalent(c, v) - 1
  }

  // ----- how the pieces fit -----

  lemma MaskBits(c: Config)
    ensures BitLen(c.subBucketMask) == c.unitMagnitude + c.halfCountMagnitude + 1
  {
    var u, h := Pow2(c.unitMagnitude), c.halfCountMagnitude;
    Pow2Add(h, c.unitMagnitude);
    Pow2Add(h + 1, c.unitMagnitude);
    assert Pow2(h + 1) == 2 * Pow2(h);
    MulMono(Pow2(h), Pow2(h + 1) - 1, u);
    MulStrictMono(Pow2(h + 1) - 1, Pow2(h + 1), u);
    BitLenUnique(c.subBucketMask, h + c.unitMagnitude);
  }

  lemma BucketIndexBound(c: Config, v: nat)
    ensures BitLen(BitOr(v, c.subBucketMask)) >= c.unitMagnitude + c.halfCountMagnitude + 1
  {
    MaskBits(c);
    BitLenOr(v, c.subBucketMask);
  }

  /** The sub-bucket of a value fits its bucket: the upper half of a bucket is
      used from bucket 1 on, and the value lies in the sub-bucket's range. */
  lemma Located(c: Config, v: nat)
    ensures var b := BucketIndex(c, v); var sub := SubBucketIndex(v, b, c.unitMagnitude);
            && sub < c.subBucketCount
            && (b > 0 ==> sub >= c.halfCount)
            && CountsIndex(c, b, sub) == b * c.halfCount + sub
            && LowestValue(c, b, sub) <= v < LowestValue(c, b, sub + 1)
  {
    var b := BucketIndex(c, v);
    var w := Pow2(b + c.unitMagnitude);
    ValueBracket(c, v);
    Quotient(v, w, c.halfCount, b > 0);
    MulSucc(b, c.halfCount);
  }

  /** The leading-zero count places a value within its bucket. */
  lemma ValueBracket(c: Config, v: nat)
    ensures var b := BucketIndex(c, v); var w := Pow2(b + c.unitMagnitude);
            && c.subBucketCount == 2 * c.halfCount
            && v < 2 * c.halfCount * w
            && (b > 0 ==> c.halfCount * w <= v)
  {
    var u, h := c.unitMagnitude, c.halfCountMagnitude;
    var b := BucketIndex(c, v);
    MaskBits(c);
    BitLenOr(v, c.subBucketMask);
    BitLenBounds(v);
    Pow2Add(h + 1, b + u);
    Pow2Add(h, b + u);
    Pow2Mono(BitLen(v), h + 1 + (b + u));
    assert Pow2(h + 1) == 2 * Pow2(h);
    if b > 0 {
      assert BitLen(v) == h + 1 + (b + u);
      assert BitLen(v) - 1 == h + (b + u);
    }
  }

  lemma Quotient(v: nat, w: nat, half: nat, upper: bool)
    requires w > 0 && v < 2 * half * w && (upper ==> half * w <= v)
    ensures v / w < 2 * half && (upper ==> v / w >= half)
    ensures v / w * w <= v < (v / w + 1) * w
  {
    var q := v / w;
    DivMod(v, w);
    assert (q + 1) * w == q * w + w;
    if q >= 2 * half {
      MulMono(2 * half, q, w);
    }
    if upper && q < half {
      MulMono(q + 1, half, w);
    }
  }

  function LowestValue(c: Config, b: nat, sub: nat): nat {
    sub * Pow2(b + c.unitMagnitude)
  }

  lemma NatSlot(b: nat, half: nat, sub: nat)
    ensures b * half + sub >= 0
  {
    MulMono(0, b, half);
  }

  lemma HalfIsPow2(c: Config)
    ensures c.halfCount == Pow2(c.halfCountMagnitude) && c.subBucketCount == 2 * c.halfCount
  {
    HalfOfCount(c);
  }

  /** The quotient and remainder of a slot number by the half count. */
  lemma SlotQuotient(b: nat, half: nat, sub: nat)
    requires half > 0 && sub < 2 * half && (b > 0 ==> sub >= half)
    ensures b * half + sub >= 0
    ensures sub < half ==> b == 0 && (b * half + sub) / half == 0 && (b * half + sub) % half == sub
    ensures sub >= half ==> (b * half + sub) / half == b + 1 && (b * half + sub) % half == sub - half
  {
    MulMono(0, b, half);
    if sub < half {
      DivModUnique(sub, half, 0, sub);
    } else {
      MulSucc(b, half);
      DivModUnique(b * half + sub, half, b + 1, sub - half);
    }
  }

  /** Slot numbers decode to the bucket and sub-bucket they were made from. */
  lemma ValueAtSlot(c: Config, b: nat, sub: nat)
    requires sub < c.subBucketCount && (b > 0 ==> sub >= c.halfCount)
    ensures b * c.halfCount + sub >= 0 && ValueAtIndex(c, b * c.halfCount + sub) == LowestValue(c, b, sub)
  {
    hide Valid, Pow2, BitAnd;
    HalfIsPow2(c);
    SlotQuotient(b, c.halfCount, sub);
    AndMask(b * c.halfCount + sub, c.halfCountMagnitude);
  }

  /** Every slot number arises from exactly this bucket and sub-bucket. */
  function SlotBucket(c: Config, i: nat): nat {
    if i < c.halfCount then 0 else QuotientPositive(i, c.halfCount); i / c.halfCount - 1
  }

  lemma SlotParts(c: Config, i: nat) returns (b: nat, sub: nat)
    ensures b == SlotBucket(c, i)
    ensures sub < c.subBucketCount && (b > 0 ==> sub >= c.halfCount)
    ensures i == b * c.halfCount + sub
    ensures ValueAtIndex(c, i) == LowestValue(c, b, sub)
  {
    HalfOfCount(c);
    b := SlotBucket(c, i);
    if i < c.halfCount {
      sub := i;
    } else {
      QuotientPositive(i, c.halfCount);
      sub := i % c.halfCount + c.halfCount;
    }
    ValueAtSlot(c, b, sub);
  }

  lemma HalfOfCount(c: Config)
    ensures c.subBucketCount == 2 * c.halfCount
  {
    assert Pow2(c.halfCountMagnitude + 1) == 2 * Pow2(c.halfCountMagnitude);
  }

  lemma QuotientPositive(i: nat, h: nat)
    requires 0 < h <= i
    ensures i / h >= 1 && i == (i / h - 1) * h + (i % h + h) && 0 <= i % h < h
  {
    DivMod(i, h);
    if i / h <= 0 {
      MulMono(i / h, 0, h);
    }
    assert (i / h - 1) * h == i / h * h - h;
  }

  /** Slots are adjacent: the next slot starts where this one ends. */
  lemma NextSlot(c: Config, i: nat)
    ensures ValueAtIndex(c, i + 1) == ValueAtIndex(c, i) + Pow2(SlotBucket(c, i) + c.unitMagnitude)
  {
    var b, sub := SlotParts(c, i);
    if sub + 1 < c.subBucketCount {
      ValueAtSlot(c, b, sub + 1);
      LowestValueStep(c, b, sub);
    } else {
      HalfOfCount(c);
      MulSucc(b, c.halfCount);
      assert ValueAtIndex(c, i + 1) == LowestValue(c, b + 1, c.halfCount) by {
        ValueAtSlot(c, b + 1, c.halfCount);
      }
      LowestValueStep(c, b, sub);
      BucketBoundary(c, b);
    }
  }

  lemma LowestValueStep(c: Config, b: nat, sub: nat)
    ensures LowestValue(c, b, sub + 1) == LowestValue(c, b, sub) + Pow2(b + c.unitMagnitude)
  {
  }

  /** The first half-full position of a bucket is the end of the one before. */
  lemma BucketBoundary(c: Config, b: nat)
    ensures LowestValue(c, b + 1, c.halfCount) == LowestValue(c, b, c.subBucketCount)
  {
    HalfOfCount(c);
    var w := Pow2(b + c.unitMagnitude);
    assert Pow2(b + 1 + c.unitMagnitude) == 2 * w;
    MulAssoc(c.halfCount, 2, w);
  }

  lemma {:induction false} ValueAtIndexMonotone(c: Config, i: nat, j: nat)
    requires i < j
    ensures ValueAtIndex(c, i) < ValueAtIndex(c, j)
    decreases j
  {
    NextSlot(c, j - 1);
    if i < j - 1 {
      ValueAtIndexMonotone(c, i, j - 1);
    }
  }

  // ----- main results -----

  /** The index of a value is the one slot whose range contains it: the slots
      partition the naturals and the index is determined by the partition. */
  lemma IndexCharacterization(c: Config, v: nat, i: nat)
    ensures IndexFor(c, v) == i <==> ValueAtIndex(c, i) <= v < ValueAtIndex(c, i + 1)
  {
    hide Valid, Pow2, ValueAtIndex, BucketIndex, SubBucketIndex, CountsIndex, SlotBucket, LowestValue;
    var b := BucketIndex(c, v);
    var sub := SubBucketIndex(v, b, c.unitMagnitude);
    Located(c, v);
    NatSlot(b, c.halfCount, sub);
    var j := b * c.halfCount + sub;
    assert IndexFor(c, v) == j;
    ValueAtSlot(c, b, sub);
    SlotOfParts(c, b, sub);
    NextSlot(c, j);
    LowestValueStep(c, b, sub);
    if i < j {
      if i + 1 < j { ValueAtIndexMonotone(c, i + 1, j); }
    } else if j < i {
      if j + 1 < i { ValueAtIndexMonotone(c, j + 1, i); }
    }
  }

  lemma SlotOfParts(c: Config, b: nat, sub: nat)
    requires sub < c.subBucketCount && (b > 0 ==> sub >= c.halfCount)
    ensures b * c.halfCount + sub >= 0 && SlotBucket(c, b * c.halfCount + sub) == b
  {
    hide Valid, Pow2;
    HalfIsPow2(c);
    SlotQuotient(b, c.halfCount, sub);
    MulMono(0, b, c.halfCount);
  }

  /** Looking up a slot's lowest value gives the slot back. */
  lemma IndexOfValueAt(c: Config, i: nat)
    ensures IndexFor(c, ValueAtIndex(c, i)) == i
  {
    ValueAtIndexMonotone(c, i, i + 1);
    IndexCharacterization(c, ValueAtIndex(c, i), i);
  }

  lemma IndexMonotone(c: Config, v: nat, w: nat)
    requires v <= w
    ensures IndexFor(c, v) <= IndexFor(c, w)
  {
    var i, j := IndexFor(c, v), IndexFor(c, w);
    IndexCharacterization(c, v, i);
    IndexCharacterization(c, w, j);
    if j < i && j + 1 < i {
      ValueAtIndexMonotone(c, j + 1, i);
    }
  }

  /** The equivalent range of a value is exactly its slot; the branch that
      adjusts the bucket upwards is never taken. */
  lemma EquivalentRange(c: Config, v: nat)
    ensures var i := IndexFor(c, v);
            && LowestEquivalent(c, v) == ValueAtIndex(c, i)
            && NextNonEquivalent(c, v) == ValueAtIndex(c, i + 1)
            && SizeOfEquivalentRange(c, v) == Pow2(SlotBucket(c, i) + c.unitMagnitude)
            && SubBucketIndex(v, BucketIndex(c, v), c.unitMagnitude) < c.subBucketCount
            && LowestEquivalent(c, v) <= v <= HighestEquivalent(c, v)
  {
    var b := BucketIndex(c, v);
    var sub := SubBucketIndex(v, b, c.unitMagnitude);
    Located(c, v);
    var i := b * c.halfCount + sub;
    ValueAtSlot(c, b, sub);
    SlotOfParts(c, b, sub);
    NextSlot(c, i);
    IndexCharacterization(c, v, i);
    assert c.unitMagnitude + b == b + c.unitMagnitude;
  }

  lemma SameSlotSameRange(c: Config, v: nat, w: nat)
    requires IndexFor(c, v) == IndexFor(c, w)
    ensures LowestEquivalent(c, v) == LowestEquivalent(c, w)
    ensures HighestEquivalent(c, v) == HighestEquivalent(c, w)
  {
    EquivalentRange(c, v);
    EquivalentRange(c, w);
  }

  /** Two values are equivalent exactly when they share a slot. */
  lemma EquivalentIffSameSlot(c: Config, v: nat, w: nat)
    ensures LowestEquivalent(c, v) == LowestEquivalent(c, w) <==> IndexFor(c, v) == IndexFor(c, w)
  {
    EquivalentRange(c, v);
    EquivalentRange(c, w);
    var i, j := IndexFor(c, v), IndexFor(c, w);
    if i < j {
      ValueAtIndexMonotone(c, i, j);
    } else if j < i {
      ValueAtIndexMonotone(c, j, i);
    }
  }

  /** The slot array ends at Limit, a power of two no larger than 2^63. */
  lemma SlotsEndAtLimit(c: Config)
    ensures ValueAtIndex(c, c.countsLen) == Limit(c) <= TWO_63
    ensures c.highestTrackable < Limit(c)
  {
    HalfOfCount(c);
    MulSucc(c.bucketCount, c.halfCount);
    assert ValueAtIndex(c, c.countsLen) == LowestValue(c, c.bucketCount, c.halfCount) by {
      ValueAtSlot(c, c.bucketCount, c.halfCount);
    }
    BucketBoundary(c, c.bucketCount - 1);
    assert c.bucketCount - 1 + c.unitMagnitude == c.unitMagnitude + (c.bucketCount - 1);
    LimitIsPow2(c);
  }

  lemma LimitIsPow2(c: Config)
    ensures Limit(c) == Pow2(c.unitMagnitude + c.halfCountMagnitude + c.bucketCount) <= TWO_63
  {
    var u, h, n := c.unitMagnitude, c.halfCountMagnitude, c.bucketCount;
    Pow2Add(h + 1, u + (n - 1));
    assert h + 1 + (u + (n - 1)) == u + h + n;
    Pow2Mono(u + h + n, 63);
    Pow2Constants();
  }

  /** A value is recordable exactly below Limit, which covers the configured
      highest trackable value. */
  lemma AcceptedIff(c: Config, v: nat)
    ensures IndexFor(c, v) < c.countsLen <==> v < Limit(c)
    ensures v <= c.highestTrackable ==> IndexFor(c, v) < c.countsLen
  {
    SlotsEndAtLimit(c);
    var i := IndexFor(c, v);
    IndexCharacterization(c, v, i);
    if i + 1 < c.countsLen {
      ValueAtIndexMonotone(c, i + 1, c.countsLen);
    } else if c.countsLen < i {
      ValueAtIndexMonotone(c, c.countsLen, i);
    }
  }

  /** Every derived quantity of a recordable value fits a signed 64-bit word;
      only the first value past the top slot may be exactly 2^63. */
  lemma FitsInt64(c: Config, v: nat)
    requires v < Limit(c)
    ensures LowestEquivalent(c, v) <= v <= HighestEquivalent(c, v) <= INT64_MAX
    ensures NextNonEquivalent(c, v) <= TWO_63
  {
    AcceptedIff(c, v);
    EquivalentRange(c, v);
    SlotsEndAtLimit(c);
    var i := IndexFor(c, v);
    if i + 1 < c.countsLen {
      ValueAtIndexMonotone(c, i + 1, c.countsLen);
    }
  }

  lemma AtLeastFigures(c: Config)
    ensures Pow10(c.significantFigures) <= c.halfCount
  {
    HalfOfCount(c);
  }

  lemma UnitBelowLowest(c: Config)
    ensures Pow2(c.unitMagnitude) <= c.lowestTrackable
  {
  }

  /** The precision the histogram promises: a slot is no wider than the lowest
      trackable value, or than one part in 10^figures of any value in it. */
  lemma Precision(c: Config, v: nat)
    ensures var w := SizeOfEquivalentRange(c, v);
            || (w == Pow2(c.unitMagnitude) && w <= c.lowestTrackable)
            || w * Pow10(c.significantFigures) <= v
  {
    var b := BucketIndex(c, v);
    var sub := SubBucketIndex(v, b, c.unitMagnitude);
    Located(c, v);
    assert SizeOfEquivalentRange(c, v) == Pow2(b + c.unitMagnitude) by {
      assert c.unitMagnitude + b == b + c.unitMagnitude;
    }
    if b > 0 {
      AtLeastFigures(c);
      MulMono(Pow10(c.significantFigures), sub, Pow2(b + c.unitMagnitude));
    } else {
      UnitBelowLowest(c);
    }
  }
}

/** Percentile lookup and the counters rebuilt from the slots: how they agree
    with the recorded values and with each other. */
module Percentile {
  import opened Bits
  import opened SlotIndex
  import opened HistogramState

  /** The first slot at which the running total reaches k, or -1. */
  function FirstReaching(xs: seq<int>, k: int): (i: int)
    ensures -1 <= i < |xs|
  {
    if xs == [] then -1
    else
      var f := FirstReaching(xs[..|xs| - 1], k);
      if f >= 0 then f else if Sum(xs) >= k then |xs| - 1 else -1
  }

  /** The rank a percentile asks for, rounded to nearest and at least 1. */
  function Rank(percentile: real, total: nat): int {
    var requested := if percentile < 100.0 then percentile else 100.0;
    var k := (requested / 100.0 * total as real + 0.5).Floor;
    if k > 1 then k else 1
  }

  function ValueAtRank(c: Config, s: State, k: int): int {
    var i := FirstReaching(s.counts, k);
    if i < 0 then 0 else HighestEquivalent(c, ValueAtIndex(c, i))
  }

  lemma {:induction false} FirstReachingMeaning(xs: seq<int>, k: int)
    requires k >= 1
    ensures var i := FirstReaching(xs, k);
            && (i >= 0 ==> Sum(xs[..i]) < k <= Sum(xs[..i + 1]))
            && (i < 0 ==> Sum(xs) < k)
  {
    if xs != [] {
      var n := |xs| - 1;
      var f := FirstReaching(xs[..n], k);
      FirstReachingMeaning(xs[..n], k);
      if f >= 0 {
        assert xs[..n][..f] == xs[..f] && xs[..n][..f + 1] == xs[..f + 1];
      } else {
        assert xs[..n + 1] == xs;
      }
    }
  }

  lemma RankInRange(percentile: real, total: nat)
    ensures 1 <= Rank(percentile, total)
    ensures total >= 1 ==> Rank(percentile, total) <= total
  {
    var requested := if percentile < 100.0 then percentile else 100.0;
    RealMulMono(requested / 100.0, 1.0, total as real);
  }

  /** The rank is the whole number nearest to the percentile's share of the total,
      halves upwards, never below one; from the hundredth percentile on it is the total. */
  lemma RankIsNearest(percentile: real, total: nat)
    ensures var share := (if percentile < 100.0 then percentile else 100.0) / 100.0 * total as real;
            var k := Rank(percentile, total);
            if share >= 0.5 then k >= 1 && k as real - 0.5 <= share < k as real + 0.5 else k == 1
    ensures percentile >= 100.0 && total >= 1 ==> Rank(percentile, total) == total
  {
  }

  lemma RealMulMono(a: real, b: real, c: real)
    requires a <= b && c >= 0.0
    ensures a * c <= b * c
  {
  }

  lemma RankMonotone(p: real, q: real, total: nat)
    requires p <= q
    ensures Rank(p, total) <= Rank(q, total)
  {
    var a := if p < 100.0 then p else 100.0;
    var b := if q < 100.0 then q else 100.0;
    RealMulMono(a / 100.0, b / 100.0, total as real);
  }

  /** The percentile lookup returns the highest equivalent of the value of that
      rank in the sorted list of everything recorded; 0 when nothing was. */
  lemma PercentileIsRankedValue(c: Config, s: State, rec: seq<nat>, sorted: seq<nat>, percentile: real)
    requires Represents(c, s, rec)
    requires Sorted(sorted) && multiset(sorted) == multiset(rec)
    ensures |sorted| == |rec| == s.total
    ensures var k := Rank(percentile, s.total);
            if rec == [] then ValueAtRank(c, s, k) == 0
            else 1 <= k <= |sorted| && ValueAtRank(c, s, k) == HighestEquivalent(c, sorted[k - 1])
  {
    hide IndexFor, HighestEquivalent, LowestEquivalent, NextNonEquivalent, ValueAtIndex, Limit;
    var k := Rank(percentile, s.total);
    assert |multiset(sorted)| == |sorted| && |multiset(rec)| == |rec|;
    RankInRange(percentile, s.total);
    FirstReachingMeaning(s.counts, k);
    TotalIsSum(c, s, rec);
    var i := FirstReaching(s.counts, k);
    if rec == [] {
      if i >= 0 {
        RunningTotal(c, s, rec, i + 1);
      }
    } else {
      RankSlot(c, s, rec, sorted, k, i);
    }
  }

  /** A higher percentile never reports a lower value. */
  lemma PercentileMonotone(c: Config, s: State, rec: seq<nat>, sorted: seq<nat>, p: real, q: real)
    requires Represents(c, s, rec)
    requires Sorted(sorted) && multiset(sorted) == multiset(rec)
    requires p <= q
    ensures s.total >= 0 && ValueAtRank(c, s, Rank(p, s.total)) <= ValueAtRank(c, s, Rank(q, s.total))
  {
    hide HighestEquivalent, ValueAtIndex, ValueAtRank, Limit;
    PercentileIsRankedValue(c, s, rec, sorted, p);
    PercentileIsRankedValue(c, s, rec, sorted, q);
    RankMonotone(p, q, s.total);
    if rec != [] {
      HighestMonotone(c, sorted[Rank(p, s.total) - 1], sorted[Rank(q, s.total) - 1]);
    }
  }

  lemma HighestMonotone(c: Config, v: nat, w: nat)
    requires v <= w
    ensures HighestEquivalent(c, v) <= HighestEquivalent(c, w)
  {
    hide IndexFor, ValueAtIndex;
    EquivalentRange(c, v);
    EquivalentRange(c, w);
    IndexMonotone(c, v, w);
    var i, j := IndexFor(c, v), IndexFor(c, w);
    if i < j {
      ValueAtIndexMonotone(c, i + 1, j + 1);
    }
  }

  // ----- counters rebuilt from the slots -----

  /** The last slot with a positive count, or -1. */
  function LastUsed(xs: seq<int>): (i: int)
    ensures -1 <= i < |xs|
    ensures i >= 0 ==> xs[i] > 0
    ensures forall j :: i < j < |xs| ==> xs[j] <= 0
  {
    if xs == [] then -1
    else if xs[|xs| - 1] > 0 then |xs| - 1
    else LastUsed(xs[..|xs| - 1])
  }

  /** The first slot after slot 0 with a positive count, or -1. */
  function FirstUsed(xs: seq<int>): (i: int)
    ensures i == -1 || 1 <= i < |xs|
    ensures i >= 0 ==> xs[i] > 0 && forall j :: 1 <= j < i ==> xs[j] <= 0
    ensures i < 0 ==> forall j :: 1 <= j < |xs| ==> xs[j] <= 0
  {
    if |xs| <= 1 then -1
    else
      var f := FirstUsed(xs[..|xs| - 1]);
      if f >= 0 then f else if xs[|xs| - 1] > 0 then |xs| - 1 else -1
  }

  function PositiveSum(xs: seq<int>): int {
    if xs == [] then 0
    else PositiveSum(xs[..|xs| - 1]) + (if xs[|xs| - 1] > 0 then xs[|xs| - 1] else 0)
  }

  /** The counters recomputed from the slots alone. */
  function Rebuild(c: Config, counts: seq<int>): State {
    var last, first := LastUsed(counts), FirstUsed(counts);
    State(counts, PositiveSum(counts),
          if first < 0 then INT64_MAX else ValueAtIndex(c, first),
          if last < 0 then 0 else HighestEquivalent(c, ValueAtIndex(c, last)))
  }

  /** Counters and slots tell one story: the total is the sum, and the extremes
      lie in the first and last used slots. */
  ghost predicate Consistent(c: Config, s: State) {
    && |s.counts| == c.countsLen
    && (forall i :: 0 <= i < |s.counts| ==> s.counts[i] >= 0)
    && s.total == Sum(s.counts)
    && 0 <= s.maxValue < Limit(c)
    && (if LastUsed(s.counts) < 0 then s.maxValue == 0 else IndexFor(c, s.maxValue) == LastUsed(s.counts))
    && 0 <= s.minValue <= INT64_MAX
    && (s.counts[0] == 0 ==>
          if LastUsed(s.counts) < 0 then s.minValue == INT64_MAX
          else s.minValue < Limit(c) && IndexFor(c, s.minValue) == FirstUsed(s.counts))
  }

  lemma {:induction false} PositiveSumIsSum(xs: seq<int>)
    requires forall i :: 0 <= i < |xs| ==> xs[i] >= 0
    ensures PositiveSum(xs) == Sum(xs) >= 0
    ensures LastUsed(xs) < 0 <==> Sum(xs) == 0
  {
    if xs != [] {
      PositiveSumIsSum(xs[..|xs| - 1]);
    }
  }

  lemma RepresentsIsConsistent(c: Config, s: State, rec: seq<nat>)
    requires Represents(c, s, rec)
    ensures Consistent(c, s)
  {
    hide IndexFor, Limit;
    TotalIsSum(c, s, rec);
    LimitIsPow2(c);
    PositiveSumIsSum(s.counts);
    ZeroRecordable(c);
    if rec != [] {
      UsedSlots(c, s, rec, rec[0]);
      LastSlotOfMax(c, s, rec);
      if s.counts[0] == 0 {
        FirstSlotOfMin(c, s, rec);
      }
    } else {
      assert Slots(c, rec) == [];
      assert LastUsed(s.counts) < 0;
    }
  }

  lemma ZeroRecordable(c: Config)
    ensures 0 < Limit(c)
  {
    LimitIsPow2(c);
  }

  /** A recorded value's slot is used, and every used slot holds a recorded value. */
  lemma UsedSlots(c: Config, s: State, rec: seq<nat>, v: nat)
    requires Represents(c, s, rec) && v in rec
    ensures IndexFor(c, v) < c.countsLen && s.counts[IndexFor(c, v)] > 0
  {
    hide IndexFor, Limit;
    AcceptedIff(c, v);
    InSlots(c, rec, v);
  }

  lemma SlotHolder(c: Config, s: State, rec: seq<nat>, i: nat) returns (v: nat)
    requires Represents(c, s, rec) && i < c.countsLen && s.counts[i] > 0
    ensures v in rec && IndexFor(c, v) == i
  {
    hide IndexFor, Limit;
    assert i in multiset(Slots(c, rec));
    var k :| 0 <= k < |rec| && Slots(c, rec)[k] == i;
    v := rec[k];
  }

  lemma LastSlotOfMax(c: Config, s: State, rec: seq<nat>)
    requires Represents(c, s, rec) && rec != []
    ensures IndexFor(c, s.maxValue) == LastUsed(s.counts) >= 0
    ensures s.maxValue < Limit(c)
  {
    hide IndexFor, Limit;
    UsedSlots(c, s, rec, rec[0]);
    var i := LastUsed(s.counts);
    var v := SlotHolder(c, s, rec, i);
    ZeroRecordable(c);
    IndexMonotone(c, v, s.maxValue);
    if s.maxValue in rec {
      UsedSlots(c, s, rec, s.maxValue);
    }
  }

  lemma FirstSlotOfMin(c: Config, s: State, rec: seq<nat>)
    requires Represents(c, s, rec) && rec != [] && s.counts[0] == 0
    ensures 0 <= s.minValue < Limit(c) && IndexFor(c, s.minValue) == FirstUsed(s.counts)
  {
    hide IndexFor, Limit;
    LimitIsPow2(c);
    ZeroInSlotZero(c);
    UsedSlots(c, s, rec, rec[0]);
    assert rec[0] != 0;
    var i := FirstUsed(s.counts);
    assert i > 0;
    var v := SlotHolder(c, s, rec, i);
    assert v != 0;
    assert s.minValue <= v && s.minValue in rec;
    IndexMonotone(c, s.minValue, v);
    UsedSlots(c, s, rec, s.minValue);
  }

  lemma RebuildIsConsistent(c: Config, counts: seq<int>)
    requires |counts| == c.countsLen && forall i :: 0 <= i < |counts| ==> counts[i] >= 0
    ensures Consistent(c, Rebuild(c, counts))
  {
    hide IndexFor, ValueAtIndex, HighestEquivalent, Limit;
    PositiveSumIsSum(counts);
    ZeroRecordable(c);
    LimitIsPow2(c);
    var last, first := LastUsed(counts), FirstUsed(counts);
    if last >= 0 {
      TopOfSlot(c, last);
    }
    if first >= 0 {
      TopOfSlot(c, first);
    }
  }

  /** The lowest and highest values of a slot belong to it and are recordable. */
  lemma TopOfSlot(c: Config, i: nat)
    requires i < c.countsLen
    ensures 0 <= ValueAtIndex(c, i) <= HighestEquivalent(c, ValueAtIndex(c, i)) < Limit(c)
    ensures IndexFor(c, ValueAtIndex(c, i)) == i
    ensures IndexFor(c, HighestEquivalent(c, ValueAtIndex(c, i))) == i
    ensures i > 0 ==> 0 < ValueAtIndex(c, i)
  {
    hide IndexFor, ValueAtIndex, Limit;
    IndexOfValueAt(c, i);
    EquivalentRange(c, ValueAtIndex(c, i));
    IndexCharacterization(c, ValueAtIndex(c, i + 1) - 1, i);
    AcceptedIff(c, ValueAtIndex(c, i + 1) - 1);
    if i > 0 {
      ValueAtIndexMonotone(c, 0, i);
    }
  }

  /** Slot 0 is a single value exactly when the unit magnitude is 0. */
  lemma SlotZeroTop(c: Config)
    ensures HighestEquivalent(c, 0) == Pow2(c.unitMagnitude) - 1
    ensures HighestEquivalent(c, 0) == 0 <==> c.unitMagnitude == 0
  {
    hide IndexFor, ValueAtIndex;
    ZeroInSlotZero(c);
    EquivalentRange(c, 0);
    NextSlot(c, 0);
    assert SlotBucket(c, 0) == 0;
    if c.unitMagnitude > 0 {
      Pow2Mono(1, c.unitMagnitude);
    }
  }

  /** Rebuilding the counters keeps the reported maximum, except that a histogram
      holding only zeros reports the top of slot 0 afterwards. */
  lemma RebuildKeepsMax(c: Config, s: State)
    requires Consistent(c, s)
    ensures Rebuild(c, s.counts).maxValue >= 0
    ensures Max(c, Rebuild(c, s.counts)) == Max(c, s) <==>
            s.total == 0 || c.unitMagnitude == 0 || s.maxValue > 0
  {
    hide IndexFor, ValueAtIndex, HighestEquivalent, LowestEquivalent, Limit;
    PositiveSumIsSum(s.counts);
    SlotZeroTop(c);
    var last := LastUsed(s.counts);
    if last >= 0 {
      var low := ValueAtIndex(c, last);
      var top := HighestEquivalent(c, low);
      TopOfSlot(c, last);
      SameSlotSameRange(c, top, low);
      SameSlotSameRange(c, s.maxValue, low);
    }
  }

  /** Rebuilding the counters keeps the reported minimum, except when the only
      values recorded were INT64_MAX, which then reports its slot's lowest value. */
  lemma RebuildKeepsMin(c: Config, s: State)
    requires Consistent(c, s)
    ensures Rebuild(c, s.counts).minValue >= 0
    ensures Min(c, Rebuild(c, s.counts)) == Min(c, s) <==>
            s.total == 0 || s.counts[0] > 0 || s.minValue < INT64_MAX
  {
    hide IndexFor, ValueAtIndex, HighestEquivalent, LowestEquivalent, Limit;
    PositiveSumIsSum(s.counts);
    var first := FirstUsed(s.counts);
    if s.counts[0] == 0 && LastUsed(s.counts) >= 0 {
      assert first > 0;
      var low := ValueAtIndex(c, first);
      TopOfSlot(c, first);
      LowestOfLowest(c, first);
      SlotValueBelowMax(c, first);
      SameSlotSameRange(c, s.minValue, low);
    }
  }

  lemma LowestOfLowest(c: Config, i: nat)
    ensures LowestEquivalent(c, ValueAtIndex(c, i)) == ValueAtIndex(c, i)
  {
    hide IndexFor, ValueAtIndex;
    IndexOfValueAt(c, i);
    EquivalentRange(c, ValueAtIndex(c, i));
  }

  lemma EvenProduct(a: nat, half: nat)
    ensures a * (2 * half) % 2 == 0
  {
    assert a * (2 * half) == 2 * (a * half);
  }

  /** No slot starts at INT64_MAX: wide slots start at even values. */
  lemma SlotValueBelowMax(c: Config, i: nat)
    requires i < c.countsLen
    ensures ValueAtIndex(c, i) < INT64_MAX
  {
    hide IndexFor, Limit, Valid, Pow2, ValueAtIndex, SlotBucket, HighestEquivalent;
    LimitIsPow2(c);
    TopOfSlot(c, i);
    var b, sub := SlotParts(c, i);
    var e := b + c.unitMagnitude;
    Pow2Halves(e);
    if e > 0 {
      EvenProduct(sub, Pow2(e - 1));
    } else {
      SubBucketsBelow(c);
    }
  }

  lemma SubBucketsBelow(c: Config)
    ensures c.subBucketCount < 400000
  {
    HalfOfCount(c);
    PowTenMono(c.significantFigures, 5);
    assert Pow10(5) == 100000;
  }

  /** The value at the rank of the whole total is the reported maximum exactly
      when a zero-only histogram cannot hide slot 0's width. */
  lemma LastRankIsMax(c: Config, s: State)
    requires Consistent(c, s)
    ensures ValueAtRank(c, s, if s.total > 1 then s.total else 1) == Max(c, s) <==>
            s.total == 0 || c.unitMagnitude == 0 || s.maxValue > 0
  {
    hide IndexFor, ValueAtIndex, HighestEquivalent, LowestEquivalent, Limit;
    PositiveSumIsSum(s.counts);
    var k := if s.total > 1 then s.total else 1;
    FirstReachingMeaning(s.counts, k);
    var last := LastUsed(s.counts);
    if last < 0 {
      ReachesLast(s.counts, k);
    } else {
      ReachesLast(s.counts, k);
      TopOfSlot(c, last);
      SameSlotSameRange(c, s.maxValue, ValueAtIndex(c, last));
      SlotZeroTop(c);
    }
  }

  /** The running total first reaches the whole total at the last used slot. */
  lemma {:induction false} ReachesLast(xs: seq<int>, k: int)
    requires forall i :: 0 <= i < |xs| ==> xs[i] >= 0
    requires k >= 1 && k >= Sum(xs)
    ensures FirstReaching(xs, k) == if k == Sum(xs) then LastUsed(xs) else -1
  {
    PositiveSumIsSum(xs);
    if xs != [] {
      var n := |xs| - 1;
      PositiveSumIsSum(xs[..n]);
      ReachesLast(xs[..n], k);
    }
  }

  // ----- histograms of a single value -----

  lemma RecordOne(c: Config, v: nat)
    requires v < Limit(c) && v <= INT64_MAX
    ensures var s := Record(c, Empty(c), v, 1);
            Consistent(c, s) && s.total == 1 && s.maxValue == v && s.minValue == (if v == 0 then INT64_MAX else v)
  {
    hide Limit, IndexFor, Consistent, Represents;
    EmptyRepresentsNothing(c);
    RecordAppends(c, Empty(c), [], v, 1);
    RepresentsIsConsistent(c, Record(c, Empty(c), v, 1), [] + Repeat(v, 1));
  }

  /** The largest value never falls into slot 0. */
  lemma LargestPastSlotZero(c: Config)
    ensures IndexFor(c, INT64_MAX) > 0
  {
    hide IndexFor, ValueAtIndex, HighestEquivalent, Valid, Pow2;
    ZeroInSlotZero(c);
    SlotZeroTop(c);
    UnitIsSmall(c);
    EquivalentRange(c, INT64_MAX);
    if IndexFor(c, INT64_MAX) == 0 {
      SameSlotSameRange(c, 0, INT64_MAX);
    }
  }

  lemma UnitIsSmall(c: Config)
    ensures Pow2(c.unitMagnitude) < TWO_63
  {
    Pow2Constants();
    Pow2Mono(c.unitMagnitude, 62);
  }
}

/** Walking the slots: the all-values and recorded iterators, and the operations
    built on them (percentile lookup and merging). */
module Iterators {
  import opened Bits
  import opened SlotIndex
  import opened HistogramState
  import opened Percentile
  import opened Histogram

  /** The slots are non-negative and the total is their sum. */
  ghost predicate Counted(h: Histogram)
    reads h, h.counts
  {
    && h.Valid()
    && (forall i :: 0 <= i < h.counts.Length ==> h.counts[i] >= 0)
    && h.total == Sum(h.counts[..])
  }

  lemma {:induction false} SumPrefixMono(xs: seq<int>, i: nat, j: nat)
    requires i <= j <= |xs| && forall k :: 0 <= k < |xs| ==> xs[k] >= 0
    ensures 0 <= Sum(xs[..i]) <= Sum(xs[..j])
    decreases j
  {
    if i < j {
      assert xs[..j][..j - 1] == xs[..j - 1];
      SumPrefixMono(xs, i, j - 1);
    } else if j > 0 {
      assert xs[..j][..j - 1] == xs[..j - 1];
      SumPrefixMono(xs, j - 1, j - 1);
    }
  }

  lemma SumPrefixStep(xs: seq<int>, i: nat)
    requires i < |xs|
    ensures Sum(xs[..i + 1]) == Sum(xs[..i]) + xs[i]
  {
    assert xs[..i + 1][..i] == xs[..i];
  }

  /** When a prefix already holds the whole sum, everything after it is zero. */
  lemma RestIsZero(xs: seq<int>, i: nat, j: nat)
    requires i <= j < |xs| && (forall k :: 0 <= k < |xs| ==> xs[k] >= 0) && Sum(xs[..i]) >= Sum(xs)
    ensures xs[j] == 0
  {
    SumPrefixMono(xs, i, j);
    SumPrefixMono(xs, j + 1, |xs|);
    SumPrefixStep(xs, j);
    assert xs[..|xs|] == xs;
  }

  class Iter {
    const h: Histogram
    var countsIndex: int
    var totalCount: int
    var count: int
    var cumulative: int
    var value: int

    /** The iterator stands at a slot (or before the first, or past the last)
        and has accumulated the counts up to and including it. */
    ghost predicate Valid()
      reads this, h, h.counts
    {
      && Counted(h)
      && -1 <= countsIndex <= h.counts.Length
      && totalCount == h.total
      && cumulative == Sum(h.counts[..Seen()])
      && (0 <= countsIndex < h.counts.Length ==>
            count == h.counts[countsIndex] && value == ValueAtIndex(h.c, countsIndex))
    }

    ghost function Seen(): nat
      reads this, h
      requires h.Valid() && -1 <= countsIndex <= h.counts.Length
    {
      if countsIndex < h.counts.Length then countsIndex + 1 else h.counts.Length
    }

    constructor (h: Histogram)
      requires Counted(h)
      ensures Valid() && this.h == h && countsIndex == -1 && cumulative == 0 && value == 0
    {
      this.h := h;
      countsIndex, totalCount, count, cumulative, value := -1, h.total, 0, 0, 0;
    }

    /** Steps to the next slot; at the end the slot number still advances once. */
    method MoveNext() returns (more: bool)
      requires Valid() && countsIndex < h.counts.Length
      modifies this
      ensures Valid() && totalCount == old(totalCount)
      ensures countsIndex == old(countsIndex) + 1
      ensures more <==> countsIndex < h.counts.Length
      ensures more ==> cumulative == old(cumulative) + count
      ensures !more ==> cumulative == old(cumulative) && value == old(value)
    {
      hide ValueAtIndex;
      countsIndex := countsIndex + 1;
      if countsIndex >= h.counts.Length {
        return false;
      }
      count := h.counts[countsIndex];
      SumPrefixStep(h.counts[..], countsIndex);
      assert h.counts[..][..countsIndex] == h.counts[..countsIndex];
      assert h.counts[..][..countsIndex + 1] == h.counts[..countsIndex + 1];
      cumulative := cumulative + count;
      value := ValueAtIndex(h.c, countsIndex);
      return true;
    }

    lemma LastPrefixIsTotal()
      requires Valid()
      ensures countsIndex + 1 >= h.counts.Length ==> cumulative == totalCount
    {
      if countsIndex + 1 >= h.counts.Length {
        assert h.counts[..Seen()] == h.counts[..];
      }
    }

    /** Steps only while counts remain, so it never runs past the last slot. */
    method BasicNext() returns (more: bool)
      requires Valid()
      modifies this
      ensures Valid() && totalCount == old(totalCount)
      ensures more ==> countsIndex == old(countsIndex) + 1 < h.counts.Length
      ensures !more ==> countsIndex == old(countsIndex)
      ensures !more ==> forall j :: old(Seen()) <= j < h.counts.Length ==> h.counts[j] == 0
    {
      hide ValueAtIndex;
      if !(cumulative < totalCount) || countsIndex >= h.counts.Length {
        ghost var xs := h.counts[..];
        assert xs[..Seen()] == h.counts[..Seen()];
        if countsIndex >= h.counts.Length {
          assert xs[..Seen()] == xs;
        }
        forall j | Seen() <= j < h.counts.Length
          ensures h.counts[j] == 0
        {
          RestIsZero(xs, Seen(), j);
        }
        return false;
      }
      LastPrefixIsTotal();
      var moved := MoveNext();
      return true;
    }

    /** Stops at exactly the non-zero slots, in ascending order. */
    method RecordedNext() returns (more: bool)
      requires Valid()
      modifies this
      ensures Valid() && totalCount == old(totalCount)
      ensures more ==> old(Seen()) <= countsIndex < h.counts.Length && count > 0
      ensures more ==> forall j :: old(Seen()) <= j < countsIndex ==> h.counts[j] == 0
      ensures !more ==> forall j :: old(Seen()) <= j < h.counts.Length ==> h.counts[j] == 0
    {
      hide ValueAtIndex;
      var next := BasicNext();
      while next
        invariant Valid() && totalCount == old(totalCount)
        invariant old(countsIndex) <= countsIndex
        invariant next ==> old(countsIndex) < countsIndex < h.counts.Length
        invariant next ==> forall j :: old(Seen()) <= j < countsIndex ==> h.counts[j] == 0
        invariant !next ==> forall j :: old(Seen()) <= j < h.counts.Length ==> h.counts[j] == 0
        decreases h.counts.Length - countsIndex, next
      {
        if count != 0 {
          return true;
        }
        next := BasicNext();
      }
      return false;
    }
  }

  // ----- percentile lookup -----

  /** Walks the slots until the running total reaches the requested rank. */
  method ValueAtPercentile(h: Histogram, percentile: real) returns (v: int)
    requires Counted(h)
    ensures h.total >= 0 && v == ValueAtRank(h.c, h.View(), Rank(percentile, h.total))
  {
    hide ValueAtIndex, HighestEquivalent, Sum, FirstReaching, SlotIndex.Valid;
    ghost var xs := h.counts[..];
    PositiveSumIsSum(xs);
    var k := Rank(percentile, h.total);
    var total := 0;
    var iter := new Iter(h);
    NothingReached(xs, k);
    var more := iter.MoveNext();
    while more
      invariant iter.Valid() && iter.h == h && fresh(iter)
      invariant more <==> iter.countsIndex < h.counts.Length
      invariant 0 <= iter.countsIndex <= h.counts.Length
      invariant more ==> total == iter.cumulative - iter.count
      invariant FirstReaching(xs[..iter.countsIndex], k) < 0
      decreases h.counts.Length - iter.countsIndex
    {
      total := total + iter.count;
      ghost var i := iter.countsIndex;
      assert xs[..i + 1] == h.counts[..i + 1];
      ReachStep(xs, i, k);
      if total >= k {
        FirstReachingPrefix(xs, i + 1, k);
        return HighestEquivalent(h.c, iter.value);
      }
      more := iter.MoveNext();
    }
    assert xs[..h.counts.Length] == xs;
    return 0;
  }

  lemma NothingReached(xs: seq<int>, k: int)
    ensures FirstReaching(xs[..0], k) < 0
  {
  }

  lemma ReachStep(xs: seq<int>, i: nat, k: int)
    requires i < |xs| && FirstReaching(xs[..i], k) < 0
    ensures FirstReaching(xs[..i + 1], k) == if Sum(xs[..i + 1]) >= k then i else -1
  {
    assert xs[..i + 1][..i] == xs[..i];
  }

  /** A rank reached within a prefix is first reached at the same slot overall. */
  lemma {:induction false} FirstReachingPrefix(xs: seq<int>, n: nat, k: int)
    requires n <= |xs|
    ensures FirstReaching(xs[..n], k) >= 0 ==> FirstReaching(xs, k) == FirstReaching(xs[..n], k)
    decreases |xs|
  {
    if n == |xs| {
      assert xs[..n] == xs;
    } else {
      FirstReachingPrefix(xs[..|xs| - 1], n, k);
      assert xs[..|xs| - 1][..n] == xs[..n];
    }
  }

  // ----- merging -----

  /** The first n slots of another histogram recorded here at their lowest values. */
  function Merge(c: Config, s: State, fc: Config, xs: seq<int>, n: nat): (r: State)
    requires |s.counts| == c.countsLen && n <= |xs|
    ensures |r.counts| == c.countsLen
  {
    hide Record, ValueAtIndex;
    if n == 0 then s
    else if xs[n - 1] == 0 then Merge(c, s, fc, xs, n - 1)
    else Record(c, Merge(c, s, fc, xs, n - 1), ValueAtIndex(fc, n - 1), xs[n - 1])
  }

  /** The counts of those slots whose lowest value is out of range here. */
  function Dropped(c: Config, fc: Config, xs: seq<int>, n: nat): int
    requires n <= |xs|
  {
    if n == 0 then 0
    else Dropped(c, fc, xs, n - 1) + (if CanRecord(c, ValueAtIndex(fc, n - 1)) then 0 else xs[n - 1])
  }

  /** The first n slots of the source are merged and accounted for. */
  ghost predicate Merged(h: Histogram, dropped: int, s0: State, fc: Config, xs: seq<int>, n: nat)
    reads h, h.counts
  {
    && h.Valid() && |s0.counts| == h.c.countsLen && n <= |xs|
    && h.View() == Merge(h.c, s0, fc, xs, n) && dropped == Dropped(h.c, fc, xs, n)
  }

  /** Adds every recorded slot of another histogram; reports what did not fit. */
  method Add(h: Histogram, from: Histogram) returns (dropped: int)
    requires h.Valid() && Counted(from) && h != from && h.counts != from.counts
    modifies h, h.counts
    ensures h.Valid() && h.counts == old(h.counts)
    ensures h.View() == Merge(h.c, old(h.View()), from.c, from.counts[..], from.counts.Length)
    ensures dropped == Dropped(h.c, from.c, from.counts[..], from.counts.Length)
  {
    hide ValueAtIndex, CanRecord, Record, Merge, Dropped, Sum, Valid;
    ghost var s0, xs := h.View(), from.counts[..];
    dropped := 0;
    MergeNothing(h.c, s0, from.c, xs);
    var iter := new Iter(from);
    var more, at := NextRecorded(iter, xs, 0);
    MergeZeros(h.c, s0, from.c, xs, 0, at);
    while more
      invariant iter.Valid() && iter.h == from && fresh(iter)
      invariant h.counts == old(h.counts) && xs == from.counts[..] && |xs| == from.c.countsLen
      invariant if more then at < |xs| && iter.Seen() == at + 1 && iter.value == ValueAtIndex(from.c, at) else at == |xs|
      invariant more ==> iter.count == xs[at] > 0
      invariant Merged(h, dropped, s0, from.c, xs, at)
      decreases more, |xs| - at
    {
      dropped := AddSlot(h, iter.value, iter.count, dropped, s0, from.c, xs, at);
      ghost var next := at + 1;
      more, at := NextRecorded(iter, xs, next);
      MergeZeros(h.c, s0, from.c, xs, next, at);
    }
  }

  /** Steps to the next recorded slot, past slots that are all zero. */
  method NextRecorded(iter: Iter, ghost xs: seq<int>, ghost seen: nat) returns (more: bool, ghost at: nat)
    requires iter.Valid() && xs == iter.h.counts[..] && seen == iter.Seen()
    modifies iter
    ensures iter.Valid() && seen <= at <= |xs| && forall k :: seen <= k < at ==> xs[k] == 0
    ensures if more then at == iter.countsIndex < |xs| && iter.count > 0 && iter.count == xs[at] else at == |xs|
    ensures more ==> iter.value == ValueAtIndex(iter.h.c, at) && iter.Seen() == at + 1
  {
    hide ValueAtIndex, Sum;
    more := iter.RecordedNext();
    at := if more then iter.countsIndex else |xs|;
  }

  /** One recorded slot of the source. */
  method AddSlot(h: Histogram, value: int, count: int, dropped: int,
                 ghost s0: State, ghost fc: Config, ghost xs: seq<int>, ghost at: nat) returns (dropped': int)
    requires at < |xs| == fc.countsLen && value == ValueAtIndex(fc, at) && count == xs[at] != 0
    requires Merged(h, dropped, s0, fc, xs, at)
    modifies h, h.counts
    ensures h.counts == old(h.counts) && Merged(h, dropped', s0, fc, xs, at + 1)
  {
    hide ValueAtIndex, CanRecord, Record, Merge, Dropped;
    SlotValueBelowMax(fc, at);
    MergeStep(h.c, s0, fc, xs, at);
    var ok := h.RecordValues(value, count);
    dropped' := if ok then dropped else dropped + count;
  }

  lemma MergeNothing(c: Config, s: State, fc: Config, xs: seq<int>)
    requires |s.counts| == c.countsLen
    ensures Merge(c, s, fc, xs, 0) == s && Dropped(c, fc, xs, 0) == 0
  {
  }

  lemma MergeStep(c: Config, s: State, fc: Config, xs: seq<int>, i: nat)
    requires |s.counts| == c.countsLen && i < |xs| && xs[i] != 0
    ensures var v := ValueAtIndex(fc, i);
            && Merge(c, s, fc, xs, i + 1) == Record(c, Merge(c, s, fc, xs, i), v, xs[i])
            && Dropped(c, fc, xs, i + 1) == Dropped(c, fc, xs, i) + (if CanRecord(c, v) then 0 else xs[i])
  {
    hide ValueAtIndex, CanRecord, Record;
  }

  lemma {:induction false} MergeZeros(c: Config, s: State, fc: Config, xs: seq<int>, i: nat, j: nat)
    requires |s.counts| == c.countsLen && i <= j <= |xs| && forall k :: i <= k < j ==> xs[k] == 0
    ensures Merge(c, s, fc, xs, j) == Merge(c, s, fc, xs, i)
    ensures Dropped(c, fc, xs, j) == Dropped(c, fc, xs, i)
    decreases j
  {
    hide Record, ValueAtIndex, CanRecord;
    if i < j {
      MergeZeros(c, s, fc, xs, i, j - 1);
    }
  }

  lemma RecordConserves(c: Config, s: State, v: nat, count: int)
    requires |s.counts| == c.countsLen
    ensures var r := Record(c, s, v, count);
            && r.total == s.total + (if CanRecord(c, v) then count else 0)
            && Sum(r.counts) - r.total == Sum(s.counts) - s.total
  {
    hide IndexFor, Sum;
    if CanRecord(c, v) {
      SumUpdate(s.counts, IndexFor(c, v), count);
    }
  }

  /** Nothing is lost: what the merge adds and what it drops make up the source. */
  lemma {:induction false} MergeConserves(c: Config, s: State, fc: Config, xs: seq<int>, n: nat)
    requires |s.counts| == c.countsLen && n <= |xs|
    ensures Merge(c, s, fc, xs, n).total + Dropped(c, fc, xs, n) == s.total + Sum(xs[..n])
    ensures Sum(Merge(c, s, fc, xs, n).counts) - Merge(c, s, fc, xs, n).total == Sum(s.counts) - s.total
  {
    hide Merge, Dropped, Record, CanRecord, ValueAtIndex, Sum;
    if n == 0 {
      MergeNothing(c, s, fc, xs);
      SumOfNothing(xs[..0]);
    } else {
      MergeConserves(c, s, fc, xs, n - 1);
      SumPrefixStep(xs, n - 1);
      if xs[n - 1] == 0 {
        MergeZeros(c, s, fc, xs, n - 1, n);
      } else {
        MergeStep(c, s, fc, xs, n - 1);
        RecordConserves(c, Merge(c, s, fc, xs, n - 1), ValueAtIndex(fc, n - 1), xs[n - 1]);
      }
    }
  }

  lemma SumOfNothing(xs: seq<int>)
    requires xs == []
    ensures Sum(xs) == 0
  {
  }

  /** The counts among the first n slots whose lowest value belongs in slot j here. */
  function Arriving(c: Config, fc: Config, xs: seq<int>, n: nat, j: nat): int
    requires n <= |xs|
  {
    if n == 0 then 0
    else Arriving(c, fc, xs, n - 1, j) + (if IndexFor(c, ValueAtIndex(fc, n - 1)) == j then xs[n - 1] else 0)
  }

  /** Between any two configurations each slot gains exactly the counts that belong in it. */
  lemma {:induction false} MergeSlots(c: Config, s: State, fc: Config, xs: seq<int>, n: nat, j: nat)
    requires |s.counts| == c.countsLen && n <= |xs| && j < c.countsLen
    ensures Merge(c, s, fc, xs, n).counts[j] == s.counts[j] + Arriving(c, fc, xs, n, j)
  {
    hide IndexFor, ValueAtIndex;
    if n > 0 { MergeSlots(c, s, fc, xs, n - 1, j); }
  }

  /** Between histograms of one configuration the slots simply add up. */
  lemma {:induction false} MergeSameConfig(c: Config, s: State, xs: seq<int>, n: nat)
    requires |s.counts| == c.countsLen == |xs| && n <= |xs|
    ensures Dropped(c, c, xs, n) == 0
    ensures var m := Merge(c, s, c, xs, n);
            forall i :: 0 <= i < |xs| ==> m.counts[i] == s.counts[i] + (if i < n then xs[i] else 0)
  {
    hide IndexFor, ValueAtIndex;
    if n > 0 {
      MergeSameConfig(c, s, xs, n - 1);
      IndexOfValueAt(c, n - 1);
    }
  }

  /** Slot i of the source is recorded here, at its lowest value. */
  ghost predicate Merges(c: Config, fc: Config, xs: seq<int>, n: nat, i: nat) {
    i < n <= |xs| && xs[i] != 0 && CanRecord(c, ValueAtIndex(fc, i))
  }

  lemma RecordExtremes(c: Config, s: State, v: nat, count: int)
    requires |s.counts| == c.countsLen
    ensures var r := Record(c, s, v, count);
            && r.maxValue == (if CanRecord(c, v) then UpdateMax(s.maxValue, v) else s.maxValue)
            && r.minValue == (if CanRecord(c, v) then UpdateMin(s.minValue, v) else s.minValue)
  {
    hide IndexFor;
  }

  /** The merged maximum is the old one or a recorded slot's lowest value, and the
      largest of them. */
  lemma {:induction false} MergedMax(c: Config, s: State, fc: Config, xs: seq<int>, n: nat)
    requires |s.counts| == c.countsLen && n <= |xs|
    ensures var m := Merge(c, s, fc, xs, n).maxValue;
            && m >= s.maxValue && (forall i: nat :: Merges(c, fc, xs, n, i) ==> ValueAtIndex(fc, i) <= m)
            && (m == s.maxValue || exists i: nat :: Merges(c, fc, xs, n, i) && ValueAtIndex(fc, i) == m)
  {
    hide CanRecord, ValueAtIndex, Record, Merge;
    if n == 0 {
      MergeNothing(c, s, fc, xs);
    } else {
      MergedMax(c, s, fc, xs, n - 1);
      if xs[n - 1] == 0 {
        MergeZeros(c, s, fc, xs, n - 1, n);
      } else {
        MergeStep(c, s, fc, xs, n - 1);
        RecordExtremes(c, Merge(c, s, fc, xs, n - 1), ValueAtIndex(fc, n - 1), xs[n - 1]);
      }
      assert forall i: nat :: Merges(c, fc, xs, n, i) && i != n - 1 ==> Merges(c, fc, xs, n - 1, i);
      assert forall i: nat :: Merges(c, fc, xs, n - 1, i) ==> Merges(c, fc, xs, n, i);
      var m, m' := Merge(c, s, fc, xs, n - 1).maxValue, Merge(c, s, fc, xs, n).maxValue;
      if m' != m { assert Merges(c, fc, xs, n, n - 1); }
    }
  }

  /** The merged minimum likewise, slot 0's lowest value zero not counting. */
  lemma {:induction false} MergedMin(c: Config, s: State, fc: Config, xs: seq<int>, n: nat)
    requires |s.counts| == c.countsLen && n <= |xs|
    ensures var m := Merge(c, s, fc, xs, n).minValue;
            && m <= s.minValue
            && (forall i: nat :: Merges(c, fc, xs, n, i) && ValueAtIndex(fc, i) != 0 ==> m <= ValueAtIndex(fc, i))
            && (m == s.minValue || exists i: nat :: Merges(c, fc, xs, n, i) && ValueAtIndex(fc, i) == m != 0)
  {
    hide CanRecord, ValueAtIndex, Record, Merge;
    if n == 0 {
      MergeNothing(c, s, fc, xs);
    } else {
      MergedMin(c, s, fc, xs, n - 1);
      if xs[n - 1] == 0 {
        MergeZeros(c, s, fc, xs, n - 1, n);
      } else {
        MergeStep(c, s, fc, xs, n - 1);
        RecordExtremes(c, Merge(c, s, fc, xs, n - 1), ValueAtIndex(fc, n - 1), xs[n - 1]);
      }
      assert forall i: nat :: Merges(c, fc, xs, n, i) && i != n - 1 ==> Merges(c, fc, xs, n - 1, i);
      assert forall i: nat :: Merges(c, fc, xs, n - 1, i) ==> Merges(c, fc, xs, n, i);
      var m, m' := Merge(c, s, fc, xs, n - 1).minValue, Merge(c, s, fc, xs, n).minValue;
      if m' != m { assert Merges(c, fc, xs, n, n - 1); }
    }
  }

  /** Recording keeps counters and slots in step. */
  lemma RecordConsistent(c: Config, s: State, v: nat, count: nat)
    requires Consistent(c, s) && count >= 1
    ensures Consistent(c, Record(c, s, v, count))
  {
    hide IndexFor, Limit, Sum, Valid, LastUsed, FirstUsed;
    RecordConserves(c, s, v, count);
    if CanRecord(c, v) {
      AcceptedIff(c, v);
      SlotsEndAtLimit(c);
      ZeroInSlotZero(c);
      LastAfter(s.counts, IndexFor(c, v), count);
      MaxFollows(c, s.maxValue, v);
      if s.counts[0] == 0 && IndexFor(c, v) != 0 {
        FirstAfter(s.counts, IndexFor(c, v), count);
        MinFollows(c, s.minValue, v);
      }
    }
  }

  lemma LastAfter(xs: seq<int>, i: nat, count: nat)
    requires i < |xs| && count >= 1 && forall k :: 0 <= k < |xs| ==> xs[k] >= 0
    ensures LastUsed(xs[i := xs[i] + count]) == Larger(LastUsed(xs), i)
  {
    var ys := xs[i := xs[i] + count];
    var l, m := LastUsed(xs), LastUsed(ys);
    assert ys[i] > 0;
    if m > i { assert xs[m] > 0; }
    if l >= 0 { assert ys[l] > 0; }
  }

  lemma MaxFollows(c: Config, m: nat, v: nat)
    ensures IndexFor(c, UpdateMax(m, v)) == Larger(IndexFor(c, m), IndexFor(c, v))
  {
    hide IndexFor;
    if v > m { IndexMonotone(c, m, v); } else { IndexMonotone(c, v, m); }
  }

  lemma MinFollows(c: Config, m: nat, v: nat)
    requires v != 0
    ensures IndexFor(c, UpdateMin(m, v)) == Smaller(IndexFor(c, m), IndexFor(c, v))
  {
    hide IndexFor;
    if v < m { IndexMonotone(c, v, m); } else { IndexMonotone(c, m, v); }
  }

  lemma FirstAfter(xs: seq<int>, i: nat, count: nat)
    requires 1 <= i < |xs| && count >= 1 && forall k :: 0 <= k < |xs| ==> xs[k] >= 0
    ensures FirstUsed(xs[i := xs[i] + count]) == if FirstUsed(xs) < 0 then i else Smaller(FirstUsed(xs), i)
  {
    var ys := xs[i := xs[i] + count];
    var f, g := FirstUsed(xs), FirstUsed(ys);
    assert ys[i] > 0 && g >= 1;
    if g != i { assert xs[g] > 0; }
    if f >= 0 { assert ys[f] > 0; }
  }

  /** Adding any histogram to one whose counters and slots agree leaves them agreeing. */
  lemma {:induction false} MergeConsistent(c: Config, s: State, fc: Config, xs: seq<int>, n: nat)
    requires Consistent(c, s) && n <= |xs| && forall i :: 0 <= i < n ==> xs[i] >= 0
    ensures Consistent(c, Merge(c, s, fc, xs, n))
  {
    hide Consistent, Record, ValueAtIndex;
    SlotCount(c, s);
    if n > 0 {
      MergeConsistent(c, s, fc, xs, n - 1);
      if xs[n - 1] != 0 {
        RecordConsistent(c, Merge(c, s, fc, xs, n - 1), ValueAtIndex(fc, n - 1), xs[n - 1]);
      }
    }
  }

  lemma OwnSlotMerges(c: Config, xs: seq<int>, i: nat)
    requires i < c.countsLen == |xs|
    ensures Merges(c, c, xs, |xs|, i) <==> xs[i] != 0
  {
    hide IndexFor, ValueAtIndex;
    IndexOfValueAt(c, i);
  }

  /** Within one configuration: the larger of the old maximum and the last used slot's
      lowest value. */
  lemma MergedMaxIs(c: Config, s: State, f: State)
    requires |s.counts| == c.countsLen && Consistent(c, f) && s.maxValue >= 0
    ensures Merge(c, s, c, f.counts, c.countsLen).maxValue ==
      if LastUsed(f.counts) < 0 then s.maxValue else UpdateMax(s.maxValue, ValueAtIndex(c, LastUsed(f.counts)))
  {
    hide IndexFor, ValueAtIndex, Merge, Merges, Limit;
    var xs, last := f.counts, LastUsed(f.counts);
    MergedMax(c, s, c, xs, |xs|);
    forall i: nat | i < |xs|
      ensures Merges(c, c, xs, |xs|, i) <==> xs[i] != 0
      ensures xs[i] != 0 ==> i <= last && ValueAtIndex(c, i) <= ValueAtIndex(c, last)
    {
      OwnSlotMerges(c, xs, i);
      if xs[i] != 0 && i < last { ValueAtIndexMonotone(c, i, last); }
    }
    InBounds(c, xs);
  }

  lemma InBounds(c: Config, xs: seq<int>)
    ensures forall i: nat :: Merges(c, c, xs, |xs|, i) ==> i < |xs|
  {
    hide CanRecord;
  }

  function Larger(a: int, b: int): int {
    if a >= b then a else b
  }

  function Smaller(a: int, b: int): int {
    if a <= b then a else b
  }

  lemma HighestOfLarger(c: Config, v: nat, w: nat)
    ensures HighestEquivalent(c, UpdateMax(v, w)) == Larger(HighestEquivalent(c, v), HighestEquivalent(c, w))
  {
    hide HighestEquivalent;
    if v <= w { HighestMonotone(c, v, w); } else { HighestMonotone(c, w, v); }
  }

  /** What the histogram's extremes say about its used slots. */
  lemma UsedByMax(c: Config, f: State)
    requires Consistent(c, f)
    ensures f.maxValue >= 0
    ensures LastUsed(f.counts) < 0 ==> f.maxValue == 0
    ensures LastUsed(f.counts) >= 0 ==>
      var low := ValueAtIndex(c, LastUsed(f.counts));
      && HighestEquivalent(c, f.maxValue) == HighestEquivalent(c, low)
      && (LastUsed(f.counts) > 0 <==> IndexFor(c, f.maxValue) > 0)
      && (if LastUsed(f.counts) > 0 then low > 0 && f.maxValue > 0 else low == 0)
  {
    hide IndexFor, ValueAtIndex, HighestEquivalent, Limit;
    var last := LastUsed(f.counts);
    ZeroInSlotZero(c);
    if last >= 0 {
      TopOfSlot(c, last);
      SameSlotSameRange(c, f.maxValue, ValueAtIndex(c, last));
    }
  }

  /** After adding a histogram of the same configuration the reported maximum is the
      larger of the two exactly when nothing hides in slot 0: merging records a slot at
      its lowest value. */
  lemma MergedMaxIff(c: Config, s: State, f: State)
    requires Consistent(c, s) && Consistent(c, f)
    ensures var m := Merge(c, s, c, f.counts, c.countsLen);
            && m.maxValue >= 0 && s.maxValue >= 0 && f.maxValue >= 0
            && (Max(c, m) == Larger(Max(c, s), Max(c, f)) <==>
                f.maxValue == 0 || IndexFor(c, f.maxValue) > 0 || s.maxValue > 0)
  {
    hide IndexFor, ValueAtIndex, HighestEquivalent, Merge, Limit, Consistent;
    UsedByMax(c, s);
    UsedByMax(c, f);
    SlotCount(c, s);
    SlotCount(c, f);
    MergedMaxIs(c, s, f);
    HighestAbove(c, s.maxValue);
    HighestAbove(c, f.maxValue);
    if LastUsed(f.counts) >= 0 {
      HighestOfLarger(c, s.maxValue, ValueAtIndex(c, LastUsed(f.counts)));
      if s.maxValue > 0 { HighestMonotone(c, 0, s.maxValue); }
    }
  }

  lemma SlotCount(c: Config, s: State)
    requires Consistent(c, s)
    ensures |s.counts| == c.countsLen > 0 && 0 <= s.minValue <= INT64_MAX
    ensures forall i :: 0 <= i < |s.counts| ==> s.counts[i] >= 0
  {
    hide IndexFor, Limit;
  }

  lemma HighestAbove(c: Config, v: nat)
    ensures v <= HighestEquivalent(c, v)
  {
    hide IndexFor, ValueAtIndex, HighestEquivalent;
    EquivalentRange(c, v);
  }

  /** Within one configuration: the smaller of the old minimum and the first used
      slot's lowest value, slot 0 apart. */
  lemma MergedMinIs(c: Config, s: State, f: State)
    requires |s.counts| == c.countsLen && Consistent(c, f)
    ensures Merge(c, s, c, f.counts, c.countsLen).minValue ==
      if FirstUsed(f.counts) < 0 then s.minValue else Smaller(s.minValue, ValueAtIndex(c, FirstUsed(f.counts)))
  {
    hide IndexFor, ValueAtIndex, Merge, Merges, Limit;
    var xs, first := f.counts, FirstUsed(f.counts);
    MergedMin(c, s, c, xs, |xs|);
    ZeroInSlotZero(c);
    forall i: nat | i < |xs|
      ensures Merges(c, c, xs, |xs|, i) <==> xs[i] != 0
      ensures xs[i] != 0 && i > 0 ==> 0 < first <= i && 0 < ValueAtIndex(c, first) <= ValueAtIndex(c, i)
    {
      OwnSlotMerges(c, xs, i);
      if xs[i] != 0 && i > 0 {
        ValueAtIndexMonotone(c, 0, first);
        if first < i { ValueAtIndexMonotone(c, first, i); }
      }
    }
    InBounds(c, xs);
    if first > 0 {
      ValueAtIndexMonotone(c, 0, first);
    }
  }

  lemma LowestOfSmaller(c: Config, v: nat, w: nat)
    ensures LowestEquivalent(c, Smaller(v, w)) == Smaller(LowestEquivalent(c, v), LowestEquivalent(c, w))
    ensures LowestEquivalent(c, v) <= v
  {
    hide LowestEquivalent, IndexFor, ValueAtIndex;
    EquivalentRange(c, v);
    EquivalentRange(c, w);
    if v <= w { LowestMonotone(c, v, w); } else { LowestMonotone(c, w, v); }
  }

  lemma LowestMonotone(c: Config, v: nat, w: nat)
    requires v <= w
    ensures LowestEquivalent(c, v) <= LowestEquivalent(c, w)
  {
    hide LowestEquivalent, IndexFor, ValueAtIndex;
    EquivalentRange(c, v);
    EquivalentRange(c, w);
    IndexMonotone(c, v, w);
    var i, j := IndexFor(c, v), IndexFor(c, w);
    if i < j { ValueAtIndexMonotone(c, i, j); }
  }

  /** The first used slot of a histogram without slot 0. */
  lemma UsedByMin(c: Config, f: State)
    requires Consistent(c, f) && f.counts[0] == 0
    ensures f.total == 0 <==> FirstUsed(f.counts) < 0
    ensures FirstUsed(f.counts) < 0 ==> f.minValue == INT64_MAX
    ensures FirstUsed(f.counts) >= 0 ==>
      var low := ValueAtIndex(c, FirstUsed(f.counts));
      0 < low < INT64_MAX && LowestEquivalent(c, f.minValue) == low == LowestEquivalent(c, low)
  {
    hide IndexFor, ValueAtIndex, LowestEquivalent, Limit;
    var first := FirstUsed(f.counts);
    PositiveSumIsSum(f.counts);
    UsedTotal(f.counts);
    if first >= 0 {
      TopOfSlot(c, first);
      LowestOfLowest(c, first);
      SlotValueBelowMax(c, first);
      SameSlotSameRange(c, f.minValue, ValueAtIndex(c, first));
    }
  }

  lemma {:induction false} UsedTotal(xs: seq<int>)
    requires |xs| > 0 && xs[0] == 0 && forall i :: 0 <= i < |xs| ==> xs[i] >= 0
    ensures Sum(xs) >= 0 && (Sum(xs) == 0 <==> FirstUsed(xs) < 0) && (FirstUsed(xs) < 0 <==> LastUsed(xs) < 0)
  {
    SumPrefixMono(xs, |xs|, |xs|);
    assert xs[..|xs|] == xs;
    var first := FirstUsed(xs);
    if first >= 0 {
      SumPrefixStep(xs, first);
      SumPrefixMono(xs, 0, first);
      SumPrefixMono(xs, first + 1, |xs|);
    } else {
      AllZeroSum(xs);
    }
  }

  lemma {:induction false} AllZeroSum(xs: seq<int>)
    requires forall i :: 0 <= i < |xs| ==> xs[i] == 0
    ensures Sum(xs) == 0
  {
    if xs != [] { AllZeroSum(xs[..|xs| - 1]); }
  }

  /** ... and the reported minimum is the smaller of the two exactly when one of them
      is known for certain: not when all they hold is the largest 64-bit value. */
  lemma MergedMinIff(c: Config, s: State, f: State)
    requires Consistent(c, s) && Consistent(c, f)
    ensures var m := Merge(c, s, c, f.counts, c.countsLen);
            && |m.counts| > 0 && |s.counts| > 0 && |f.counts| > 0 && m.minValue >= 0 && s.minValue >= 0 && f.minValue >= 0
            && (Min(c, m) == Smaller(Min(c, s), Min(c, f)) <==>
                f.total == 0 || f.counts[0] > 0 || s.counts[0] > 0 || f.minValue < INT64_MAX || s.minValue < INT64_MAX)
  {
    hide IndexFor, ValueAtIndex, LowestEquivalent, Merge, Limit, Consistent;
    SlotCount(c, s);
    SlotCount(c, f);
    MergedMinIs(c, s, f);
    MergeSameConfig(c, s, f.counts, c.countsLen);
    LowestOfSmaller(c, s.minValue, f.minValue);
    LowestOfSmaller(c, f.minValue, s.minValue);
    if f.counts[0] == 0 {
      UsedByMin(c, f);
      if FirstUsed(f.counts) >= 0 {
        LowestOfSmaller(c, s.minValue, ValueAtIndex(c, FirstUsed(f.counts)));
        LowestMonotone(c, s.minValue, INT64_MAX);
      }
    }
  }

  /** A one in units wider than one, added to an empty histogram, is reported as 0. */
  lemma MergeHidesMax(c: Config)
    requires c.unitMagnitude > 0
    ensures var s, f := Empty(c), Record(c, Empty(c), 1, 1); var m := Merge(c, s, c, f.counts, c.countsLen);
            m.maxValue >= 0 && f.maxValue >= 0 && Max(c, m) != Larger(Max(c, s), Max(c, f))
  {
    hide IndexFor, HighestEquivalent, Merge, Limit, Consistent, Max, Record;
    OneInSlotZero(c);
    RecordOne(c, 1);
    EmptyIsConsistent(c);
    MergedMaxIff(c, Empty(c), Record(c, Empty(c), 1, 1));
  }

  lemma OneInSlotZero(c: Config)
    requires c.unitMagnitude > 0
    ensures IndexFor(c, 1) == 0 && 1 < Limit(c)
  {
    hide IndexFor, ValueAtIndex, HighestEquivalent, Limit, Valid;
    ZeroInSlotZero(c);
    SlotZeroTop(c);
    EquivalentRange(c, 0);
    IndexCharacterization(c, 1, 0);
    AcceptedIff(c, 0);
    AcceptedIff(c, 1);
    ZeroRecordable(c);
  }

  lemma EmptyIsConsistent(c: Config)
    ensures Consistent(c, Empty(c))
  {
    hide Consistent, Represents;
    EmptyRepresentsNothing(c);
    RepresentsIsConsistent(c, Empty(c), []);
  }

  /** The largest 64-bit value, added to an empty histogram, gives it a minimum. */
  lemma MergeFindsMin(c: Config)
    requires INT64_MAX < Limit(c)
    ensures var s, f := Empty(c), Record(c, Empty(c), INT64_MAX, 1); var m := Merge(c, s, c, f.counts, c.countsLen);
            m.minValue >= 0 && f.minValue >= 0 && Min(c, m) != Smaller(Min(c, s), Min(c, f))
  {
    hide IndexFor, LowestEquivalent, Merge, Limit, Consistent, Min;
    LargestPastSlotZero(c);
    RecordOne(c, INT64_MAX);
    EmptyIsConsistent(c);
    MergedMinIff(c, Empty(c), Record(c, Empty(c), INT64_MAX, 1));
  }
}

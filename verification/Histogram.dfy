/** The histogram object: recording and rebuilding its counters. Each method is tied
    to the value-level operations of HistogramState and Percentile. */
module Histogram {
  import opened Bits
  import opened SlotIndex
  import opened HistogramState
  import opened Percentile

  class Histogram {
    const c: Config
    var counts: array<int>
    var total: int
    var minValue: int
    var maxValue: int

    ghost predicate Valid()
      reads this
    {
      && counts.Length == c.countsLen
      && 0 <= minValue <= INT64_MAX
      && 0 <= maxValue
    }

    ghost function View(): State
      reads this, counts
    {
      State(counts[..], total, minValue, maxValue)
    }

    /** A fresh histogram holds nothing. */
    constructor (c: Config)
      ensures Valid() && fresh(counts) && this.c == c
      ensures View() == Empty(c)
    {
      this.c := c;
      counts := new int[c.countsLen](_ => 0);
      total, minValue, maxValue := 0, INT64_MAX, 0;
      new;
      assert counts[..] == seq(c.countsLen, _ => 0);
    }

    method RecordValues(v: int, count: int) returns (ok: bool)
      requires Valid() && v <= INT64_MAX
      modifies this, counts
      ensures Valid() && counts == old(counts)
      ensures ok == CanRecord(c, v)
      ensures View() == Record(c, old(View()), v, count)
    {
      hide IndexFor;
      if v < 0 {
        return false;
      }
      var i := IndexFor(c, v);
      if c.countsLen <= i {
        return false;
      }
      counts[i] := counts[i] + count;
      total := total + count;
      minValue := if v < minValue && v != 0 then v else minValue;
      maxValue := if v > maxValue then v else maxValue;
      return true;
    }

    /** Records the value and one more per whole expected interval below it; a
        value that is not recordable changes nothing. */
    method RecordCorrectedValues(v: int, count: int, interval: int) returns (ok: bool)
      requires Valid() && v <= INT64_MAX
      modifies this, counts
      ensures Valid() && counts == old(counts)
      ensures ok == CanRecord(c, v)
      ensures View() == if ok then RecordAll(c, old(View()), BackFill(v, interval), count) else old(View())
    {
      hide Record, CanRecord, RecordAll, BackFillLength;
      ghost var s0 := View();
      ghost var vs := BackFill(v, interval);
      assert vs[0] == v;
      ok := RecordValues(v, count);
      if !ok {
        NotRecorded(c, s0, v, count);
        return;
      }
      RecordAllOne(c, s0, v, count);
      assert vs[..1] == [v];
      if interval <= 0 || v <= interval {
        BackFillSingle(v, interval);
        return;
      }
      var missing := v - interval;
      ghost var n := 1;
      while missing >= interval
        invariant Valid() && counts == old(counts)
        invariant 1 <= n <= |vs| && missing == v - n * interval
        invariant View() == RecordAll(c, s0, vs[..n], count)
      {
        BackFillNotDone(v, interval, n);
        assert vs[n] == missing;
        BackFillRecordable(c, v, interval, n);
        ok := RecordValues(missing, count);
        assert ok;
        if !ok {
          return;
        }
        RecordAllSnoc(c, s0, vs[..n], missing, count);
        assert vs[..n + 1] == vs[..n] + [missing];
        missing := missing - interval;
        n := n + 1;
      }
      BackFillDone(v, interval, n);
      assert vs[..n] == vs;
      return true;
    }

    /** Recomputes the counters from the slots. */
    method ResetInternalCounters()
      requires Valid()
      modifies this
      ensures Valid() && counts == old(counts)
      ensures View() == Rebuild(c, old(counts[..]))
    {
      hide ValueAtIndex, HighestEquivalent;
      var minIndex, maxIndex, observed := -1, -1, 0;
      var i := 0;
      while i < counts.Length
        invariant 0 <= i <= counts.Length
        invariant minIndex == FirstUsed(counts[..i])
        invariant maxIndex == LastUsed(counts[..i])
        invariant observed == PositiveSum(counts[..i])
      {
        assert counts[..i + 1][..i] == counts[..i];
        if counts[i] > 0 {
          observed := observed + counts[i];
          maxIndex := i;
          if minIndex == -1 && i != 0 {
            minIndex := i;
          }
        }
        i := i + 1;
      }
      assert counts[..i] == counts[..];
      SlotTops(c, counts[..]);
      maxValue := if maxIndex == -1 then 0 else HighestEquivalent(c, ValueAtIndex(c, maxIndex));
      minValue := if minIndex == -1 then INT64_MAX else ValueAtIndex(c, minIndex);
      total := observed;
    }
  }

  lemma RecordAllOne(c: Config, s: State, v: int, count: int)
    requires |s.counts| == c.countsLen
    ensures RecordAll(c, s, [v], count) == Record(c, s, v, count)
  {
    hide Record;
  }

  lemma BackFillSingle(v: int, interval: int)
    requires interval <= 0 || v <= interval
    ensures BackFill(v, interval) == [v]
  {
  }

  lemma NotRecorded(c: Config, s: State, v: int, count: int)
    requires |s.counts| == c.countsLen && !CanRecord(c, v)
    ensures Record(c, s, v, count) == s
  {
    hide IndexFor;
  }

  lemma {:induction false} RecordAllSnoc(c: Config, s: State, vs: seq<int>, v: int, count: int)
    requires |s.counts| == c.countsLen
    ensures RecordAll(c, s, vs + [v], count) == Record(c, RecordAll(c, s, vs, count), v, count)
    decreases |vs|
  {
    hide Record;
    if vs == [] {
      assert RecordAll(c, Record(c, s, v, count), [], count) == Record(c, s, v, count);
      assert (vs + [v])[1..] == [];
    } else {
      assert (vs + [v])[1..] == vs[1..] + [v];
      RecordAllSnoc(c, Record(c, s, vs[0], count), vs[1..], v, count);
    }
  }

  /** While the missing value is at least the interval, more remain to back-fill. */
  lemma BackFillNotDone(v: int, interval: int, n: nat)
    requires interval > 0 && v > interval && n >= 1 && v - n * interval >= interval
    ensures n < BackFillLength(v, interval)
  {
    DivMod(v, interval);
    if n >= v / interval {
      MulMono(v / interval, n, interval);
    }
  }

  lemma BackFillDone(v: int, interval: int, n: nat)
    requires interval > 0 && v > interval && n <= BackFillLength(v, interval) && v - n * interval < interval
    ensures n == BackFillLength(v, interval)
  {
    DivMod(v, interval);
    if n < v / interval {
      MulStrictMono(n, v / interval, interval);
    }
  }

  lemma BackFillRecordable(c: Config, v: int, interval: int, n: nat)
    requires CanRecord(c, v) && n < BackFillLength(v, interval)
    ensures CanRecord(c, v - n * interval) && v - n * interval <= v
  {
    hide IndexFor;
    BackFillRange(v, interval, n);
    IndexMonotone(c, v - n * interval, v);
  }

  lemma SlotTops(c: Config, xs: seq<int>)
    requires |xs| == c.countsLen
    ensures LastUsed(xs) >= 0 ==> 0 <= HighestEquivalent(c, ValueAtIndex(c, LastUsed(xs)))
    ensures FirstUsed(xs) >= 0 ==> 0 <= ValueAtIndex(c, FirstUsed(xs)) <= INT64_MAX
  {
    hide IndexFor, ValueAtIndex, HighestEquivalent, Limit;
    LimitIsPow2(c);
    if LastUsed(xs) >= 0 {
      TopOfSlot(c, LastUsed(xs));
    }
    if FirstUsed(xs) >= 0 {
      TopOfSlot(c, FirstUsed(xs));
    }
  }
}

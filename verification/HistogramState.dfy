/** The histogram as a value: what each operation does to the slot counts and
    counters, and what those mean in terms of the list of recorded values. */
module HistogramState {
  import opened Bits
  import opened SlotIndex

  datatype State = State(counts: seq<int>, total: int, minValue: int, maxValue: int)

  function Empty(c: Config): State {
    State(seq(c.countsLen, _ => 0), 0, INT64_MAX, 0)
  }

  // ----- recording -----

  predicate CanRecord(c: Config, v: int) {
    0 <= v && IndexFor(c, v) < c.countsLen
  }

  function UpdateMin(m: int, v: int): int {
    if v < m && v != 0 then v else m
  }

  function UpdateMax(m: int, v: int): int {
    if v > m then v else m
  }

  function Record(c: Config, s: State, v: int, count: int): (r: State)
    requires |s.counts| == c.countsLen
    ensures |r.counts| == c.countsLen
  {
    if CanRecord(c, v) then
      var i := IndexFor(c, v);
      State(s.counts[i := s.counts[i] + count], s.total + count, UpdateMin(s.minValue, v), UpdateMax(s.maxValue, v))
    else s
  }

  /** Records each value of the list in turn, with the same count. */
  function RecordAll(c: Config, s: State, vs: seq<int>, count: int): (r: State)
    requires |s.counts| == c.countsLen
    ensures |r.counts| == c.countsLen
    decreases |vs|
  {
    hide Record;
    if vs == [] then s else RecordAll(c, Record(c, s, vs[0], count), vs[1..], count)
  }

  // ----- queries -----

  function Max(c: Config, s: State): int
    requires 0 <= s.maxValue
  {
    if s.maxValue == 0 then 0 else HighestEquivalent(c, s.maxValue)
  }

  function Min(c: Config, s: State): int
    requires |s.counts| > 0 && 0 <= s.minValue
  {
    if s.counts[0] > 0 then 0
    else if s.minValue == INT64_MAX then INT64_MAX
    else LowestEquivalent(c, s.minValue)
  }

  /** Sum of the first n counts. */
  function Sum(xs: seq<int>): int {
    if xs == [] then 0 else Sum(xs[..|xs| - 1]) + xs[|xs| - 1]
  }

  lemma {:induction false} SumUpdate(xs: seq<int>, i: nat, d: int)
    requires i < |xs|
    ensures Sum(xs[i := xs[i] + d]) == Sum(xs) + d
  {
    var n := |xs| - 1;
    if i == n {
      assert xs[i := xs[i] + d][..n] == xs[..n];
    } else {
      assert xs[i := xs[i] + d][..n] == xs[..n][i := xs[..n][i] + d];
      SumUpdate(xs[..n], i, d);
    }
  }

  // ----- meaning of a state -----

  ghost function Slots(c: Config, rec: seq<nat>): (r: seq<nat>)
    ensures |r| == |rec| && forall k :: 0 <= k < |rec| ==> r[k] == IndexFor(c, rec[k])
  {
    seq(|rec|, k requires 0 <= k < |rec| => IndexFor(c, rec[k]))
  }

  ghost predicate IsMin(rec: seq<nat>, m: int) {
    && (m == INT64_MAX || (m in rec && m != 0))
    && (forall v :: v in rec && v != 0 ==> m <= v)
  }

  ghost predicate IsMax(rec: seq<nat>, m: int) {
    && (m == 0 || m in rec)
    && (forall v :: v in rec ==> v <= m)
  }

  /** The state stands for this list of recorded values. */
  ghost predicate Represents(c: Config, s: State, rec: seq<nat>) {
    && |s.counts| == c.countsLen
    && (forall i :: 0 <= i < c.countsLen ==> s.counts[i] == multiset(Slots(c, rec))[i])
    && s.total == |rec|
    && (forall v :: v in rec ==> v < Limit(c))
    && IsMin(rec, s.minValue)
    && IsMax(rec, s.maxValue)
  }

  ghost function Repeat(v: nat, n: nat): (r: seq<nat>)
    ensures |r| == n && (forall k :: 0 <= k < n ==> r[k] == v) && (n > 0 ==> v in r)
  {
    var r := seq(n, _ => v);
    assert n > 0 ==> r[0] == v;
    r
  }

  lemma EmptyRepresentsNothing(c: Config)
    ensures Represents(c, Empty(c), [])
  {
    assert Slots(c, []) == [];
  }

  lemma SlotsAppend(c: Config, a: seq<nat>, b: seq<nat>)
    ensures Slots(c, a + b) == Slots(c, a) + Slots(c, b)
  {
  }

  lemma {:induction false} RepeatMultiset(x: nat, n: nat, i: nat)
    ensures multiset(Repeat(x, n))[i] == if i == x then n else 0
  {
    if n == 0 {
      assert Repeat(x, n) == [];
    } else {
      RepeatMultiset(x, n - 1, i);
      assert Repeat(x, n) == Repeat(x, n - 1) + [x];
    }
  }

  /** Recording appends `count` copies of the value to what the state stands for. */
  lemma RecordAppends(c: Config, s: State, rec: seq<nat>, v: nat, count: nat)
    requires Represents(c, s, rec) && count >= 1 && v < Limit(c)
    ensures CanRecord(c, v) && Represents(c, Record(c, s, v, count), rec + Repeat(v, count))
  {
    AcceptedIff(c, v);
    var rec' := rec + Repeat(v, count);
    var x := IndexFor(c, v);
    var s' := Record(c, s, v, count);
    SlotsAppend(c, rec, Repeat(v, count));
    assert Slots(c, Repeat(v, count)) == Repeat(x, count);
    forall i | 0 <= i < c.countsLen
      ensures s'.counts[i] == multiset(Slots(c, rec'))[i]
    {
      RepeatMultiset(x, count, i);
    }
    LimitIsPow2(c);
    assert v in rec' by { assert rec'[|rec|] == v; }
    assert forall w :: w in rec' <==> w in rec || w == v by {
      forall w | w in rec ensures w in rec' {}
    }
  }

  /** A rejected value leaves the state alone. */
  lemma RecordRejects(c: Config, s: State, v: int, count: int)
    requires |s.counts| == c.countsLen
    ensures !(0 <= v < Limit(c)) ==> Record(c, s, v, count) == s && !CanRecord(c, v)
  {
    if v >= 0 {
      AcceptedIff(c, v);
    }
  }

  // ----- corrected recording -----

  /** How many values a corrected recording adds. */
  function BackFillLength(v: int, interval: int): (n: nat)
    ensures n >= 1
  {
    if interval <= 0 || v <= interval then 1
    else
      DivMod(v, interval);
      QuotientPositive(v, interval);
      v / interval
  }

  /** The value, then one value per whole interval below it, down to the interval. */
  function BackFill(v: int, interval: int): seq<int> {
    seq(BackFillLength(v, interval), k => v - k * interval)
  }

  lemma BackFillRange(v: int, interval: int, k: nat)
    requires 0 <= v && k < BackFillLength(v, interval)
    ensures k > 0 ==> interval <= v - k * interval < v
    ensures 0 <= v - k * interval <= v
  {
    if k > 0 {
      DivMod(v, interval);
      MulMono(k + 1, v / interval, interval);
      MulMono(1, k, interval);
    }
  }

  /** What a corrected recording is to record: the value, and below it every value
      a whole number of intervals away that is still an interval or more. */
  predicate Filled(v: int, interval: int, w: int) {
    w == v || (0 < interval <= w < v && (v - w) % interval == 0)
  }

  /** Each of those is listed, nothing else is, and each next one is an interval less. */
  lemma BackFillIs(v: nat, interval: int, w: int)
    ensures w in BackFill(v, interval) <==> Filled(v, interval, w)
    ensures BackFill(v, interval)[0] == v
    ensures |BackFill(v, interval)| > 1 ==> 0 < interval
    ensures forall i, j :: 0 <= i < j < |BackFill(v, interval)| && j == i + 1 ==>
              BackFill(v, interval)[j] == BackFill(v, interval)[i] - interval
  {
    hide BackFillLength;
    var vs := BackFill(v, interval);
    forall k | 0 <= k < |vs|
      ensures Filled(v, interval, vs[k])
    {
      ListedIsFilled(v, interval, k);
    }
    if |vs| > 1 { ListedIsFilled(v, interval, 1); }
    forall i, j | 0 <= i < j < |vs| && j == i + 1
      ensures vs[j] == vs[i] - interval
    {
      MulSucc(i, interval);
    }
    if Filled(v, interval, w) {
      var k := FilledIsListed(v, interval, w);
      assert vs[k] == w;
    }
  }

  lemma ListedIsFilled(v: nat, interval: int, k: nat)
    requires k < BackFillLength(v, interval)
    ensures Filled(v, interval, v - k * interval) && (k > 0 ==> interval > 0)
  {
    BackFillRange(v, interval, k);
    if k > 0 { DivModUnique(k * interval, interval, k, 0); }
  }

  lemma FilledIsListed(v: nat, interval: int, w: int) returns (k: nat)
    requires Filled(v, interval, w)
    ensures k < BackFillLength(v, interval) && w == v - k * interval
  {
    k := 0;
    if w != v {
      DivMod(v - w, interval);
      QuotientNat(v - w, interval);
      k := (v - w) / interval;
      MulSucc(k, interval);
      DivMod(v, interval);
      if k + 1 > v / interval { MulMono(v / interval + 1, k + 1, interval); MulSucc(v / interval, interval); }
    }
  }

  /** No value is listed twice. */
  lemma BackFillOnce(v: nat, interval: int, i: nat, j: nat)
    requires i < j < |BackFill(v, interval)|
    ensures BackFill(v, interval)[i] != BackFill(v, interval)[j]
  {
    hide BackFillLength;
    ListedIsFilled(v, interval, j);
    MulStrictMono(i, j, interval);
  }

  lemma {:induction false} CopiesOf(vs: seq<nat>, count: nat, w: nat)
    requires forall i, j :: 0 <= i < j < |vs| ==> vs[i] != vs[j]
    ensures multiset(Copies(vs, count))[w] == if w in vs then count else 0
  {
    if vs != [] {
      CopiesOf(vs[1..], count, w);
      RepeatMultiset(vs[0], count, w);
      assert vs == [vs[0]] + vs[1..];
      assert w in vs <==> w == vs[0] || w in vs[1..];
    }
  }

  /** Copies of every listed value, in order. */
  ghost function Copies(vs: seq<nat>, count: nat): seq<nat> {
    if vs == [] then [] else Repeat(vs[0], count) + Copies(vs[1..], count)
  }

  lemma {:induction false} CopiesLength(vs: seq<nat>, count: nat)
    ensures |Copies(vs, count)| == |vs| * count
  {
    if vs != [] {
      CopiesLength(vs[1..], count);
      MulSucc(|vs| - 1, count);
    }
  }

  lemma {:induction false} RecordAllAppends(c: Config, s: State, rec: seq<nat>, vs: seq<nat>, count: nat)
    requires Represents(c, s, rec) && count >= 1
    requires forall k :: 0 <= k < |vs| ==> vs[k] < Limit(c)
    ensures Represents(c, RecordAll(c, s, vs, count), rec + Copies(vs, count))
    decreases |vs|
  {
    if vs == [] {
      assert rec + Copies(vs, count) == rec;
    } else {
      RecordAppends(c, s, rec, vs[0], count);
      RecordAllAppends(c, Record(c, s, vs[0], count), rec + Repeat(vs[0], count), vs[1..], count);
      assert rec + Copies(vs, count) == rec + Repeat(vs[0], count) + Copies(vs[1..], count);
    }
  }

  lemma BackFillFits(c: Config, v: nat, interval: int, k: nat)
    requires v < Limit(c) && k < |BackFill(v, interval)|
    ensures 0 <= BackFill(v, interval)[k] < Limit(c) && CanRecord(c, BackFill(v, interval)[k])
  {
    hide IndexFor, Limit, BackFillLength;
    BackFillRange(v, interval, k);
    AcceptedIff(c, v - k * interval);
  }

  lemma WholeIntervals(v: nat, interval: int)
    ensures |BackFill(v, interval)| == if interval > 0 && v >= interval then v / interval else 1
  {
    if interval > 0 && v == interval {
      DivModUnique(v, interval, 1, 0);
    }
  }

  /** A corrected recording of a recordable value records every back-filled value
      too, and adds the count once per whole interval in the value. */
  lemma CorrectedAppends(c: Config, s: State, rec: seq<nat>, v: nat, count: nat, interval: int)
    requires Represents(c, s, rec) && count >= 1 && v < Limit(c)
    ensures forall k :: 0 <= k < |BackFill(v, interval)| ==> 0 <= BackFill(v, interval)[k] && CanRecord(c, BackFill(v, interval)[k])
    ensures var s' := RecordAll(c, s, BackFill(v, interval), count);
            && Represents(c, s', rec + Copies(BackFill(v, interval), count))
            && s'.total == s.total + count * (if interval > 0 && v >= interval then v / interval else 1)
    ensures forall w: nat :: multiset(Copies(BackFill(v, interval), count))[w] == if Filled(v, interval, w) then count else 0
  {
    hide Limit, CanRecord, Represents, RecordAll, Copies, BackFill, Filled;
    var vs := BackFill(v, interval);
    forall k | 0 <= k < |vs|
      ensures 0 <= vs[k] < Limit(c) && CanRecord(c, vs[k])
    {
      BackFillFits(c, v, interval, k);
    }
    TotalIsLength(c, s, rec);
    RecordAllAppends(c, s, rec, vs, count);
    TotalGrows(c, s, RecordAll(c, s, vs, count), rec, vs, count);
    WholeIntervals(v, interval);
    forall w: nat
      ensures multiset(Copies(vs, count))[w] == if Filled(v, interval, w) then count else 0
    {
      BackFillIs(v, interval, w);
      forall i, j | 0 <= i < j < |vs|
        ensures vs[i] != vs[j]
      {
        BackFillOnce(v, interval, i, j);
      }
      CopiesOf(vs, count, w);
    }
  }

  lemma TotalGrows(c: Config, s: State, s': State, rec: seq<nat>, vs: seq<nat>, count: nat)
    requires Represents(c, s, rec) && Represents(c, s', rec + Copies(vs, count))
    ensures s'.total == s.total + count * |vs|
  {
    hide Copies, Represents;
    CopiesLength(vs, count);
    TotalIsLength(c, s, rec);
    TotalIsLength(c, s', rec + Copies(vs, count));
  }

  lemma TotalIsLength(c: Config, s: State, rec: seq<nat>)
    requires Represents(c, s, rec)
    ensures s.total == |rec| && |s.counts| == c.countsLen
  {
  }

  // ----- what min and max report -----

  lemma MaxMeaning(c: Config, s: State, rec: seq<nat>)
    requires Represents(c, s, rec)
    ensures rec == [] || (forall v :: v in rec ==> v == 0) ==> Max(c, s) == 0
    ensures forall v :: v in rec && v != 0 && (forall w :: w in rec ==> w <= v) ==> Max(c, s) == HighestEquivalent(c, v)
  {
    hide HighestEquivalent, Slots, IsMin, Limit;
  }

  /** The reported minimum is 0 when a value fell into slot 0, and otherwise the
      lowest equivalent of the smallest value, or INT64_MAX when the smallest
      value is INT64_MAX itself or nothing was recorded. */
  lemma MinMeaning(c: Config, s: State, rec: seq<nat>)
    requires Represents(c, s, rec)
    ensures rec == [] ==> Min(c, s) == INT64_MAX
    ensures forall v :: v in rec && (forall w :: w in rec ==> v <= w) ==>
      Min(c, s) == if IndexFor(c, v) == 0 then 0 else if v == INT64_MAX then INT64_MAX else LowestEquivalent(c, v)
  {
    hide IndexFor, LowestEquivalent, Limit;
    if rec == [] { assert Slots(c, rec) == []; }
    forall v | v in rec && (forall w :: w in rec ==> v <= w)
      ensures Min(c, s) == if IndexFor(c, v) == 0 then 0 else if v == INT64_MAX then INT64_MAX else LowestEquivalent(c, v)
    {
      MinOfSmallest(c, s, rec, v);
    }
  }

  lemma MinOfSmallest(c: Config, s: State, rec: seq<nat>, v: nat)
    requires Represents(c, s, rec) && v in rec && forall w :: w in rec ==> v <= w
    ensures Min(c, s) == if IndexFor(c, v) == 0 then 0 else if v == INT64_MAX then INT64_MAX else LowestEquivalent(c, v)
  {
    hide IndexFor, LowestEquivalent, Limit;
    LimitIsPow2(c);
    InSlots(c, rec, v);
    if IndexFor(c, v) != 0 {
      assert multiset(Slots(c, rec))[0] == 0 by {
        if 0 in Slots(c, rec) {
          var k :| 0 <= k < |rec| && Slots(c, rec)[k] == 0;
          assert rec[k] in rec;
          IndexMonotone(c, v, rec[k]);
        }
      }
      ZeroInSlotZero(c);
      assert v != 0;
      assert s.minValue == v;
    }
  }

  lemma ZeroInSlotZero(c: Config)
    ensures IndexFor(c, 0) == 0 && ValueAtIndex(c, 0) == 0
  {
    HalfOfCount(c);
    ValueAtSlot(c, 0, 0);
    IndexOfValueAt(c, 0);
  }

  lemma InSlots(c: Config, rec: seq<nat>, v: nat)
    requires v in rec
    ensures IndexFor(c, v) in multiset(Slots(c, rec))
  {
    var k :| 0 <= k < |rec| && rec[k] == v;
    assert Slots(c, rec)[k] == IndexFor(c, v);
    assert Slots(c, rec)[k] in Slots(c, rec);
  }

  // ----- rank lookup -----

  ghost predicate Sorted(xs: seq<nat>) {
    forall i, j :: 0 <= i < j < |xs| ==> xs[i] <= xs[j]
  }

  /** How many elements lie below j. */
  ghost function CountBelow(xs: seq<nat>, j: nat): nat {
    if xs == [] then 0
    else CountBelow(xs[..|xs| - 1], j) + (if xs[|xs| - 1] < j then 1 else 0)
  }

  lemma {:induction false} CountBelowStep(xs: seq<nat>, j: nat)
    ensures CountBelow(xs, j + 1) == CountBelow(xs, j) + multiset(xs)[j]
  {
    if xs != [] {
      var n := |xs| - 1;
      CountBelowStep(xs[..n], j);
      assert xs == xs[..n] + [xs[n]];
    }
  }

  lemma {:induction false} CountBelowZero(xs: seq<nat>)
    ensures CountBelow(xs, 0) == 0
  {
    if xs != [] {
      CountBelowZero(xs[..|xs| - 1]);
    }
  }

  lemma {:induction false} CountBelowAll(xs: seq<nat>, j: nat)
    requires forall k :: 0 <= k < |xs| ==> xs[k] < j
    ensures CountBelow(xs, j) == |xs|
  {
    if xs != [] {
      CountBelowAll(xs[..|xs| - 1], j);
    }
  }

  lemma {:induction false} CountBelowPermutation(xs: seq<nat>, ys: seq<nat>, j: nat)
    requires multiset(xs) == multiset(ys)
    ensures CountBelow(xs, j) == CountBelow(ys, j)
  {
    if j == 0 {
      CountBelowZero(xs);
      CountBelowZero(ys);
    } else {
      CountBelowPermutation(xs, ys, j - 1);
      CountBelowStep(xs, j - 1);
      CountBelowStep(ys, j - 1);
    }
  }

  /** In a sorted list the elements below j are exactly the first ones. */
  lemma {:induction false} CountBelowSorted(xs: seq<nat>, j: nat, k: nat)
    requires Sorted(xs) && k < |xs|
    ensures k < CountBelow(xs, j) <==> xs[k] < j
  {
    var n := |xs| - 1;
    if xs[n] < j {
      CountBelowAll(xs, j);
    } else if k < n {
      CountBelowSorted(xs[..n], j, k);
    } else {
      CountBelowAtMost(xs[..n], j);
    }
  }

  lemma {:induction false} CountBelowAtMost(xs: seq<nat>, j: nat)
    ensures CountBelow(xs, j) <= |xs|
  {
    if xs != [] {
      CountBelowAtMost(xs[..|xs| - 1], j);
    }
  }

  /** The running total of the counts is the number of recorded values below the slot. */
  lemma {:induction false} RunningTotal(c: Config, s: State, rec: seq<nat>, j: nat)
    requires Represents(c, s, rec) && j <= c.countsLen
    ensures Sum(s.counts[..j]) == CountBelow(Slots(c, rec), j)
  {
    if j == 0 {
      CountBelowZero(Slots(c, rec));
    } else {
      RunningTotal(c, s, rec, j - 1);
      CountBelowStep(Slots(c, rec), j - 1);
      assert s.counts[..j][..j - 1] == s.counts[..j - 1];
    }
  }

  lemma TotalIsSum(c: Config, s: State, rec: seq<nat>)
    requires Represents(c, s, rec)
    ensures Sum(s.counts) == s.total
  {
    RunningTotal(c, s, rec, c.countsLen);
    assert s.counts[..c.countsLen] == s.counts;
    forall k | 0 <= k < |rec|
      ensures Slots(c, rec)[k] < c.countsLen
    {
      assert rec[k] in rec;
      AcceptedIff(c, rec[k]);
    }
    CountBelowAll(Slots(c, rec), c.countsLen);
  }

  /** The slot where the running total first reaches the rank holds the value
      of that rank in the sorted list of everything recorded. */
  lemma RankSlot(c: Config, s: State, rec: seq<nat>, sorted: seq<nat>, k: nat, i: nat)
    requires Represents(c, s, rec)
    requires Sorted(sorted) && multiset(sorted) == multiset(rec)
    requires 1 <= k <= |sorted| && i < c.countsLen
    requires Sum(s.counts[..i]) < k <= Sum(s.counts[..i + 1])
    ensures IndexFor(c, sorted[k - 1]) == i
    ensures HighestEquivalent(c, ValueAtIndex(c, i)) == HighestEquivalent(c, sorted[k - 1])
  {
    hide IndexFor, HighestEquivalent, LowestEquivalent, NextNonEquivalent, ValueAtIndex, Limit;
    RunningTotal(c, s, rec, i);
    RunningTotal(c, s, rec, i + 1);
    SlotsPermutation(c, rec, sorted);
    var xs := Slots(c, sorted);
    forall a, b | 0 <= a < b < |xs|
      ensures xs[a] <= xs[b]
    {
      IndexMonotone(c, sorted[a], sorted[b]);
    }
    CountBelowPermutation(Slots(c, rec), xs, i);
    CountBelowPermutation(Slots(c, rec), xs, i + 1);
    CountBelowSorted(xs, i, k - 1);
    CountBelowSorted(xs, i + 1, k - 1);
    IndexOfValueAt(c, i);
    SameSlotSameRange(c, sorted[k - 1], ValueAtIndex(c, i));
  }

  lemma {:induction false} SlotsPermutation(c: Config, a: seq<nat>, b: seq<nat>)
    requires multiset(a) == multiset(b)
    ensures multiset(Slots(c, a)) == multiset(Slots(c, b))
  {
    hide IndexFor;
    if a == [] {
      assert |b| == |multiset(b)|;
      assert Slots(c, a) == Slots(c, b);
    } else {
      var n := |a| - 1;
      var v := a[n];
      assert v in multiset(a);
      assert v in b;
      var k :| 0 <= k < |b| && b[k] == v;
      var b' := b[..k] + b[k + 1..];
      assert a == a[..n] + [v];
      assert b == b[..k] + [v] + b[k + 1..];
      assert multiset(b') == multiset(b) - multiset{v};
      assert multiset(a[..n]) == multiset(a) - multiset{v};
      SlotsPermutation(c, a[..n], b');
      SlotsRemove(c, a[..n], v, []);
      assert a[..n] + [] == a[..n] && a[..n] + [v] + [] == a;
      SlotsRemove(c, b[..k], v, b[k + 1..]);
    }
  }

  lemma SlotsRemove(c: Config, p: seq<nat>, v: nat, q: seq<nat>)
    ensures multiset(Slots(c, p + [v] + q)) == multiset(Slots(c, p + q)) + multiset{IndexFor(c, v)}
  {
    hide IndexFor;
    SlotsAppend(c, p + [v], q);
    SlotsAppend(c, p, [v]);
    SlotsAppend(c, p, q);
    assert Slots(c, [v]) == [IndexFor(c, v)];
  }
}

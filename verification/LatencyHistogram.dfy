/** The period latency histogram: ranges of equal-width buckets, and a printer that
    swaps counters out while other threads increment them. */
module LatencyHistogram {
  import opened Bits

  datatype Range = Range(upper: nat, width: nat)

  /** One range as laid out: where it starts, its bucket width, the number of its
      first bucket and how many it has, the last two in 32 bits. */
  datatype Extent = Extent(lower: nat, width: nat, offset: nat, buckets: nat)

  datatype Layout = Layout(extents: seq<Extent>, rangeMin: nat, rangeMax: nat, buckets: nat)

  datatype Created = Created(layout: Layout) | Invalid

  /** Where range i starts; past the last range, where the histogram ends. */
  function Start(low: nat, ranges: seq<Range>, i: nat): nat
    requires i <= |ranges|
  {
    if i == 0 then low else ranges[i - 1].upper
  }

  /** Ascending, with a width that divides it. */
  predicate RangeOk(low: nat, ranges: seq<Range>, i: nat)
    requires i < |ranges|
  {
    var r := ranges[i];
    Start(low, ranges, i) < r.upper && r.width > 0 && (r.upper - Start(low, ranges, i)) % r.width == 0
  }

  ghost predicate Valid(low: nat, ranges: seq<Range>) {
    forall i: nat :: i < |ranges| ==> RangeOk(low, ranges, i)
  }

  function Size(low: nat, ranges: seq<Range>, i: nat): nat
    requires i < |ranges| && RangeOk(low, ranges, i)
  {
    QuotientNat(ranges[i].upper - Start(low, ranges, i), ranges[i].width);
    (ranges[i].upper - Start(low, ranges, i)) / ranges[i].width
  }

  /** How many buckets come before range i. */
  function Offset(low: nat, ranges: seq<Range>, i: nat): nat
    requires i <= |ranges| && Valid(low, ranges)
  {
    if i == 0 then 0
    else
      assert RangeOk(low, ranges, i - 1);
      Offset(low, ranges, i - 1) + Size(low, ranges, i - 1)
  }

  lemma WrapSum(a: nat, b: nat)
    ensures Wrap32(Wrap32(a) + Wrap32(b)) == Wrap32(a + b)
  {
  }

  ghost predicate Describes(e: Extent, low: nat, ranges: seq<Range>, i: nat)
    requires i < |ranges| && Valid(low, ranges)
  {
    assert RangeOk(low, ranges, i);
    e == Extent(Start(low, ranges, i), ranges[i].width, Wrap32(Offset(low, ranges, i)), Wrap32(Size(low, ranges, i)))
  }

  ghost predicate LaidOut(h: Layout, low: nat, ranges: seq<Range>) {
    && Valid(low, ranges) && |h.extents| == |ranges|
    && (forall i: nat :: i < |ranges| ==> Describes(h.extents[i], low, ranges, i))
    && h.rangeMin == low && h.rangeMax == Start(low, ranges, |ranges|)
    && h.buckets == Wrap32(Offset(low, ranges, |ranges|))
  }

  /** Accepts exactly the valid range lists. */
  method Create(low: nat, ranges: seq<Range>) returns (r: Created)
    ensures r.Created? <==> Valid(low, ranges)
    ensures r.Created? ==> LaidOut(r.layout, low, ranges)
  {
    hide Wrap32, Size;
    var extents: seq<Extent> := [];
    var start, total := low, 0;
    var i := 0;
    ghost var done: seq<Range> := [];
    FirstOffset(low);
    while i < |ranges|
      invariant i <= |ranges| && done == ranges[..i] && Valid(low, done) && start == Start(low, done, i)
      invariant |extents| == i && total == Wrap32(Offset(low, done, i))
      invariant forall j: nat :: j < i ==> Describes(extents[j], low, done, j)
    {
      var end, width := ranges[i].upper, ranges[i].width;
      if end <= start || width == 0 || (end - start) % width != 0 {
        assert !RangeOk(low, ranges, i);
        return Invalid;
      }
      ghost var done' := ranges[..i + 1];
      Prefix(low, done, done', i);
      QuotientNat(end - start, width);
      var size := Wrap32((end - start) / width);
      assert RangeOk(low, done', i);
      SizeIs(low, done', i);
      extents := extents + [Extent(start, width, total, size)];
      WrapSum(Offset(low, done', i), Size(low, done', i));
      total := Wrap32(total + size);
      start := end;
      done := done';
      i := i + 1;
    }
    assert done == ranges;
    return Created(Layout(extents, low, start, total));
  }

  lemma FirstOffset(low: nat)
    ensures Wrap32(Offset(low, [], 0)) == 0
  {
  }

  lemma SizeIs(low: nat, ranges: seq<Range>, i: nat)
    requires i < |ranges| && RangeOk(low, ranges, i)
    ensures Size(low, ranges, i) == (ranges[i].upper - Start(low, ranges, i)) / ranges[i].width
  {
  }

  /** Appending a valid range keeps what was laid out. */
  lemma Prefix(low: nat, a: seq<Range>, b: seq<Range>, n: nat)
    requires |a| == n && |b| == n + 1 && a == b[..n] && Valid(low, a) && RangeOk(low, b, n)
    ensures Valid(low, b) && Start(low, b, n) == Start(low, a, n) && Offset(low, b, n) == Offset(low, a, n)
    ensures forall j: nat, e: Extent :: j < n ==> (Describes(e, low, a, j) <==> Describes(e, low, b, j))
  {
    forall j: nat | j < |b|
      ensures RangeOk(low, b, j)
    {
      if j < n { assert RangeOk(low, a, j); }
    }
    forall j: nat | j <= n
      ensures Offset(low, b, j) == Offset(low, a, j)
    {
      SameOffset(low, a, b, j);
    }
    forall j: nat, e: Extent | j < n
      ensures Describes(e, low, a, j) <==> Describes(e, low, b, j)
    {
      assert RangeOk(low, a, j) && RangeOk(low, b, j);
    }
  }

  lemma {:induction false} SameOffset(low: nat, a: seq<Range>, b: seq<Range>, j: nat)
    requires j <= |a| <= |b| && a == b[..|a|] && Valid(low, a) && Valid(low, b)
    ensures Offset(low, b, j) == Offset(low, a, j)
  {
    if j > 0 {
      SameOffset(low, a, b, j - 1);
      assert RangeOk(low, a, j - 1) && RangeOk(low, b, j - 1);
    }
  }

  // ----- the bucket of a delay -----

  const UNDERFLOW := -2
  const OVERFLOW := -1

  /** A 32-bit word read as signed. */
  function Int32(x: nat): int {
    if Wrap32(x) < TWO_31 then Wrap32(x) else Wrap32(x) - TWO_32
  }

  /** Delay d lies in the printed interval of bucket j of range i. */
  ghost predicate InBucket(low: nat, ranges: seq<Range>, i: nat, j: nat, d: nat)
    requires Valid(low, ranges)
  {
    && i < |ranges| && RangeOk(low, ranges, i) && j < Size(low, ranges, i)
    && Start(low, ranges, i) + j * ranges[i].width <= d < Start(low, ranges, i) + (j + 1) * ranges[i].width
  }

  lemma SizeTimesWidth(low: nat, ranges: seq<Range>, i: nat)
    requires i < |ranges| && RangeOk(low, ranges, i)
    ensures Start(low, ranges, i) + Size(low, ranges, i) * ranges[i].width == Start(low, ranges, i + 1)
  {
    DivMod(ranges[i].upper - Start(low, ranges, i), ranges[i].width);
  }

  /** A delay within range i falls in exactly the bucket the division names. */
  lemma BucketOf(low: nat, ranges: seq<Range>, i: nat, d: nat)
    requires Valid(low, ranges) && i < |ranges| && Start(low, ranges, i) <= d < Start(low, ranges, i + 1)
    ensures ranges[i].width > 0 && 0 <= (d - Start(low, ranges, i)) / ranges[i].width
    ensures InBucket(low, ranges, i, (d - Start(low, ranges, i)) / ranges[i].width, d)
  {
    assert RangeOk(low, ranges, i);
    hide Size;
    SizeTimesWidth(low, ranges, i);
    var w, x := ranges[i].width, d - Start(low, ranges, i);
    QuotientNat(x, w);
    DivMod(x, w);
    MulSucc(x / w, w);
    if x / w >= Size(low, ranges, i) { MulMono(Size(low, ranges, i), x / w, w); }
  }

  lemma {:induction false} StartsAscend(low: nat, ranges: seq<Range>, i: nat, k: nat)
    requires Valid(low, ranges) && i <= k <= |ranges|
    ensures Start(low, ranges, i) <= Start(low, ranges, k)
    decreases k
  {
    if i < k {
      StartsAscend(low, ranges, i, k - 1);
      assert RangeOk(low, ranges, k - 1);
    }
  }

  /** A bucket lies within its range. */
  lemma BucketInRange(low: nat, ranges: seq<Range>, i: nat, j: nat, d: nat)
    requires Valid(low, ranges) && InBucket(low, ranges, i, j, d)
    ensures Start(low, ranges, i) <= d < Start(low, ranges, i + 1)
    ensures (d - Start(low, ranges, i)) / ranges[i].width == j
  {
    hide Size;
    SizeTimesWidth(low, ranges, i);
    var w := ranges[i].width;
    MulMono(j + 1, Size(low, ranges, i), w);
    MulMono(0, j, w);
    MulSucc(j, w);
    DivModUnique(d - Start(low, ranges, i), w, j, d - Start(low, ranges, i) - j * w);
  }

  /** No delay is in two buckets. */
  lemma OneBucket(low: nat, ranges: seq<Range>, i: nat, j: nat, i': nat, j': nat, d: nat)
    requires Valid(low, ranges) && InBucket(low, ranges, i, j, d) && InBucket(low, ranges, i', j', d)
    ensures i == i' && j == j'
  {
    hide InBucket, Start;
    BucketInRange(low, ranges, i, j, d);
    BucketInRange(low, ranges, i', j', d);
    Within(low, ranges, i, j, d);
    Within(low, ranges, i', j', d);
    if i < i' { StartsAscend(low, ranges, i + 1, i'); }
    if i' < i { StartsAscend(low, ranges, i' + 1, i); }
  }

  lemma Within(low: nat, ranges: seq<Range>, i: nat, j: nat, d: nat)
    requires Valid(low, ranges) && InBucket(low, ranges, i, j, d)
    ensures i < |ranges| && ranges[i].width > 0
  {
  }

  /** The index a delay is counted under: the signed 32-bit reading of the number of
      the bucket whose printed interval contains it. */
  method GetIndex(h: Layout, d: nat, ghost low: nat, ghost ranges: seq<Range>)
    returns (idx: int, ghost i: nat, ghost j: nat)
    requires LaidOut(h, low, ranges)
    ensures d < h.rangeMin ==> idx == UNDERFLOW
    ensures d >= h.rangeMin && d >= h.rangeMax ==> idx == OVERFLOW
    ensures h.rangeMin <= d < h.rangeMax ==>
      InBucket(low, ranges, i, j, d) && idx == Int32(Offset(low, ranges, i) + j)
  {
    hide Wrap32, Size, Offset, InBucket;
    i, j := 0, 0;
    if d < h.rangeMin {
      return UNDERFLOW, i, j;
    }
    if d >= h.rangeMax {
      return OVERFLOW, i, j;
    }
    var k := |h.extents| - 1;
    while d < h.extents[k].lower
      invariant 0 <= k < |h.extents| && d < Start(low, ranges, k + 1)
      decreases k
    {
      assert Describes(h.extents[k], low, ranges, k);
      k := k - 1;
    }
    assert Describes(h.extents[k], low, ranges, k);
    BucketOf(low, ranges, k, d);
    QuotientNat(d - h.extents[k].lower, h.extents[k].width);
    var n := (d - h.extents[k].lower) / h.extents[k].width;
    i, j := k, n;
    SignedSum(Offset(low, ranges, k), n);
    idx := Int32(h.extents[k].offset + Wrap32(n));
  }

  lemma SignedSum(a: nat, b: nat)
    ensures Int32(Wrap32(a) + Wrap32(b)) == Int32(a + b)
  {
    WrapSum(a, b);
  }

  // ----- when the signed index is the bucket number -----

  lemma {:induction false} Locate(low: nat, ranges: seq<Range>, b: nat, n: nat) returns (i: nat, j: nat)
    requires Valid(low, ranges) && n <= |ranges| && b < Offset(low, ranges, n)
    ensures i < n && RangeOk(low, ranges, i) && j < Size(low, ranges, i) && b == Offset(low, ranges, i) + j
    decreases n
  {
    hide Size;
    assert RangeOk(low, ranges, n - 1);
    if b >= Offset(low, ranges, n - 1) {
      i, j := n - 1, b - Offset(low, ranges, n - 1);
    } else {
      i, j := Locate(low, ranges, b, n - 1);
    }
  }

  lemma {:induction false} NumbersBelow(low: nat, ranges: seq<Range>, i: nat, j: nat, n: nat)
    requires Valid(low, ranges) && i < n <= |ranges| && RangeOk(low, ranges, i) && j < Size(low, ranges, i)
    ensures Offset(low, ranges, i) + j < Offset(low, ranges, n)
    decreases n
  {
    hide Size;
    if i < n - 1 { NumbersBelow(low, ranges, i, j, n - 1); }
  }

  /** Every delay in a bucket is counted under its own number exactly when there are
      at most 2^31 buckets. */
  ghost predicate IndexExact(low: nat, ranges: seq<Range>)
    requires Valid(low, ranges)
  {
    forall i: nat, j: nat, d: nat :: InBucket(low, ranges, i, j, d) ==>
      Int32(Offset(low, ranges, i) + j) == Offset(low, ranges, i) + j
  }

  lemma IndexExactIff(low: nat, ranges: seq<Range>)
    requires Valid(low, ranges)
    ensures IndexExact(low, ranges) <==> Offset(low, ranges, |ranges|) <= TWO_31
  {
    hide Size, Offset;
    if Offset(low, ranges, |ranges|) <= TWO_31 {
      forall i: nat, j: nat, d: nat | InBucket(low, ranges, i, j, d)
        ensures Int32(Offset(low, ranges, i) + j) == Offset(low, ranges, i) + j
      {
        NumbersBelow(low, ranges, i, j, |ranges|);
      }
    } else {
      var i, j := Locate(low, ranges, TWO_31, |ranges|);
      var d := Start(low, ranges, i) + j * ranges[i].width;
      FirstOfBucket(low, ranges, i, j, d);
      assert Int32(TWO_31) != TWO_31;
    }
  }

  /** One microsecond buckets up to 2^31 microseconds: the last index is negative. */
  lemma TooManyBuckets()
    ensures var ranges := [Range(TWO_31 + 1, 1)]; Valid(0, ranges) && !IndexExact(0, ranges)
  {
    var ranges := [Range(TWO_31 + 1, 1)];
    assert RangeOk(0, ranges, 0);
    assert Size(0, ranges, 0) == TWO_31 + 1;
    assert Offset(0, ranges, 1) == Offset(0, ranges, 0) + Size(0, ranges, 0);
    IndexExactIff(0, ranges);
  }

  lemma FirstOfBucket(low: nat, ranges: seq<Range>, i: nat, j: nat, d: nat)
    requires Valid(low, ranges) && i < |ranges| && RangeOk(low, ranges, i) && j < Size(low, ranges, i)
    requires d == Start(low, ranges, i) + j * ranges[i].width
    ensures InBucket(low, ranges, i, j, d)
  {
    hide Size;
    MulSucc(j, ranges[i].width);
  }

  // ----- counting while printing -----

  /** The 32-bit counters (underflow, the buckets, overflow), the printing pass:
      next counter to swap, counts held, their 64-bit total. History per counter:
      increments, counts reported by finished passes, times it wrapped, increments
      since it was last swapped. */
  datatype State = State(
    cells: seq<nat>, next: nat, held: seq<nat>, total: nat,
    incs: seq<nat>, reported: seq<nat>, wraps: seq<nat>, since: seq<nat>)

  ghost predicate Shape(n: nat, s: State) {
    |s.cells| == |s.held| == |s.incs| == |s.reported| == |s.wraps| == |s.since| == n && s.next <= n
  }

  function Zeros(n: nat): (r: seq<nat>)
    ensures |r| == n && forall i :: 0 <= i < n ==> r[i] == 0
  {
    seq<nat>(n, i => 0)
  }

  ghost predicate Init(n: nat, s: State) {
    s == State(Zeros(n), 0, Zeros(n), 0, Zeros(n), Zeros(n), Zeros(n), Zeros(n))
  }

  /** A worker's atomic increment. */
  ghost predicate Increment(n: nat, s: State, s': State, i: nat)
    requires Shape(n, s)
  {
    && i < n
    && s' == s.(cells := s.cells[i := Wrap32(s.cells[i] + 1)], incs := s.incs[i := s.incs[i] + 1],
                since := s.since[i := s.since[i] + 1],
                wraps := if s.cells[i] + 1 < TWO_32 then s.wraps else s.wraps[i := s.wraps[i] + 1])
  }

  /** The printer's atomic exchange of the next counter with zero. */
  ghost predicate Exchange(n: nat, s: State, s': State)
    requires Shape(n, s)
  {
    && s.next < n
    && s' == s.(held := s.held[s.next := s.cells[s.next]], cells := s.cells[s.next := 0],
                since := s.since[s.next := 0], total := s.total + s.cells[s.next], next := s.next + 1)
  }

  /** The line is printed and a new pass may start. */
  ghost predicate Report(n: nat, s: State, s': State)
    requires Shape(n, s)
  {
    && s.next == n
    && |s'.reported| == n && (forall i :: 0 <= i < n ==> s'.reported[i] == s.reported[i] + s.held[i])
    && s' == s.(next := 0, held := Zeros(n), total := 0, reported := s'.reported)
  }

  ghost predicate Next(n: nat, s: State, s': State) {
    && Shape(n, s)
    && (Exchange(n, s, s') || Report(n, s, s') || exists i: nat :: Increment(n, s, s', i))
  }

  ghost predicate IsRun(n: nat, ss: seq<State>) {
    |ss| > 0 && Init(n, ss[0]) && forall k :: 0 <= k < |ss| - 1 ==> Next(n, ss[k], ss[k + 1])
  }

  function Total(xs: seq<nat>): nat {
    if xs == [] then 0 else Total(xs[..|xs| - 1]) + xs[|xs| - 1]
  }

  /** Counter i: nothing lost but whole wraps. */
  ghost predicate Balanced(n: nat, s: State, i: nat)
    requires Shape(n, s) && i < n
  {
    s.cells[i] == Wrap32(s.since[i]) && s.cells[i] + s.held[i] + s.reported[i] + TWO_32 * s.wraps[i] == s.incs[i]
  }

  ghost predicate Inv(n: nat, s: State) {
    && Shape(n, s) && s.total == Total(s.held[..s.next])
    && (forall i: nat :: i < n ==> Balanced(n, s, i))
    && (forall i: nat :: s.next <= i < n ==> s.held[i] == 0)
  }

  lemma {:induction false} RunInv(n: nat, ss: seq<State>, k: nat)
    requires IsRun(n, ss) && k < |ss|
    ensures Inv(n, ss[k])
  {
    if k > 0 {
      hide Inv, Init;
      RunInv(n, ss, k - 1);
      assert Next(n, ss[k - 1], ss[k - 1 + 1]);
      NextInv(n, ss[k - 1], ss[k]);
    } else {
      InitInv(n, ss[0]);
    }
  }

  lemma InitInv(n: nat, s: State)
    requires Init(n, s)
    ensures Inv(n, s)
  {
  }

  lemma NextInv(n: nat, s: State, s': State)
    requires Inv(n, s) && Next(n, s, s')
    ensures Inv(n, s')
  {
    if j: nat :| Increment(n, s, s', j) {
      IncrementInv(n, s, s', j);
    } else {
      assert Exchange(n, s, s') ==> s'.held[..s'.next][..s.next] == s.held[..s.next];
      forall i: nat | i < n
        ensures Balanced(n, s', i)
      {
        assert Balanced(n, s, i);
      }
    }
  }

  lemma IncrementInv(n: nat, s: State, s': State, j: nat)
    requires Inv(n, s) && Increment(n, s, s', j)
    ensures Inv(n, s')
  {
    WrapSucc(s.since[j]);
    hide Wrap32;
    WrapOnce(s.cells[j]);
    forall i: nat | i < n
      ensures Balanced(n, s', i)
    {
      assert Balanced(n, s, i);
    }
  }

  lemma WrapOnce(c: nat)
    ensures c < TWO_32 ==> Wrap32(c + 1) == if c + 1 < TWO_32 then c + 1 else 0
  {
  }

  /** At every moment, for every counter, increments done are those still in the
      counter, held by the pass under way and reported, plus whole wraps; and the
      total about to be printed is the sum of the counts about to be printed. */
  lemma NothingLost(n: nat, ss: seq<State>, k: nat)
    requires IsRun(n, ss) && k < |ss|
    ensures Shape(n, ss[k]) && forall i: nat :: i < n ==> Balanced(n, ss[k], i)
    ensures ss[k].next == n ==> ss[k].total == Total(ss[k].held)
  {
    RunInv(n, ss, k);
    assert ss[k].next == n ==> ss[k].held[..n] == ss[k].held;
  }

  /** A line is printed only once every counter has been swapped, and its total is then
      the sum of its counts. */
  lemma LineIsWhole(n: nat, ss: seq<State>, k: nat)
    requires IsRun(n, ss) && k + 1 < |ss|
    requires ss[k + 1].reported != ss[k].reported || ss[k + 1].next < ss[k].next
    ensures ss[k].next == n && ss[k].total == Total(ss[k].held)
  {
    NothingLost(n, ss, k);
    assert Next(n, ss[k], ss[k + 1]);
    hide Total;
  }

  // ----- a printing pass comes to its end -----

  ghost predicate IsPath(n: nat, ss: seq<State>) {
    |ss| > 0 && forall k :: 0 <= k < |ss| - 1 ==> Next(n, ss[k], ss[k + 1])
  }

  /** What the pass under way will report for counter i when nobody increments it. */
  ghost function Due(n: nat, s: State, i: nat): nat
    requires Shape(n, s) && i < n
  {
    s.reported[i] + s.held[i] + (if i < s.next then 0 else s.cells[i])
  }

  /** From every state of every run the printer can swap the counters it has left and
      report, each count it finds included. */
  lemma {:induction false} CanReport(n: nat, s: State) returns (ss: seq<State>)
    requires Inv(n, s)
    ensures IsPath(n, ss) && ss[0] == s && |ss| == n - s.next + 2
    ensures var e := ss[|ss| - 1]; Inv(n, e) && e.next == 0 && forall i: nat :: i < n ==> e.reported[i] == Due(n, s, i)
    decreases n - s.next
  {
    hide Next, Due;
    var s' := PrinterStep(n, s);
    NextInv(n, s, s');
    if s.next == n {
      ss := [s, s'];
      PrintedAll(n, s, s');
    } else {
      var rest := CanReport(n, s');
      ss := [s] + rest;
      SameDue(n, s, s');
      forall k | 0 <= k < |ss| - 1
        ensures Next(n, ss[k], ss[k + 1])
      {
        if k > 0 { assert Next(n, rest[k - 1], rest[k - 1 + 1]); }
      }
    }
  }

  /** The printer's next step. */
  lemma PrinterStep(n: nat, s: State) returns (s': State)
    requires Shape(n, s)
    ensures Next(n, s, s') && if s.next < n then Exchange(n, s, s') else Report(n, s, s')
  {
    if s.next < n {
      s' := s.(held := s.held[s.next := s.cells[s.next]], cells := s.cells[s.next := 0],
               since := s.since[s.next := 0], total := s.total + s.cells[s.next], next := s.next + 1);
    } else {
      s' := s.(next := 0, held := Zeros(n), total := 0,
               reported := seq<nat>(n, i requires 0 <= i < n => s.reported[i] + s.held[i]));
    }
  }

  lemma PrintedAll(n: nat, s: State, s': State)
    requires Inv(n, s) && s.next == n && Report(n, s, s')
    ensures Shape(n, s') && s'.next == 0 && forall i: nat :: i < n ==> s'.reported[i] == Due(n, s, i)
  {
    hide Inv;
    ShapeOf(n, s);
  }

  lemma ShapeOf(n: nat, s: State)
    requires Inv(n, s)
    ensures Shape(n, s)
  {
  }

  lemma SameDue(n: nat, s: State, s': State)
    requires Inv(n, s) && s.next < n && Exchange(n, s, s')
    ensures Shape(n, s') && forall i: nat :: i < n ==> Due(n, s', i) == Due(n, s, i)
  {
  }

  // ----- which counter a delay increments -----

  /** One of the counters of the state above, or memory that holds none. */
  datatype Counter = Counter(i: nat) | NoCounter

  /** The counter behind an index. The underflow and the overflow count are adjacent
      words, in this order, and a negative index counts back from behind them; printing
      takes the underflow count first and the overflow count last. */
  function CounterAt(buckets: nat, idx: int): (k: Counter)
    ensures k.Counter? ==> k.i < buckets + 2
  {
    if idx >= 0 then (if idx < buckets then Counter(1 + idx) else NoCounter)
    else if 2 + idx == 0 then Counter(0)
    else if 2 + idx == 1 then Counter(1 + buckets)
    else NoCounter
  }

  /** With at most 2^31 buckets a delay increments the first counter when it is below the
      range, the last when it is past it, and else that of the bucket whose printed
      interval contains it. */
  method CounterOf(h: Layout, d: nat, ghost low: nat, ghost ranges: seq<Range>)
    returns (k: Counter, ghost i: nat, ghost j: nat)
    requires LaidOut(h, low, ranges)
    ensures d < h.rangeMin ==> k == Counter(0)
    ensures d >= h.rangeMin && d >= h.rangeMax ==> k == Counter(1 + h.buckets)
    ensures h.rangeMin <= d < h.rangeMax ==> InBucket(low, ranges, i, j, d)
    ensures h.rangeMin <= d < h.rangeMax && Offset(low, ranges, |ranges|) <= TWO_31 ==>
      k == Counter(1 + Offset(low, ranges, i) + j) && Offset(low, ranges, i) + j < h.buckets
    ensures k.Counter? ==> k.i < h.buckets + 2
  {
    hide Wrap32, Size, Offset, InBucket, Int32;
    var idx;
    idx, i, j := GetIndex(h, d, low, ranges);
    k := CounterAt(h.buckets, idx);
    if h.rangeMin <= d < h.rangeMax { NumberOf(low, ranges, i, j, d); }
  }

  lemma NumberOf(low: nat, ranges: seq<Range>, i: nat, j: nat, d: nat)
    requires Valid(low, ranges) && InBucket(low, ranges, i, j, d)
    ensures Offset(low, ranges, |ranges|) <= TWO_31 ==>
      && Int32(Offset(low, ranges, i) + j) == Offset(low, ranges, i) + j
      && Offset(low, ranges, i) + j < Offset(low, ranges, |ranges|) == Wrap32(Offset(low, ranges, |ranges|))
  {
    hide Size, Offset;
    NumbersBelow(low, ranges, i, j, |ranges|);
  }

  /** Every increment of counter i is in it, held or reported. */
  ghost predicate Kept(n: nat, s: State, i: nat) {
    Shape(n, s) && i < n && s.cells[i] + s.held[i] + s.reported[i] == s.incs[i]
  }

  /** Counter i has been incremented fewer than 2^32 times since it was last swapped. */
  ghost predicate InTime(n: nat, s: State, i: nat) {
    Shape(n, s) && i < n && s.since[i] < TWO_32
  }

  /** A counter has lost nothing if and only if it was never incremented 2^32 times
      between two swaps. */
  lemma {:induction false} KeptIff(n: nat, ss: seq<State>, k: nat, i: nat)
    requires IsRun(n, ss) && k < |ss| && i < n
    ensures Kept(n, ss[k], i) <==> forall j: nat :: j <= k ==> InTime(n, ss[j], i)
  {
    hide Next;
    RunInv(n, ss, k);
    if k > 0 {
      RunInv(n, ss, k - 1);
      KeptIff(n, ss, k - 1, i);
      assert Next(n, ss[k - 1], ss[k - 1 + 1]);
      KeptStep(n, ss[k - 1], ss[k], i);
    }
  }

  lemma KeptStep(n: nat, s: State, s': State, i: nat)
    requires Inv(n, s) && Inv(n, s') && Next(n, s, s') && i < n && (Kept(n, s, i) ==> InTime(n, s, i))
    ensures Kept(n, s', i) <==> Kept(n, s, i) && InTime(n, s', i)
  {
    KeptIsNoWraps(n, s, i);
    KeptIsNoWraps(n, s', i);
    if Kept(n, s, i) { SmallWord(s.since[i]); }
    hide Wrap32, Kept, Inv;
    assert s'.wraps[i] >= s.wraps[i];
  }

  lemma SmallWord(x: nat)
    requires x < TWO_32
    ensures Wrap32(x) == x
  {
  }

  lemma KeptIsNoWraps(n: nat, s: State, i: nat)
    requires Inv(n, s) && i < n
    ensures Kept(n, s, i) <==> s.wraps[i] == 0
    ensures s.cells[i] == Wrap32(s.since[i])
  {
    hide Wrap32;
    assert Balanced(n, s, i);
  }

  /** One counter, incremented k times and never swapped. */
  function Unswapped(k: nat): State {
    State([Wrap32(k)], 0, Zeros(1), 0, [k], Zeros(1), [k / TWO_32], [k])
  }

  /** A run that loses increments: 2^32 of them to one counter with no swap between,
      after which the counter is back at zero. */
  lemma LosingRun()
    ensures var ss := seq(TWO_32 + 1, k requires 0 <= k => Unswapped(k));
      IsRun(1, ss) && !Kept(1, ss[TWO_32], 0) && ss[TWO_32].incs == [TWO_32] && ss[TWO_32].cells == [0]
  {
    hide Wrap32, Unswapped;
    var ss := seq(TWO_32 + 1, k requires 0 <= k => Unswapped(k));
    UnswappedStart();
    forall k | 0 <= k < |ss| - 1
      ensures Next(1, ss[k], ss[k + 1])
    {
      UnswappedStep(k);
    }
    UnswappedEnd();
  }

  lemma UnswappedStart()
    ensures Init(1, Unswapped(0))
  {
    assert Zeros(1) == [0];
  }

  lemma UnswappedStep(k: nat)
    requires k < TWO_32
    ensures Next(1, Unswapped(k), Unswapped(k + 1))
  {
    SmallWord(k);
    WrapOnce(k);
    assert Increment(1, Unswapped(k), Unswapped(k + 1), 0);
  }

  lemma UnswappedEnd()
    ensures var s := Unswapped(TWO_32); s.cells == [0] && s.incs == [TWO_32] && !Kept(1, s, 0)
  {
  }
}

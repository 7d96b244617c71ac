/** The V2 wire form of the slot counts: runs of zero slots as negative numbers,
    other counts as themselves, each as zig-zag LEB128. */
module CountsCodec {
  import opened Bits
  import opened SlotIndex
  import BucketConfig
  import opened HistogramState
  import opened Percentile
  import opened Histogram
  import ZZ = ZigZag

  type Byte = ZZ.Byte
  type Count = x: int | 0 <= x <= INT64_MAX

  /** Length of the run of zeros at the front. */
  function ZeroRun(xs: seq<Count>): (n: nat)
    ensures n <= |xs| && (forall i :: 0 <= i < n ==> xs[i] == 0)
    ensures n < |xs| ==> xs[n] != 0
    ensures xs != [] && xs[0] == 0 ==> n >= 1
  {
    if xs == [] || xs[0] != 0 then 0 else 1 + ZeroRun(xs[1..])
  }

  /** The encoded form of a list of counts. */
  function EncodeCounts(xs: seq<Count>): (bs: seq<Byte>)
    requires |xs| < TWO_31
    ensures |bs| <= ZZ_MAX * |xs|
    decreases |xs|
  {
    if xs == [] then []
    else if xs[0] == 0 then ZZ.Encoded(0 - ZeroRun(xs)) + EncodeCounts(xs[ZeroRun(xs)..])
    else ZZ.Encoded(xs[0]) + EncodeCounts(xs[1..])
  }

  const ZZ_MAX: nat := 9

  datatype Status = Applied | TrailingZerosInvalid | ValueTruncated | InputTooLong

  /** Applies encoded counts to slots, from byte `at` and slot `i` on. */
  function Apply(data: seq<Byte>, limit: nat, at: nat, counts: seq<int>, i: nat): (r: (Status, seq<int>))
    requires |data| >= limit + 9
    ensures |r.1| == |counts|
    decreases limit - at
  {
    if at < limit && i < |counts| then
      var (v, n) := ZZ.Decoded(data[at..at + 9]);
      if v < 0 then
        if v <= 0 - TWO_31 || i - v > |counts| then (TrailingZerosInvalid, counts)
        else Apply(data, limit, at + n, counts, i - v)
      else Apply(data, limit, at + n, counts[i := v], i + 1)
    else if at > limit then (ValueTruncated, counts)
    else if at < limit then (InputTooLong, counts)
    else (Applied, counts)
  }

  // ----- round trip -----

  ghost predicate AllZero(xs: seq<int>) {
    forall i :: 0 <= i < |xs| ==> xs[i] == 0
  }

  /** One turn of the decoder on a number that decodes to v. */
  lemma ApplyItem(data: seq<Byte>, limit: nat, at: nat, counts: seq<int>, i: nat, v: int, n: nat, z: nat)
    requires |data| >= limit + 9 && at < limit && ZZ.Decoded(data[at..at + 9]) == (v, n) && i + z <= |counts|
    requires 1 <= z < TWO_31 && (v < 0 ==> v == 0 - z) && (v >= 0 ==> z == 1)
    ensures Apply(data, limit, at, counts, i) ==
      Apply(data, limit, at + n, if v < 0 then counts else counts[i := v], i + z)
  {
    hide ZZ.Decoded;
  }

  lemma ApplyNothing(data: seq<Byte>, limit: nat, counts: seq<int>, i: nat)
    requires |data| >= limit + 9
    ensures Apply(data, limit, limit, counts, i) == (Applied, counts)
  {
  }

  lemma StillZero(counts: seq<int>, i: nat, z: nat, v: int)
    requires i + z <= |counts| && z >= 1 && AllZero(counts[i..])
    ensures AllZero((if v < 0 then counts else counts[i := v])[i + z..])
  {
    var tail := (if v < 0 then counts else counts[i := v])[i + z..];
    forall k | 0 <= k < |tail|
      ensures tail[k] == 0
    {
      assert counts[i..][z + k] == 0;
    }
  }

  lemma NothingSpliced(counts: seq<int>, i: nat)
    requires i <= |counts|
    ensures counts[..i] + [] + counts[i + 0..] == counts
  {
  }

  /** Decoding from the point where the encoding of `ys` starts writes `ys`. */
  lemma {:induction false} ApplyEncoded(pre: seq<Byte>, ys: seq<Count>, pad: seq<Byte>, counts: seq<int>, i: nat)
    requires |pad| >= 9 && |ys| < TWO_31 && i + |ys| <= |counts| && AllZero(counts[i..])
    ensures var data := pre + EncodeCounts(ys) + pad;
            Apply(data, |data| - |pad|, |pre|, counts, i) == (Applied, counts[..i] + ys + counts[i + |ys|..])
    decreases |ys|
  {
    hide ZZ.Encoded, ZZ.Decoded, Apply, EncodeCounts, AllZero;
    var data := pre + EncodeCounts(ys) + pad;
    if ys == [] {
      NothingEncoded();
      NothingSpliced(counts, i);
      ApplyNothing(data, |pre|, counts, i);
    } else {
      var z, v := FirstItem(ys);
      var head, rest := ZZ.Encoded(v), ys[z..];
      HeadDecodes(pre, v, EncodeCounts(rest), pad);
      assert data == (pre + head) + EncodeCounts(rest) + pad;
      var counts' := if v < 0 then counts else counts[i := v];
      ApplyItem(data, |data| - |pad|, |pre|, counts, i, v, |head|, z);
      StillZero(counts, i, z, v);
      ApplyEncoded(pre + head, rest, pad, counts', i + z);
      SpliceItem(ys, z, v, counts, i);
    }
  }

  /** The first number of an encoding: a count, or a run of zeros negated. */
  lemma FirstItem(ys: seq<Count>) returns (z: nat, v: Int64)
    requires ys != [] && |ys| < TWO_31
    ensures 1 <= z <= |ys| && (v < 0 ==> v == 0 - z && AllZero(ys[..z])) && (v >= 0 ==> z == 1 && v == ys[0])
    ensures EncodeCounts(ys) == ZZ.Encoded(v) + EncodeCounts(ys[z..])
  {
    if ys[0] == 0 {
      z, v := ZeroRun(ys), 0 - ZeroRun(ys);
    } else {
      z, v := 1, ys[0];
    }
  }

  lemma SpliceItem(ys: seq<Count>, z: nat, v: int, counts: seq<int>, i: nat)
    requires 1 <= z <= |ys| && i + |ys| <= |counts| && AllZero(counts[i..])
    requires (v < 0 ==> AllZero(ys[..z])) && (v >= 0 ==> z == 1 && v == ys[0])
    ensures var counts' := if v < 0 then counts else counts[i := v];
            counts'[..i + z] + ys[z..] + counts'[i + |ys|..] == counts[..i] + ys + counts[i + |ys|..]
  {
    var counts' := if v < 0 then counts else counts[i := v];
    assert counts'[..i] == counts[..i] && counts'[i + |ys|..] == counts[i + |ys|..];
    assert counts'[i..i + z] == ys[..z] by {
      forall k | 0 <= k < z
        ensures counts'[i..i + z][k] == ys[..z][k]
      {
        assert counts[i..][k] == 0;
      }
    }
    assert counts'[..i + z] == counts'[..i] + counts'[i..i + z];
    assert ys == ys[..z] + ys[z..];
  }

  /** The nine bytes the decoder looks at start with the encoding. */
  lemma Window(pre: seq<Byte>, e: seq<Byte>, tail: seq<Byte>, pad: seq<Byte>) returns (more: seq<Byte>)
    requires |pad| >= 9 && |e| <= 9
    ensures (pre + (e + tail) + pad)[|pre|..|pre| + 9] == e + more
  {
    var data := pre + (e + tail) + pad;
    var window := data[|pre|..|pre| + 9];
    assert forall k :: 0 <= k < |e| ==> window[k] == e[k];
    more := window[|e|..];
  }

  lemma HeadDecodes(pre: seq<Byte>, v: Int64, tail: seq<Byte>, pad: seq<Byte>)
    requires |pad| >= 9
    ensures var data := pre + (ZZ.Encoded(v) + tail) + pad;
            |data| >= |pre| + 9 && ZZ.Decoded(data[|pre|..|pre| + 9]) == (v, |ZZ.Encoded(v)|)
  {
    hide ZZ.Encoded, ZZ.Decoded;
    var more := Window(pre, ZZ.Encoded(v), tail, pad);
    ZZ.RoundTrip(v, more);
  }

  /** How many slots are encoded: up to the slot of the largest value. */
  function CountsLimit(c: Config, s: State): (n: nat)
    requires 0 <= s.maxValue
    ensures n <= c.countsLen
  {
    var n := IndexFor(c, s.maxValue) + 1;
    if n < c.countsLen then n else c.countsLen
  }

  /** Encoding a consistent histogram and decoding it into a fresh one of the same
      configuration restores every slot and the total, in at most nine bytes a slot. */
  lemma HistogramRoundTrip(c: Config, s: State, pad: seq<Byte>)
    requires Consistent(c, s) && |pad| >= 9
    requires forall i :: 0 <= i < |s.counts| ==> s.counts[i] <= INT64_MAX
    ensures CountsLimit(c, s) < TWO_31
    ensures var bs := EncodeCounts(s.counts[..CountsLimit(c, s)]);
            && |bs| <= ZZ_MAX * CountsLimit(c, s)
            && Apply(bs + pad, |bs|, 0, Empty(c).counts, 0) == (Applied, s.counts)
    ensures Rebuild(c, s.counts).total == s.total
  {
    hide IndexFor, Apply, EncodeCounts, CountsLimit, Valid, Empty, Rebuild, Consistent;
    CountsAreCounts(c, s);
    BucketConfig.CountsLenBound(c);
    var n := CountsLimit(c, s);
    var ys: seq<Count> := s.counts[..n];
    var zeros := Empty(c).counts;
    EmptyIsZero(c);
    ApplyEncoded([], ys, pad, zeros, 0);
    assert [] + EncodeCounts(ys) + pad == EncodeCounts(ys) + pad;
    NothingPastLimit(c, s);
    RestIsZero(s.counts, zeros, n);
    RebuiltTotal(c, s);
  }

  lemma CountsAreCounts(c: Config, s: State)
    requires Consistent(c, s)
    ensures s.maxValue >= 0 && |s.counts| == c.countsLen && forall i :: 0 <= i < |s.counts| ==> 0 <= s.counts[i]
  {
    hide IndexFor;
  }

  lemma EmptyIsZero(c: Config)
    ensures |Empty(c).counts| == c.countsLen && AllZero(Empty(c).counts[0..])
  {
  }

  lemma RestIsZero(counts: seq<int>, zeros: seq<int>, n: nat)
    requires n <= |counts| == |zeros| && AllZero(zeros[0..])
    requires forall i :: n <= i < |counts| ==> counts[i] == 0
    ensures zeros[..0] + counts[..n] + zeros[0 + n..] == counts
  {
    assert zeros[0..] == zeros;
  }

  lemma RebuiltTotal(c: Config, s: State)
    requires Consistent(c, s)
    ensures Rebuild(c, s.counts).total == s.total
  {
    hide IndexFor;
    PositiveSumIsSum(s.counts);
  }

  /** No slot past the encoded ones holds anything. */
  lemma NothingPastLimit(c: Config, s: State)
    requires Consistent(c, s)
    ensures forall i :: CountsLimit(c, s) <= i < c.countsLen ==> s.counts[i] == 0
  {
    hide IndexFor;
  }

  /** What the decoded histogram reports as extremes: exactly the original ones,
      but for a histogram of zeros only and for one of INT64_MAX only. */
  lemma DecodedExtremes(c: Config, s: State)
    requires Consistent(c, s)
    ensures var d := Rebuild(c, s.counts);
            && d.maxValue >= 0 && d.minValue >= 0
            && (Max(c, d) == Max(c, s) <==> s.total == 0 || c.unitMagnitude == 0 || s.maxValue > 0)
            && (Min(c, d) == Min(c, s) <==> s.total == 0 || s.counts[0] > 0 || s.minValue < INT64_MAX)
  {
    hide Rebuild, Consistent, Max, Min;
    RebuildKeepsMax(c, s);
    RebuildKeepsMin(c, s);
  }

  /** A single zero in units wider than one: the decoded maximum is the top of slot 0. */
  lemma ZeroLosesMax(c: Config)
    requires c.unitMagnitude > 0
    ensures var s := Record(c, Empty(c), 0, 1); var d := Rebuild(c, s.counts);
            d.maxValue >= 0 && s.maxValue >= 0 && Max(c, d) != Max(c, s)
  {
    hide Rebuild, Consistent, Max, Min, Record, Limit;
    ZeroRecordable(c);
    RecordOne(c, 0);
    RebuildKeepsMax(c, Record(c, Empty(c), 0, 1));
  }

  /** A single INT64_MAX: its minimum is taken for no minimum. */
  lemma LargestLosesMin(c: Config)
    requires INT64_MAX < Limit(c)
    ensures var s := Record(c, Empty(c), INT64_MAX, 1); var d := Rebuild(c, s.counts);
            d.minValue >= 0 && s.minValue >= 0 && Min(c, d) != Min(c, s)
  {
    hide Rebuild, Consistent, Max, Min, Limit, IndexFor;
    LargestPastSlotZero(c);
    RecordOne(c, INT64_MAX);
    RebuildKeepsMin(c, Record(c, Empty(c), INT64_MAX, 1));
  }

  /** The layout for lowest 1, highest INT64_MAX and one significant figure. */
  ghost function Widest(): Layout {
    Layout(1, INT64_MAX, 1, 0, 4, 32, 16, 31, 59, 960)
  }

  /** It can hold every 63-bit value, so the minimum is lost in a real layout. */
  lemma WidestLosesMin()
    ensures Valid(Widest()) && Limit(Widest()) == TWO_63
    ensures var c: Config := Widest(); var s := Record(c, Empty(c), INT64_MAX, 1); var d := Rebuild(c, s.counts);
            d.minValue >= 0 && s.minValue >= 0 && Min(c, d) != Min(c, s)
  {
    WidestIsValid();
    hide Rebuild, Min, Record, Limit, Valid;
    LargestLosesMin(Widest());
  }

  lemma WidestIsValid()
    ensures Valid(Widest()) && Limit(Widest()) == TWO_63
  {
    Pow2Constants();
    assert Pow2(4) == 16 && Pow2(5) == 32 && Pow2(0) == 1 && Pow2(1) == 2;
    assert Pow10(1) == 10;
    Pow2Add(5, 58);
  }

  // ----- the encoding and decoding loops -----

  /** The encoding of the rest from slot i: its first item, then from the next slot. */
  ghost predicate Item(xs: seq<Count>, i: nat, value: Int64, next: nat) {
    && i < next <= |xs| < TWO_31
    && EncodeCounts(xs[i..]) == ZZ.Encoded(value) + EncodeCounts(xs[next..])
  }

  lemma CountItem(xs: seq<Count>, i: nat)
    requires i < |xs| < TWO_31 && xs[i] != 0
    ensures Item(xs, i, xs[i], i + 1)
  {
    hide ZZ.Encoded;
    assert xs[i..][1..] == xs[i + 1..];
  }

  lemma ZerosItem(xs: seq<Count>, i: nat, next: nat)
    requires i < next <= |xs| < TWO_31 && ZeroRun(xs[i..]) == next - i
    ensures Item(xs, i, 0 - (next - i), next)
  {
    hide ZZ.Encoded;
    assert xs[i..][next - i..] == xs[next..];
  }

  lemma ZeroRunMore(xs: seq<Count>, i: nat)
    requires i < |xs| && xs[i] == 0
    ensures ZeroRun(xs[i..]) == 1 + ZeroRun(xs[i + 1..])
  {
    assert xs[i..][1..] == xs[i + 1..];
  }

  lemma ZeroRunEnds(xs: seq<Count>, i: nat)
    requires i <= |xs| && (i < |xs| ==> xs[i] != 0)
    ensures ZeroRun(xs[i..]) == 0
  {
  }

  /** Takes one count, or a whole run of zeros, off the slots from i on. */
  method NextItem(counts: array<int>, i: nat, limit: nat) returns (value: Int64, next: nat)
    requires i < limit <= counts.Length && limit < TWO_31
    requires forall k :: 0 <= k < counts.Length ==> 0 <= counts[k] <= INT64_MAX
    ensures Item(counts[..limit], i, value, next)
  {
    hide Item, ZeroRun;
    ghost var xs: seq<Count> := counts[..limit];
    value, next := counts[i], i + 1;
    if value == 0 {
      var zeros := 1;
      ZeroRunMore(xs, i);
      while next < limit && 0 == counts[next]
        invariant i < next <= limit && zeros == next - i
        invariant ZeroRun(xs[i..]) == zeros + ZeroRun(xs[next..])
      {
        ZeroRunMore(xs, next);
        zeros := zeros + 1;
        next := next + 1;
      }
      ZeroRunEnds(xs, next);
      ZerosItem(xs, i, next);
      value := -zeros;
    } else {
      CountItem(xs, i);
    }
  }

  /** Encodes the slots up to that of the largest value into a fresh buffer. */
  method EncodeSlots(h: Histogram) returns (buffer: array<Byte>, n: nat)
    requires h.Valid() && forall i :: 0 <= i < h.counts.Length ==> 0 <= h.counts[i] <= INT64_MAX
    ensures CountsLimit(h.c, h.View()) < TWO_31 && n <= buffer.Length
    ensures buffer[..n] == EncodeCounts(h.counts[..CountsLimit(h.c, h.View())])
  {
    hide IndexFor, ZZ.Encoded, EncodeCounts;
    BucketConfig.CountsLenBound(h.c);
    var lenToMax := IndexFor(h.c, h.maxValue) + 1;
    var limit := if lenToMax < h.c.countsLen then lenToMax else h.c.countsLen;
    ghost var xs: seq<Count> := h.counts[..limit];
    buffer := new Byte[ZZ_MAX * limit](_ => 0);
    n := 0;
    var i := 0;
    assert xs[0..] == xs;
    while i < limit
      invariant 0 <= i <= limit && n <= ZZ_MAX * i
      invariant EncodeCounts(xs) == buffer[..n] + EncodeCounts(xs[i..])
      decreases limit - i
    {
      ghost var done := buffer[..n];
      var value, next := NextItem(h.counts, i, limit);
      var written := ZZ.Encode(buffer, n, value);
      assert buffer[..n + written] == done + ZZ.Encoded(value);
      n := n + written;
      i := next;
    }
    assert xs[i..] == [] && h.counts[..limit] == xs;
    NothingEncoded();
    NoPrefixLeft(buffer[..n]);
  }

  lemma NoPrefixLeft(bs: seq<Byte>)
    ensures bs + [] == bs
  {
  }

  lemma NothingEncoded()
    ensures EncodeCounts([]) == []
  {
  }

  /** Decodes counts into the slots; zero runs skip slots without writing them. */
  method ApplyToSlots(counts: array<int>, data: array<Byte>, limit: nat) returns (status: Status)
    requires data.Length >= limit + 9
    modifies counts
    ensures (status, counts[..]) == Apply(data[..], limit, 0, old(counts[..]), 0)
  {
    hide ZZ.Decoded;
    var at, i := 0, 0;
    while at < limit && i < counts.Length
      invariant 0 <= i <= counts.Length
      invariant Apply(data[..], limit, at, counts[..], i) == Apply(data[..], limit, 0, old(counts[..]), 0)
      decreases limit - at
    {
      var value, n := ZZ.Decode(data, at);
      assert data[..][at..at + 9] == data[at..at + 9];
      at := at + n;
      if value < 0 {
        var zeros := -value;
        if value <= 0 - TWO_31 || i + zeros > counts.Length {
          return TrailingZerosInvalid;
        }
        i := i + zeros;
      } else {
        ghost var before := counts[..];
        counts[i] := value;
        assert counts[..] == before[i := value];
        i := i + 1;
      }
    }
    if at > limit {
      return ValueTruncated;
    } else if at < limit {
      return InputTooLong;
    }
    return Applied;
  }

  /** Decoding builds a fresh histogram and recomputes its counters. */
  method DecodeHistogram(c: Config, data: array<Byte>, limit: nat) returns (status: Status, h: Histogram)
    requires data.Length >= limit + 9
    ensures fresh(h) && h.c == c
    ensures status == Apply(data[..], limit, 0, Empty(c).counts, 0).0
    ensures status == Applied ==> h.View() == Rebuild(c, Apply(data[..], limit, 0, Empty(c).counts, 0).1)
  {
    hide Rebuild, Apply;
    h := new Histogram(c);
    status := ApplyToSlots(h.counts, data, limit);
    if status == Applied {
      h.ResetInternalCounters();
    }
  }
}

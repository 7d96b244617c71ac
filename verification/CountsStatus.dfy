/** What decoding makes of arbitrary data: which slots it writes, and exactly when it
    answers with each of its errors. */
module CountsStatus {
  import opened Bits
  import opened CountsCodec
  import ZZ = ZigZag

  /** A number read from the data and the bytes it took. */
  type Item = (int, nat)

  /** Slots a number stands for: itself, or a run of zeros. */
  function Width(v: int): nat {
    if v < 0 then 0 - v else 1
  }

  /** Bytes taken by a list of numbers. */
  function Taken(vs: seq<Item>): nat {
    if vs == [] then 0 else Taken(vs[..|vs| - 1]) + vs[|vs| - 1].1
  }

  /** Slots covered by a list of numbers. */
  function Covered(vs: seq<Item>): nat {
    if vs == [] then 0 else Covered(vs[..|vs| - 1]) + Width(vs[|vs| - 1].0)
  }

  /** A run of zeros is shorter than 2^31 and stays within the slots. */
  predicate RunFits(v: int, i: nat, len: nat) {
    v < 0 ==> 0 - TWO_31 < v && i - v <= len
  }

  /** The number that starts at a byte. */
  function At(data: seq<ZZ.Byte>, at: nat): Item
    requires at + 9 <= |data|
  {
    ZZ.Decoded(data[at..at + 9])
  }

  /** The numbers stand in the data one after the other, each starting before the
      limit and the last slot, and each fitting. */
  ghost predicate Reads(data: seq<ZZ.Byte>, limit: nat, len: nat, vs: seq<Item>)
    requires |data| >= limit + 9
  {
    vs != [] ==>
      var before, last := vs[..|vs| - 1], vs[|vs| - 1];
      && Reads(data, limit, len, before) && Taken(before) < limit && Covered(before) < len
      && last == At(data, Taken(before)) && RunFits(last.0, Covered(before), len)
  }

  /** The slots after those numbers: counts in their places, runs skipped. */
  function Written(vs: seq<Item>, counts: seq<int>): (r: seq<int>)
    ensures |r| == |counts|
  {
    if vs == [] then counts
    else
      var w, i, v := Written(vs[..|vs| - 1], counts), Covered(vs[..|vs| - 1]), vs[|vs| - 1].0;
      if v < 0 || i >= |counts| then w else w[i := v]
  }

  lemma {:induction false} CoveredGrows(vs: seq<Item>, k: nat)
    requires k <= |vs|
    ensures Covered(vs[..k]) <= Covered(vs)
    ensures k < |vs| ==> Covered(vs[..k]) + Width(vs[k].0) <= Covered(vs)
    decreases |vs|
  {
    if k < |vs| {
      var n := |vs| - 1;
      assert vs[..n][..k] == vs[..k];
      CoveredGrows(vs[..n], k);
    } else {
      assert vs[..k] == vs;
    }
  }

  /** Every count is where the numbers before it put it, */
  lemma {:induction false} WrittenAt(vs: seq<Item>, counts: seq<int>, k: nat)
    requires k < |vs| && vs[k].0 >= 0 && Covered(vs[..k]) < |counts|
    ensures Written(vs, counts)[Covered(vs[..k])] == vs[k].0
    decreases |vs|
  {
    var n := |vs| - 1;
    if k < n {
      assert vs[..n][..k] == vs[..k];
      WrittenAt(vs[..n], counts, k);
      CoveredGrows(vs[..n], k);
    }
  }

  /** and no other slot is touched. */
  lemma {:induction false} NotWritten(vs: seq<Item>, counts: seq<int>, j: nat)
    requires j < |counts| && forall k :: 0 <= k < |vs| && vs[k].0 >= 0 ==> Covered(vs[..k]) != j
    ensures Written(vs, counts)[j] == counts[j]
  {
    if vs != [] {
      var n := |vs| - 1;
      assert forall k :: 0 <= k < n ==> vs[..n][..k] == vs[..k];
      NotWritten(vs[..n], counts, j);
    }
  }

  /** Decoding goes on behind what it has read. */
  lemma {:induction false} ReadsOn(data: seq<ZZ.Byte>, limit: nat, counts: seq<int>, vs: seq<Item>)
    requires |data| >= limit + 9 && Reads(data, limit, |counts|, vs)
    ensures Apply(data, limit, 0, counts, 0) == Apply(data, limit, Taken(vs), Written(vs, counts), Covered(vs))
  {
    hide ZZ.Decoded;
    if vs != [] { ReadsOn(data, limit, counts, vs[..|vs| - 1]); }
  }

  /** Why decoding stops behind a list of numbers, if it does. */
  ghost predicate StopsWith(data: seq<ZZ.Byte>, limit: nat, len: nat, vs: seq<Item>, status: Status)
    requires |data| >= limit + 9
  {
    && Reads(data, limit, len, vs)
    && match status
       case Applied => Taken(vs) == limit
       case ValueTruncated => Taken(vs) > limit
       case InputTooLong => Taken(vs) < limit && Covered(vs) >= len
       case TrailingZerosInvalid =>
         Taken(vs) < limit && Covered(vs) < len && !RunFits(At(data, Taken(vs)).0, Covered(vs), len)
  }

  lemma StopGives(data: seq<ZZ.Byte>, limit: nat, counts: seq<int>, vs: seq<Item>, status: Status)
    requires |data| >= limit + 9 && StopsWith(data, limit, |counts|, vs, status)
    ensures Apply(data, limit, 0, counts, 0) == (status, Written(vs, counts))
  {
    hide ZZ.Decoded, Written, Reads;
    ReadsOn(data, limit, counts, vs);
  }

  /** It always does stop. */
  lemma {:induction false} FindStop(data: seq<ZZ.Byte>, limit: nat, len: nat, vs: seq<Item>)
    returns (all: seq<Item>, status: Status)
    requires |data| >= limit + 9 && Reads(data, limit, len, vs)
    ensures StopsWith(data, limit, len, all, status)
    decreases limit - Taken(vs)
  {
    hide ZZ.Decoded;
    all := vs;
    if Taken(vs) == limit {
      status := Applied;
    } else if Taken(vs) > limit {
      status := ValueTruncated;
    } else if Covered(vs) >= len {
      status := InputTooLong;
    } else {
      var next := At(data, Taken(vs));
      if RunFits(next.0, Covered(vs), len) {
        var more := vs + [next];
        assert more[..|vs|] == vs;
        all, status := FindStop(data, limit, len, more);
      } else {
        status := TrailingZerosInvalid;
      }
    }
  }

  /** Decoding answers with a status, having written these slots, if and only if the data
      is a list of numbers behind which it has to stop that way. */
  lemma StatusIff(data: seq<ZZ.Byte>, limit: nat, counts: seq<int>, status: Status)
    requires |data| >= limit + 9
    ensures Apply(data, limit, 0, counts, 0).0 == status <==> exists vs: seq<Item> :: StopsWith(data, limit, |counts|, vs, status)
    ensures forall vs: seq<Item> :: StopsWith(data, limit, |counts|, vs, status) ==>
              Apply(data, limit, 0, counts, 0).1 == Written(vs, counts)
  {
    hide Apply, StopsWith, Written;
    forall vs: seq<Item> | StopsWith(data, limit, |counts|, vs, status)
      ensures Apply(data, limit, 0, counts, 0) == (status, Written(vs, counts))
    {
      StopGives(data, limit, counts, vs, status);
    }
    NothingRead(data, limit, |counts|);
    var vs, found := FindStop(data, limit, |counts|, []);
    StopGives(data, limit, counts, vs, found);
  }

  lemma NothingRead(data: seq<ZZ.Byte>, limit: nat, len: nat)
    requires |data| >= limit + 9
    ensures Reads(data, limit, len, [])
  {
  }

  // ----- the numbers an encoding consists of -----

  /** Their encodings one after the other. */
  function Joined(vs: seq<Int64>): seq<ZZ.Byte> {
    if vs == [] then [] else ZZ.Encoded(vs[0]) + Joined(vs[1..])
  }

  /** The counts they stand for. */
  function Expanded(vs: seq<Int64>): seq<int> {
    if vs == [] then []
    else (if vs[0] < 0 then seq(0 - vs[0], _ => 0) else [vs[0]]) + Expanded(vs[1..])
  }

  /** No zero is written as a count, and no run of zeros follows another. */
  ghost predicate Compact(vs: seq<Int64>) {
    && (forall k :: 0 <= k < |vs| ==> vs[k] != 0)
    && (forall i, j :: 0 <= i < j < |vs| && j == i + 1 ==> vs[i] > 0 || vs[j] > 0)
  }

  /** Encoding writes the counts as such numbers, every run of zeros as long as it is. */
  lemma {:induction false} EncodedNumbers(xs: seq<Count>) returns (vs: seq<Int64>)
    requires |xs| < TWO_31
    ensures EncodeCounts(xs) == Joined(vs) && Expanded(vs) == xs && Compact(vs)
    ensures if xs == [] then vs == [] else vs != [] && vs[0] != 0 && (vs[0] < 0 <==> xs[0] == 0)
    decreases |xs|
  {
    hide EncodeCounts, Compact, Joined, Expanded, AllZero;
    if xs == [] {
      vs := [];
      NoNumbers();
    } else {
      var z, v := FirstNumber(xs);
      var rest := EncodedNumbers(xs[z..]);
      vs := [v] + rest;
      OneMore(v, rest);
      assert xs == xs[..z] + xs[z..];
    }
  }

  lemma NoNumbers()
    ensures EncodeCounts([]) == Joined([]) && Expanded([]) == [] && Compact([])
  {
  }

  /** The first number covers the whole run it stands for. */
  lemma FirstNumber(xs: seq<Count>) returns (z: nat, v: Int64)
    requires xs != [] && |xs| < TWO_31
    ensures 1 <= z <= |xs| && EncodeCounts(xs) == ZZ.Encoded(v) + EncodeCounts(xs[z..])
    ensures v != 0 && (v < 0 <==> xs[0] == 0) && (v < 0 ==> z == |xs| || xs[z] != 0)
    ensures xs[..z] == if v < 0 then seq(0 - v, _ => 0) else [v]
  {
    hide ZZ.Encoded;
    if xs[0] == 0 {
      z := ZeroRun(xs);
      v := 0 - z;
    } else {
      z, v := 1, xs[0];
    }
  }

  lemma OneMore(v: Int64, rest: seq<Int64>)
    requires v != 0 && Compact(rest) && (v < 0 && rest != [] ==> rest[0] > 0)
    ensures Compact([v] + rest) && Joined([v] + rest) == ZZ.Encoded(v) + Joined(rest)
    ensures Expanded([v] + rest) == (if v < 0 then seq(0 - v, _ => 0) else [v]) + Expanded(rest)
  {
    hide ZZ.Encoded;
    var vs := [v] + rest;
    assert vs[1..] == rest;
    forall i, j | 0 <= i < j < |vs| && j == i + 1
      ensures vs[i] > 0 || vs[j] > 0
    {
      if i > 0 { assert vs[i] == rest[i - 1] && vs[j] == rest[j - 1]; }
    }
  }
}

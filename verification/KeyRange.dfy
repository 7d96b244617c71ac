/** How a linear insert or delete stage shares its keys among worker threads, in
    64-bit unsigned arithmetic. */
module KeyRange {
  import opened Bits

  /** A stage's keys and batch size, and the number of worker threads. */
  datatype Share = Share(keyStart: nat, keyEnd: nat, threads: nat, batch: nat)

  /** What stage and thread-count validation lets through. */
  type Stage = s: Share | s.keyStart < s.keyEnd < TWO_64 && 1 <= s.threads <= 10000 && s.batch < TWO_32
    witness Share(0, 1, 1, 1)

  function Wrap64(x: nat): (r: nat)
    ensures r < TWO_64
  {
    x % TWO_64
  }

  function KeyCount(s: Stage): nat {
    s.keyEnd - s.keyStart
  }

  /** Where thread t's subrange begins, and so where thread t - 1's ends. */
  function Bound(s: Stage, t: nat): nat {
    hide Wrap64;
    QuotientNat(Wrap64(KeyCount(s) * t), s.threads);
    Wrap64(s.keyStart + Wrap64(KeyCount(s) * t) / s.threads)
  }

  /** The subranges are in order, disjoint and cover the stage's keys. */
  ghost predicate Tiles(s: Stage) {
    && Bound(s, 0) == s.keyStart && Bound(s, s.threads) == s.keyEnd
    && forall t: nat :: t < s.threads ==> Bound(s, t) <= Bound(s, t + 1)
  }

  lemma DivMonotone(a: nat, b: nat, d: nat)
    requires a <= b && d > 0
    ensures a / d <= b / d
  {
    DivMod(a, d);
    DivMod(b, d);
    if a / d > b / d {
      MulStrictMono(b / d, a / d, d);
    }
  }

  lemma SmallStays(x: nat)
    requires x < TWO_64
    ensures Wrap64(x) == x
  {
  }

  /** Without overflow a bound is the exact quotient. */
  lemma ExactBound(s: Stage, t: nat)
    requires KeyCount(s) * s.threads < TWO_64 && t <= s.threads
    ensures Bound(s, t) == s.keyStart + KeyCount(s) * t / s.threads <= s.keyEnd
  {
    var k, n := KeyCount(s), s.threads;
    QuotientOfShare(k, t, n);
    SmallStays(k * t);
    SmallStays(s.keyStart + k * t / n);
    hide Wrap64;
  }

  lemma QuotientOfShare(k: nat, t: nat, n: nat)
    requires t <= n && n > 0
    ensures 0 <= k * t <= k * n && 0 <= k * t / n <= k
  {
    MulMono(t, n, k);
    DivMonotone(k * t, k * n, n);
    DivModUnique(k * n, n, k, 0);
  }

  lemma QuotientOfLess(w: nat, k: nat, n: nat)
    requires n > 0 && w < k * n
    ensures w / n < k
  {
    DivMod(w, n);
    if w / n >= k { MulMono(k, w / n, n); }
  }

  lemma WrapsBelow(x: nat)
    requires x >= TWO_64
    ensures Wrap64(x) < x
  {
  }

  /** A product that overflows loses at least one key from the last subrange. */
  lemma OverflowLoses(s: Stage)
    requires KeyCount(s) * s.threads >= TWO_64
    ensures Bound(s, s.threads) < s.keyEnd
  {
    var k, n := KeyCount(s), s.threads;
    WrapsBelow(k * n);
    var w := Wrap64(k * n);
    hide KeyCount;
    QuotientOfLess(w, k, n);
    SmallStays(s.keyStart + w / n);
    hide Wrap64;
  }

  lemma QuotientsAscend(k: nat, t: nat, n: nat)
    requires n > 0
    ensures k * t / n <= k * (t + 1) / n
  {
    MulMono(t, t + 1, k);
    DivMonotone(k * t, k * (t + 1), n);
  }

  lemma OrderedBounds(s: Stage, t: nat)
    requires KeyCount(s) * s.threads < TWO_64 && t < s.threads
    ensures Bound(s, t) <= Bound(s, t + 1)
  {
    hide Bound, KeyCount;
    ExactBound(s, t);
    ExactBound(s, t + 1);
    QuotientsAscend(KeyCount(s), t, s.threads);
  }

  /** Subranges tile the keys exactly when keys times threads fits in 64 bits. */
  lemma TilesIff(s: Stage)
    ensures Tiles(s) <==> KeyCount(s) * s.threads < TWO_64
  {
    var k, n := KeyCount(s), s.threads;
    if k * n < TWO_64 {
      ExactBound(s, 0);
      ExactBound(s, n);
      hide Bound;
      DivModUnique(k * n, n, k, 0);
      DivModUnique(k * 0, n, 0, 0);
      forall t: nat | t < n
        ensures Bound(s, t) <= Bound(s, t + 1)
      {
        OrderedBounds(s, t);
      }
    } else {
      hide Bound;
      OverflowLoses(s);
    }
  }

  /** 2^63 keys on two threads: the second thread's end wraps to the first key. */
  lemma OverflowExample()
    ensures var s: Stage := Share(0, TWO_63, 2, 1);
      Bound(s, 1) == TWO_63 / 2 && Bound(s, 2) == 0 && !Tiles(s)
  {
    TilesIff(Share(0, TWO_63, 2, 1));
  }

  // ----- the issuing loop -----

  function Interval(a: nat, b: nat): (r: seq<nat>)
    requires a <= b
    ensures |r| == b - a && forall i :: 0 <= i < |r| ==> r[i] == a + i
  {
    seq(b - a, i => a + i)
  }

  /** The same keys as a 64-bit counter shows them. */
  function Wrapped(a: nat, b: nat): (r: seq<nat>)
    requires a <= b
    ensures |r| == b - a && forall i :: 0 <= i < |r| ==> r[i] == Wrap64(a + i)
  {
    seq<nat>(b - a, i requires 0 <= i => Wrap64(a + i))
  }

  type Word = x: int | 0 <= x < TWO_64

  /** How far one turn moves the counter: one key, or a batch. */
  type Step = x: int | 1 <= x < TWO_32 witness 1

  function Stride(batch: nat): Step
    requires batch < TWO_32
  {
    if batch <= 1 then 1 else batch
  }

  /** Keys issued from counter k in at most n turns of the loop: a batch of
      consecutive 64-bit keys while the counter is below the end. */
  function KeysIn(k: Word, end: Word, stride: Step, n: nat): (r: seq<nat>)
    ensures forall i :: 0 <= i < |r| ==> r[i] < TWO_64
    decreases n
  {
    hide Wrap64;
    if n == 0 || k >= end then [] else Wrapped(k, k + stride) + KeysIn(Wrap64(k + stride), end, stride, n - 1)
  }

  /** The counter after at most n turns; the loop has ended when it is at the end or past it. */
  function CounterAfter(k: Word, end: Word, stride: Step, n: nat): Word
    decreases n
  {
    hide Wrap64;
    if n == 0 || k >= end then k else CounterAfter(Wrap64(k + stride), end, stride, n - 1)
  }

  /** Turns until an unbounded counter is at the end or past it. */
  function Turns(k: nat, end: nat, stride: Step): nat
    decreases end - k
  {
    if k >= end then 0 else 1 + Turns(k + stride, end, stride)
  }

  /** The first value at or past the end that an unbounded counter takes. */
  function Reach(k: nat, end: nat, stride: Step): (r: nat)
    ensures k <= r && (k < end ==> end <= r < end + stride) && (k >= end ==> r == k)
    decreases end - k
  {
    if k >= end then k else Reach(k + stride, end, stride)
  }

  /** Both from the stage's numbers: whole strides up to the end. */
  lemma {:induction false} ReachIs(k: nat, end: nat, stride: Step)
    ensures Reach(k, end, stride) == k + Turns(k, end, stride) * stride
    ensures Turns(k, end, stride) == if k >= end then 0 else (end - k - 1) / stride + 1
    decreases end - k
  {
    if k < end {
      ReachIs(k + stride, end, stride);
      var m := Turns(k + stride, end, stride);
      MulSucc(m, stride);
      var r := end - k - 1 - m * stride;
      ReachBounds(k + stride, end, stride, m);
      DivModUnique(end - k - 1, stride, m, r);
    }
  }

  lemma ReachBounds(k: nat, end: nat, stride: Step, m: nat)
    requires Reach(k, end, stride) == k + m * stride && k < end + stride
    requires k >= end ==> m == 0
    ensures 0 <= end - (k - stride) - 1 - m * stride < stride
  {
  }

  /** The loop's first turns issue every key up to the reach, as 64-bit keys. */
  lemma {:induction false} FirstTurns(k: Word, end: Word, stride: Step)
    ensures KeysIn(k, end, stride, Turns(k, end, stride)) == Wrapped(k, Reach(k, end, stride))
    ensures CounterAfter(k, end, stride, Turns(k, end, stride)) == Wrap64(Reach(k, end, stride))
    decreases end - k
  {
    hide Wrap64;
    if k >= end {
      SmallStays(k);
    } else if k + stride < end {
      SmallStays(k + stride);
      FirstTurns(k + stride, end, stride);
    } else {
      var next := Wrap64(k + stride);
      assert Turns(k, end, stride) == 1 && Reach(k, end, stride) == k + stride;
      assert KeysIn(next, end, stride, 0) == [] && CounterAfter(next, end, stride, 0) == next;
    }
  }

  lemma WrapPast(r: nat)
    requires TWO_64 <= r < 2 * TWO_64
    ensures Wrap64(r) == r - TWO_64
  {
  }

  lemma WrappedFits(a: nat, b: nat)
    requires a <= b <= TWO_64
    ensures Wrapped(a, b) == Interval(a, b)
  {
    hide Wrap64;
    forall i | 0 <= i < b - a
      ensures Wrapped(a, b)[i] == Interval(a, b)[i]
    {
      SmallStays(a + i);
    }
  }

  /** Turns add up: the loop goes on from where its counter is. */
  lemma {:induction false} TurnsSplit(k: Word, end: Word, stride: Step, a: nat, b: nat)
    ensures CounterAfter(k, end, stride, a + b) == CounterAfter(CounterAfter(k, end, stride, a), end, stride, b)
    ensures KeysIn(k, end, stride, a + b) ==
      KeysIn(k, end, stride, a) + KeysIn(CounterAfter(k, end, stride, a), end, stride, b)
    decreases a
  {
    hide Wrap64;
    if a > 0 && k < end {
      TurnsSplit(Wrap64(k + stride), end, stride, a - 1, b);
    }
  }

  lemma LoopOver(k: Word, end: Word, stride: Step, n: nat)
    requires n == 0 || k >= end
    ensures CounterAfter(k, end, stride, n) == k && KeysIn(k, end, stride, n) == []
  {
  }

  /** The loop ends, having issued exactly these keys. */
  ghost predicate EndsWith(k: Word, end: Word, stride: Step, keys: seq<nat>) {
    exists n: nat :: CounterAfter(k, end, stride, n) >= end && KeysIn(k, end, stride, n) == keys
  }

  /** A reach within 64 bits: the loop has ended after its turns, and stays so. */
  lemma LoopFits(k: Word, end: Word, stride: Step, n: nat)
    requires Reach(k, end, stride) < TWO_64 && n >= Turns(k, end, stride)
    ensures KeysIn(k, end, stride, n) == Interval(k, Reach(k, end, stride))
    ensures CounterAfter(k, end, stride, n) == Reach(k, end, stride) >= end
  {
    hide KeysIn, CounterAfter, Turns, Wrap64;
    var m := Turns(k, end, stride);
    FirstTurns(k, end, stride);
    SmallStays(Reach(k, end, stride));
    WrappedFits(k, Reach(k, end, stride));
    TurnsSplit(k, end, stride, m, n - m);
    LoopOver(Reach(k, end, stride), end, stride, n - m);
  }

  /** A reach past 64 bits: after its turns the counter is below the end again. */
  lemma LoopWraps(k: Word, end: Word, stride: Step)
    requires Reach(k, end, stride) >= TWO_64
    ensures k < end && CounterAfter(k, end, stride, Turns(k, end, stride)) == Reach(k, end, stride) - TWO_64 < end
  {
    hide KeysIn, CounterAfter, Turns, Wrap64;
    FirstTurns(k, end, stride);
    WrapPast(Reach(k, end, stride));
  }

  /** Before the reach the loop goes on; past a wrapped reach it goes on too. */
  lemma GoesOn(k: Word, end: Word, stride: Step, n: nat)
    requires n <= Turns(k, end, stride) && (n == Turns(k, end, stride) ==> Reach(k, end, stride) >= TWO_64)
    ensures CounterAfter(k, end, stride, n) < end
  {
    hide KeysIn, CounterAfter, Wrap64;
    if n == Turns(k, end, stride) {
      LoopWraps(k, end, stride);
    } else {
      BeforeReach(k, end, stride, n);
    }
  }

  lemma {:induction false} BeforeReach(k: Word, end: Word, stride: Step, n: nat)
    requires n < Turns(k, end, stride)
    ensures CounterAfter(k, end, stride, n) == k + n * stride < end
    decreases n
  {
    hide Wrap64;
    if n > 0 {
      assert k + stride < end;
      SmallStays(k + stride);
      BeforeReach(k + stride, end, stride, n - 1);
      MulSucc(n - 1, stride);
    }
  }

  /** The loop's guard, with a reach within 64 bits, is the count of turns. */
  lemma GuardIsCount(k: Word, end: Word, stride: Step, n: nat)
    requires Reach(k, end, stride) < TWO_64
    ensures CounterAfter(k, end, stride, n) < end <==> n < Turns(k, end, stride)
  {
    hide KeysIn, CounterAfter, Turns, Reach;
    if n < Turns(k, end, stride) {
      GoesOn(k, end, stride, n);
    } else {
      LoopFits(k, end, stride, n);
    }
  }

  /** A worker's loop ends, having issued exactly the keys from its start to its
      reach, if and only if that reach is within 64 bits. */
  lemma LoopEndsIff(k: Word, end: Word, stride: Step)
    ensures EndsWith(k, end, stride, Interval(k, Reach(k, end, stride))) <==> Reach(k, end, stride) < TWO_64
  {
    hide KeysIn, CounterAfter, Turns, Reach, Wrap64;
    var r, m := Reach(k, end, stride), Turns(k, end, stride);
    if r < TWO_64 {
      LoopFits(k, end, stride, m);
    } else {
      forall n: nat | CounterAfter(k, end, stride, n) >= end
        ensures KeysIn(k, end, stride, n) != Interval(k, r)
      {
        WrappedLoopDiffers(k, end, stride, n);
      }
    }
  }

  lemma WrappedLoopDiffers(k: Word, end: Word, stride: Step, n: nat)
    requires Reach(k, end, stride) >= TWO_64 && CounterAfter(k, end, stride, n) >= end
    ensures |KeysIn(k, end, stride, n)| > Reach(k, end, stride) - k
  {
    hide KeysIn, CounterAfter, Turns, Reach, Wrap64;
    var m := Turns(k, end, stride);
    LoopWraps(k, end, stride);
    if n <= m {
      TurnsSplit(k, end, stride, n, m - n);
      LoopOver(CounterAfter(k, end, stride, n), end, stride, m - n);
    } else {
      FirstTurns(k, end, stride);
      TurnsSplit(k, end, stride, m, n - m);
      OneTurn(CounterAfter(k, end, stride, m), end, stride, n - m);
    }
  }

  lemma OneTurn(k: Word, end: Word, stride: Step, n: nat)
    requires k < end && n > 0
    ensures |KeysIn(k, end, stride, n)| > 0 && KeysIn(k, end, stride, n)[0] == k
  {
    SmallStays(k);
  }

  /** One worker's loop over [start, end): single keys, or batches of consecutive
      keys. The do_work flag reads true at the loop head `turns` times. */
  method IssueLinear(start: Word, end: Word, batch: nat, turns: nat) returns (keys: seq<nat>, key: Word)
    requires batch < TWO_32
    ensures keys == KeysIn(start, end, Stride(batch), turns) && key == CounterAfter(start, end, Stride(batch), turns)
    ensures turns >= Turns(start, end, Stride(batch)) && Reach(start, end, Stride(batch)) < TWO_64 ==>
      keys == Interval(start, Reach(start, end, Stride(batch))) && key >= end
  {
    hide Reach, Turns, KeysIn, CounterAfter, Wrap64;
    var stride := Stride(batch);
    key, keys := start, [];
    var left := turns;
    while left > 0 && key < end
      invariant keys + KeysIn(key, end, stride, left) == KeysIn(start, end, stride, turns)
      invariant CounterAfter(key, end, stride, left) == CounterAfter(start, end, stride, turns)
    {
      TurnTaken(key, end, stride, left, keys);
      var issued := IssueOne(key, batch);
      keys := keys + issued;
      key := Wrap64(key + stride);
      left := left - 1;
    }
    LoopOver(key, end, stride, left);
    if turns >= Turns(start, end, stride) && Reach(start, end, stride) < TWO_64 {
      LoopFits(start, end, stride, turns);
    }
  }

  lemma TurnTaken(k: Word, end: Word, stride: Step, n: nat, done: seq<nat>)
    requires n > 0 && k < end
    ensures CounterAfter(k, end, stride, n) == CounterAfter(Wrap64(k + stride), end, stride, n - 1)
    ensures done + KeysIn(k, end, stride, n) ==
      done + Wrapped(k, k + stride) + KeysIn(Wrap64(k + stride), end, stride, n - 1)
  {
    hide Wrap64;
  }

  /** One turn: a single key, or a batch from this key on. */
  method IssueOne(key: Word, batch: nat) returns (keys: seq<nat>)
    requires batch < TWO_32
    ensures keys == Wrapped(key, key + Stride(batch))
  {
    hide Wrap64;
    SmallStays(key);
    if batch <= 1 {
      return [key];
    }
    var next := key;
    keys := [];
    for i := 0 to batch
      invariant next == Wrap64(key + i)
      invariant keys == Wrapped(key, key + i)
    {
      keys := keys + [next];
      NextWord(key + i);
      next := Wrap64(next + 1);
    }
  }

  lemma NextWord(x: nat)
    ensures Wrap64(Wrap64(x) + 1) == Wrap64(x + 1)
  {
  }

  // ----- the threads of a stage -----

  function BoundWord(s: Stage, t: nat): Word {
    hide Wrap64;
    Bound(s, t)
  }

  function ReachOf(s: Stage, t: nat): nat {
    Reach(BoundWord(s, t), BoundWord(s, t + 1), Stride(s.batch))
  }

  function TurnsOf(s: Stage, t: nat): nat {
    Turns(BoundWord(s, t), BoundWord(s, t + 1), Stride(s.batch))
  }

  /** What thread t's loop issues in at most n turns. */
  function IssuedIn(s: Stage, t: nat, n: nat): seq<nat> {
    KeysIn(BoundWord(s, t), BoundWord(s, t + 1), Stride(s.batch), n)
  }

  /** Thread t's counter then. */
  function KeyOf(s: Stage, t: nat, n: nat): Word {
    CounterAfter(BoundWord(s, t), BoundWord(s, t + 1), Stride(s.batch), n)
  }

  /** Thread t's loop ends, having issued exactly the keys of its subrange. */
  ghost predicate IssuesItsOwn(s: Stage, t: nat) {
    && Bound(s, t) <= Bound(s, t + 1)
    && EndsWith(BoundWord(s, t), BoundWord(s, t + 1), Stride(s.batch), Interval(Bound(s, t), Bound(s, t + 1)))
  }

  /** What the first n threads issue, each in the turns its subrange takes. */
  function IssuedByFirst(s: Stage, n: nat): seq<nat> {
    if n == 0 then [] else IssuedByFirst(s, n - 1) + IssuedIn(s, n - 1, TurnsOf(s, n - 1))
  }

  lemma {:induction false} BoundsUp(s: Stage, t: nat)
    requires Tiles(s) && t <= s.threads
    ensures s.keyStart <= Bound(s, t)
  {
    hide Bound;
    if t > 0 {
      BoundsUp(s, t - 1);
      assert Bound(s, t - 1) <= Bound(s, t - 1 + 1);
    }
  }

  lemma {:induction false} BoundsDown(s: Stage, t: nat)
    requires Tiles(s) && t <= s.threads
    ensures Bound(s, t) <= s.keyEnd
    decreases s.threads - t
  {
    hide Bound;
    if t < s.threads { BoundsDown(s, t + 1); }
  }

  lemma {:induction false} FirstThreads(s: Stage, n: nat)
    requires Tiles(s) && s.batch <= 1 && n <= s.threads
    ensures s.keyStart <= Bound(s, n) && IssuedByFirst(s, n) == Interval(s.keyStart, Bound(s, n))
  {
    hide Bound, KeysIn, Turns, Reach;
    if n > 0 {
      FirstThreads(s, n - 1);
      assert Bound(s, n - 1) <= Bound(s, n - 1 + 1);
      assert ReachOf(s, n - 1) == Bound(s, n);
      LoopFits(BoundWord(s, n - 1), BoundWord(s, n), 1, TurnsOf(s, n - 1));
    }
  }

  /** One key at a time, every thread's loop ends and the threads together issue
      every key exactly once. */
  lemma EachKeyOnce(s: Stage)
    requires KeyCount(s) * s.threads < TWO_64 && s.batch <= 1
    ensures IssuedByFirst(s, s.threads) == Interval(s.keyStart, s.keyEnd)
    ensures forall t: nat :: t < s.threads ==> IssuesItsOwn(s, t)
  {
    hide Bound, EndsWith, Turns, Reach;
    TilesIff(s);
    FirstThreads(s, s.threads);
    forall t: nat | t < s.threads
      ensures IssuesItsOwn(s, t)
    {
      LoopEndsIff(BoundWord(s, t), BoundWord(s, t + 1), 1);
      assert ReachOf(s, t) == Bound(s, t + 1);
    }
  }

  lemma {:induction false} Owner(s: Stage, key: nat, n: nat) returns (t: nat)
    requires Tiles(s) && n <= s.threads && s.keyStart <= key < Bound(s, n)
    ensures t < n && Bound(s, t) <= key < Bound(s, t + 1)
  {
    hide Bound;
    if n == 0 {
      assert false;
    } else if Bound(s, n - 1) <= key {
      t := n - 1;
    } else {
      t := Owner(s, key, n - 1);
    }
  }

  /** In batches of any size every key is issued by the loop that owns it, within
      its turns, whether or not its counter then wraps. */
  lemma EachKeyCovered(s: Stage, key: nat) returns (t: nat)
    requires KeyCount(s) * s.threads < TWO_64 && s.keyStart <= key < s.keyEnd
    ensures t < s.threads && key in IssuedIn(s, t, TurnsOf(s, t))
  {
    hide Bound, KeysIn, CounterAfter, Turns, Reach, Wrap64;
    TilesIff(s);
    t := Owner(s, key, s.threads);
    FirstTurns(BoundWord(s, t), BoundWord(s, t + 1), Stride(s.batch));
    SmallStays(key);
    assert IssuedIn(s, t, TurnsOf(s, t))[key - Bound(s, t)] == key;
  }

  /** Thread t only ever issues keys from its start to fewer than a batch past its end. */
  ghost predicate StaysNear(s: Stage, t: nat) {
    forall n: nat, key: nat :: key in IssuedIn(s, t, n) ==> Bound(s, t) <= key < Bound(s, t + 1) + Stride(s.batch)
  }

  /** A thread stays near its subrange if and only if its reach is within 64 bits,
      or it starts at key 0 (and then near is everywhere). */
  lemma StaysNearIff(s: Stage, t: nat)
    ensures StaysNear(s, t) <==> ReachOf(s, t) < TWO_64 || Bound(s, t) == 0
  {
    hide Bound, KeysIn, CounterAfter, Turns, Reach, Wrap64;
    if ReachOf(s, t) < TWO_64 {
      forall n: nat, key: nat | key in IssuedIn(s, t, n)
        ensures Bound(s, t) <= key < Bound(s, t + 1) + Stride(s.batch)
      {
        IssuedBelowReach(s, t, n, key);
      }
    } else if Bound(s, t) > 0 {
      ZeroIssued(s, t);
      assert 0 in IssuedIn(s, t, TurnsOf(s, t) + 1);
    }
  }

  lemma IssuedBelowReach(s: Stage, t: nat, n: nat, key: nat)
    requires ReachOf(s, t) < TWO_64 && key in IssuedIn(s, t, n)
    ensures Bound(s, t) <= key < ReachOf(s, t) && Bound(s, t) < Bound(s, t + 1)
    ensures key < Bound(s, t + 1) + Stride(s.batch)
  {
    hide Bound, KeysIn, CounterAfter, Turns, Reach, Wrap64;
    var k, end, stride := BoundWord(s, t), BoundWord(s, t + 1), Stride(s.batch);
    var m := TurnsOf(s, t);
    var all := if n >= m then n else m;
    TurnsSplit(k, end, stride, n, all - n);
    LoopFits(k, end, stride, all);
    assert key in KeysIn(k, end, stride, all);
    var i :| 0 <= i < |Interval(k, ReachOf(s, t))| && Interval(k, ReachOf(s, t))[i] == key;
  }

  /** A wrapped loop issues key 0, in the batch that wraps or in the turn after it. */
  lemma ZeroIssued(s: Stage, t: nat)
    requires ReachOf(s, t) >= TWO_64
    ensures 0 in IssuedIn(s, t, TurnsOf(s, t) + 1)
  {
    hide Bound, KeysIn, CounterAfter, Turns, Reach, Wrap64;
    var k, end, stride, m := BoundWord(s, t), BoundWord(s, t + 1), Stride(s.batch), TurnsOf(s, t);
    FirstTurns(k, end, stride);
    LoopWraps(k, end, stride);
    TurnsSplit(k, end, stride, m, 1);
    WrapPast(TWO_64);
    if ReachOf(s, t) > TWO_64 {
      assert KeysIn(k, end, stride, m)[TWO_64 - k] == 0;
    } else {
      OneTurn(0, end, stride, 1);
      assert KeysIn(0, end, stride, 1)[0] == 0;
    }
  }

  /** With the subranges tiling the keys and the reaches within 64 bits, a thread
      overshoots its own subrange by fewer keys than a batch, and issues nothing
      when it is empty. */
  lemma Overshoot(s: Stage, t: nat, n: nat, key: nat)
    requires KeyCount(s) * s.threads < TWO_64 && t < s.threads && ReachOf(s, t) < TWO_64 && key in IssuedIn(s, t, n)
    ensures Bound(s, t) <= key < Bound(s, t + 1) + Stride(s.batch) && Bound(s, t) < Bound(s, t + 1) <= s.keyEnd
    ensures s.batch <= 1 ==> key < Bound(s, t + 1)
  {
    hide Bound, KeysIn, Turns;
    TilesIff(s);
    BoundsDown(s, t + 1);
    IssuedBelowReach(s, t, n, key);
  }

  /** No reach wraps when the stage's end plus a batch stays within 64 bits. */
  lemma LoopsFit(s: Stage, t: nat)
    requires KeyCount(s) * s.threads < TWO_64 && t < s.threads && s.keyEnd + Stride(s.batch) <= TWO_64
    ensures ReachOf(s, t) < TWO_64
  {
    hide Bound;
    TilesIff(s);
    BoundsDown(s, t);
    BoundsDown(s, t + 1);
  }

  /** Two keys just below 2^64 in batches of four, a stage that validation accepts:
      the counter wraps to 0, key 0 is issued, and the loop never ends. */
  lemma WrapExample(n: nat)
    ensures var s: Stage := Share(TWO_64 - 4, TWO_64 - 2, 1, 4);
      && KeyCount(s) * s.threads < TWO_64 && ReachOf(s, 0) == TWO_64
      && !StaysNear(s, 0) && KeyOf(s, 0, n) < BoundWord(s, 1)
  {
    hide Bound, KeysIn, CounterAfter, Wrap64;
    var s: Stage := Share(TWO_64 - 4, TWO_64 - 2, 1, 4);
    ExactBound(s, 0);
    ExactBound(s, 1);
    StaysNearIff(s, 0);
    NeverEnds(TWO_64 - 4, n);
  }

  lemma {:induction false} NeverEnds(k: Word, n: nat)
    requires k % 4 == 0
    ensures CounterAfter(k, TWO_64 - 2, 4, n) < TWO_64 - 2
    decreases n
  {
    hide Wrap64;
    if n > 0 {
      WrapKeepsFours(k);
      NeverEnds(Wrap64(k + 4), n - 1);
    }
  }

  lemma WrapKeepsFours(k: nat)
    requires k % 4 == 0
    ensures Wrap64(k + 4) % 4 == 0
  {
  }
}

/** The lock-free recording path as a state machine: any number of threads, each
    atomic load, add and compare-and-swap one step, in any interleaving. */
module AtomicRecording {
  import opened Bits
  import opened SlotIndex
  import opened HistogramState

  datatype Call = Call(value: nat, count: nat)

  /** Where a thread stands inside one recording call. */
  datatype Local =
    | Idle
    | AddCount(call: Call)              // about to add to the slot
    | AddTotal(call: Call)              // slot added, total not yet
    | LoadMin(call: Call)               // about to load the minimum
    | CasMin(call: Call, seen: int)     // about to swap the minimum
    | LoadMax(call: Call)
    | CasMax(call: Call, seen: int)

  /** Shared histogram, thread positions, and two histories no step reads: the
      accepted calls in the order they began, and in the order of their slot adds. */
  datatype Run = Run(shared: State, threads: seq<Local>, begun: seq<Call>, added: seq<Call>)

  ghost predicate Init(c: Config, r: Run) {
    && r.shared == Empty(c)
    && (forall t :: 0 <= t < |r.threads| ==> r.threads[t] == Idle)
    && r.begun == [] && r.added == []
  }

  // ----- the steps of one thread -----

  ghost predicate Move(r: Run, r': Run, t: nat, l: Local, s: State)
    requires t < |r.threads|
  {
    r' == Run(s, r.threads[t := l], r.begun, r.added)
  }

  /** One atomic step of thread t. A call whose value is rejected returns without
      touching the histogram, so only accepted calls leave Idle. */
  ghost predicate Step(c: Config, r: Run, r': Run, t: nat)
    requires t < |r.threads| && |r.shared.counts| == c.countsLen
  {
    var s := r.shared;
    match r.threads[t]
    case Idle =>
      exists call: Call :: call.count >= 1 && call.value <= INT64_MAX && CanRecord(c, call.value) &&
        r' == Run(s, r.threads[t := AddCount(call)], r.begun + [call], r.added)
    case AddCount(call) =>
      var i := IndexFor(c, call.value);
      i < c.countsLen &&
      r' == Run(s.(counts := s.counts[i := s.counts[i] + call.count]), r.threads[t := AddTotal(call)], r.begun, r.added + [call])
    case AddTotal(call) =>
      Move(r, r', t, LoadMin(call), s.(total := s.total + call.count))
    case LoadMin(call) =>
      if call.value == 0 || s.minValue <= call.value then Move(r, r', t, LoadMax(call), s)
      else Move(r, r', t, CasMin(call, s.minValue), s)
    case CasMin(call, seen) =>
      if s.minValue == seen then Move(r, r', t, LoadMax(call), s.(minValue := call.value))
      else Move(r, r', t, LoadMin(call), s)
    case LoadMax(call) =>
      if call.value <= s.maxValue then Move(r, r', t, Idle, s)
      else Move(r, r', t, CasMax(call, s.maxValue), s)
    case CasMax(call, seen) =>
      if s.maxValue == seen then Move(r, r', t, Idle, s.(maxValue := call.value))
      else Move(r, r', t, LoadMax(call), s)
  }

  ghost predicate Next(c: Config, r: Run, r': Run)
    requires |r.shared.counts| == c.countsLen
  {
    exists t :: 0 <= t < |r.threads| && Step(c, r, r', t)
  }

  /** A finite run: starts initially and takes one step at a time. */
  ghost predicate IsRun(c: Config, rs: seq<Run>) {
    && |rs| > 0 && Init(c, rs[0])
    && (forall k :: 0 <= k < |rs| ==> |rs[k].shared.counts| == c.countsLen)
    && (forall k :: 0 <= k < |rs| - 1 ==> Next(c, rs[k], rs[k + 1]))
  }

  // ----- the sequential reference -----

  /** The same calls made one after another through the plain recording path. */
  function Sequential(c: Config, calls: seq<Call>): (s: State)
    ensures |s.counts| == c.countsLen
  {
    hide Record;
    if calls == [] then Empty(c)
    else
      var last := calls[|calls| - 1];
      Record(c, Sequential(c, calls[..|calls| - 1]), last.value, last.count)
  }

  // ----- the invariant -----

  /** Counts of calls that sit between the slot add and the total add. */
  ghost function InFlight(threads: seq<Local>): nat {
    if threads == [] then 0
    else
      var l := threads[|threads| - 1];
      InFlight(threads[..|threads| - 1]) + (if l.AddTotal? then l.call.count else 0)
  }

  /** Calls that have begun but not reached their slot add. */
  ghost function Starting(threads: seq<Local>): multiset<Call> {
    if threads == [] then multiset{}
    else
      var l := threads[|threads| - 1];
      Starting(threads[..|threads| - 1]) + (if l.AddCount? then multiset{l.call} else multiset{})
  }

  ghost predicate Accepted(c: Config, call: Call) {
    call.count >= 1 && call.value <= INT64_MAX && CanRecord(c, call.value)
  }

  /** The call is among those counted, and how far its effects have reached. */
  ghost predicate LocalOk(c: Config, r: Run, l: Local) {
    match l
    case Idle => true
    case AddCount(call) => Accepted(c, call)
    case AddTotal(call) => call in r.added
    case LoadMin(call) => call in r.added
    case CasMin(call, seen) => call in r.added && call.value != 0 && call.value < seen
    case LoadMax(call) => call in r.added
    case CasMax(call, seen) => call in r.added && seen < call.value
  }

  ghost predicate MinPending(l: Local, call: Call) {
    (l.AddTotal? || l.LoadMin? || l.CasMin?) && l.call == call
  }

  ghost predicate MaxPending(l: Local, call: Call) {
    (l.AddTotal? || l.LoadMin? || l.CasMin? || l.LoadMax? || l.CasMax?) && l.call == call
  }

  /** The minimum is a recorded value, and covers every call not still on its way to it. */
  ghost predicate MinOk(r: Run) {
    && (r.shared.minValue == INT64_MAX || exists k :: 0 <= k < |r.added| && r.added[k].value == r.shared.minValue != 0)
    && r.shared.minValue <= INT64_MAX
    && (forall k :: 0 <= k < |r.added| && r.added[k].value != 0 ==>
          || r.shared.minValue <= r.added[k].value
          || exists t :: 0 <= t < |r.threads| && MinPending(r.threads[t], r.added[k]))
  }

  ghost predicate MaxOk(r: Run) {
    && (r.shared.maxValue == 0 || exists k :: 0 <= k < |r.added| && r.added[k].value == r.shared.maxValue)
    && r.shared.maxValue >= 0
    && (forall k :: 0 <= k < |r.added| ==>
          || r.added[k].value <= r.shared.maxValue
          || exists t :: 0 <= t < |r.threads| && MaxPending(r.threads[t], r.added[k]))
  }

  ghost predicate Histories(r: Run) {
    multiset(r.begun) == multiset(r.added) + Starting(r.threads)
  }

  ghost predicate AddedOk(c: Config, r: Run) {
    forall k :: 0 <= k < |r.added| ==> Accepted(c, r.added[k])
  }

  ghost predicate LocalsOk(c: Config, r: Run) {
    forall t :: 0 <= t < |r.threads| ==> LocalOk(c, r, r.threads[t])
  }

  /** Slots show every call counted; the total lags by the calls in flight. */
  ghost predicate CountsOk(c: Config, r: Run) {
    && |r.shared.counts| == c.countsLen
    && r.shared.counts == Sequential(c, r.added).counts
    && r.shared.total + InFlight(r.threads) == Sequential(c, r.added).total
  }

  ghost predicate Inv(c: Config, r: Run) {
    AddedOk(c, r) && LocalsOk(c, r) && Histories(r) && CountsOk(c, r) && MinOk(r) && MaxOk(r)
  }

  // ----- every step keeps the invariant -----

  lemma InitInv(c: Config, r: Run)
    requires Init(c, r)
    ensures Inv(c, r)
  {
    NoneInFlight(r.threads);
  }

  lemma {:induction false} NoneInFlight(threads: seq<Local>)
    requires forall t :: 0 <= t < |threads| ==> threads[t] == Idle
    ensures InFlight(threads) == 0 && Starting(threads) == multiset{}
  {
    if threads != [] {
      NoneInFlight(threads[..|threads| - 1]);
    }
  }

  ghost function Weight(l: Local): nat {
    if l.AddTotal? then l.call.count else 0
  }

  ghost function Start(l: Local): multiset<Call> {
    if l.AddCount? then multiset{l.call} else multiset{}
  }

  lemma {:induction false} InFlightUpdate(threads: seq<Local>, t: nat, l: Local)
    requires t < |threads|
    ensures InFlight(threads[t := l]) + Weight(threads[t]) == InFlight(threads) + Weight(l)
  {
    var n := |threads| - 1;
    if t == n {
      assert threads[t := l][..n] == threads[..n];
    } else {
      assert threads[t := l][..n] == threads[..n][t := l];
      InFlightUpdate(threads[..n], t, l);
    }
  }

  lemma StartingLast(threads: seq<Local>)
    requires threads != []
    ensures Starting(threads) == Starting(threads[..|threads| - 1]) + Start(threads[|threads| - 1])
  {
  }

  lemma Exchange(a: multiset<Call>, b: multiset<Call>, x: multiset<Call>, p: multiset<Call>, q: multiset<Call>)
    requires a + p == b + q
    ensures a + x + p == b + x + q
  {
    assert a + x + p == a + p + x;
    assert b + x + q == b + q + x;
  }

  lemma {:induction false} StartingUpdate(threads: seq<Local>, t: nat, l: Local)
    requires t < |threads|
    ensures Starting(threads[t := l]) + Start(threads[t]) == Starting(threads) + Start(l)
  {
    hide Starting, Start;
    var n := |threads| - 1;
    var rest := threads[..n];
    StartingLast(threads);
    StartingLast(threads[t := l]);
    if t == n {
      assert threads[t := l][..n] == rest;
      assert Starting(rest) + Start(l) + Start(threads[t]) == Starting(rest) + Start(threads[t]) + Start(l);
    } else {
      assert threads[t := l][..n] == rest[t := l];
      StartingUpdate(rest, t, l);
      Exchange(Starting(rest[t := l]), Starting(rest), Start(threads[n]), Start(threads[t]), Start(l));
    }
  }

  /** The minimum clause survives a step that keeps the history, does not raise the
      minimum, and leaves thread t's own call covered or still pending. */
  lemma MinKept(r: Run, r': Run, t: nat)
    requires MinOk(r) && t < |r.threads| && r'.added == r.added && |r'.threads| == |r.threads|
    requires forall u :: 0 <= u < |r.threads| && u != t ==> r'.threads[u] == r.threads[u]
    requires r'.shared.minValue == r.shared.minValue ||
             (r'.shared.minValue < r.shared.minValue && exists k :: 0 <= k < |r.added| && r.added[k].value == r'.shared.minValue != 0)
    requires forall call :: MinPending(r.threads[t], call) && call.value != 0 ==>
               MinPending(r'.threads[t], call) || r'.shared.minValue <= call.value
    ensures MinOk(r')
  {
    forall k | 0 <= k < |r.added| && r.added[k].value != 0
      ensures r'.shared.minValue <= r.added[k].value ||
              exists u :: 0 <= u < |r'.threads| && MinPending(r'.threads[u], r.added[k])
    {
      if !(r.shared.minValue <= r.added[k].value) {
        var u :| 0 <= u < |r.threads| && MinPending(r.threads[u], r.added[k]);
        assert u != t ==> MinPending(r'.threads[u], r.added[k]);
      }
    }
  }

  lemma MaxKept(r: Run, r': Run, t: nat)
    requires MaxOk(r) && t < |r.threads| && r'.added == r.added && |r'.threads| == |r.threads|
    requires forall u :: 0 <= u < |r.threads| && u != t ==> r'.threads[u] == r.threads[u]
    requires r'.shared.maxValue == r.shared.maxValue ||
             (r'.shared.maxValue > r.shared.maxValue && exists k :: 0 <= k < |r.added| && r.added[k].value == r'.shared.maxValue)
    requires forall call :: MaxPending(r.threads[t], call) ==>
               MaxPending(r'.threads[t], call) || call.value <= r'.shared.maxValue
    ensures MaxOk(r')
  {
    forall k | 0 <= k < |r.added|
      ensures r.added[k].value <= r'.shared.maxValue ||
              exists u :: 0 <= u < |r'.threads| && MaxPending(r'.threads[u], r.added[k])
    {
      if !(r.added[k].value <= r.shared.maxValue) {
        var u :| 0 <= u < |r.threads| && MaxPending(r.threads[u], r.added[k]);
        assert u != t ==> MaxPending(r'.threads[u], r.added[k]);
      }
    }
  }

  /** What any step but the slot add may change. */
  lemma OtherStepShape(c: Config, r: Run, r': Run, t: nat)
    requires |r.shared.counts| == c.countsLen && t < |r.threads| && LocalOk(c, r, r.threads[t])
    requires Step(c, r, r', t) && !r.threads[t].AddCount?
    ensures r'.added == r.added && r.begun <= r'.begun && r'.shared.counts == r.shared.counts
    ensures r'.threads == r.threads[t := r'.threads[t]] && |r'.threads| == |r.threads|
    ensures LocalOk(c, r', r'.threads[t])
    ensures multiset(r'.begun) == multiset(r.begun) + Start(r'.threads[t]) && !r.threads[t].AddCount?
    ensures r'.shared.total + Weight(r'.threads[t]) == r.shared.total + Weight(r.threads[t])
  {
    hide CanRecord, IndexFor;
  }

  lemma OtherStepMin(c: Config, r: Run, r': Run, t: nat)
    requires |r.shared.counts| == c.countsLen && t < |r.threads| && LocalOk(c, r, r.threads[t])
    requires Step(c, r, r', t) && !r.threads[t].AddCount?
    ensures |r'.threads| == |r.threads|
    ensures r'.shared.minValue == r.shared.minValue ||
            (r'.shared.minValue < r.shared.minValue && exists k :: 0 <= k < |r.added| && r.added[k].value == r'.shared.minValue != 0)
    ensures forall call :: MinPending(r.threads[t], call) && call.value != 0 ==>
              MinPending(r'.threads[t], call) || r'.shared.minValue <= call.value
  {
    hide CanRecord, IndexFor, Accepted;
  }

  lemma OtherStepMax(c: Config, r: Run, r': Run, t: nat)
    requires |r.shared.counts| == c.countsLen && t < |r.threads| && LocalOk(c, r, r.threads[t])
    requires Step(c, r, r', t) && !r.threads[t].AddCount?
    ensures |r'.threads| == |r.threads|
    ensures r'.shared.maxValue == r.shared.maxValue ||
            (r'.shared.maxValue > r.shared.maxValue && exists k :: 0 <= k < |r.added| && r.added[k].value == r'.shared.maxValue)
    ensures forall call :: MaxPending(r.threads[t], call) ==>
              MaxPending(r'.threads[t], call) || call.value <= r'.shared.maxValue
  {
    hide CanRecord, IndexFor, Accepted;
  }

  /** A thread's move accounts for the call it starts or counts. */
  lemma HistoriesKept(r: Run, r': Run, t: nat)
    requires Histories(r) && t < |r.threads| && |r'.threads| == |r.threads|
    requires r'.threads == r.threads[t := r'.threads[t]]
    requires multiset(r'.begun) == multiset(r.begun) + Start(r'.threads[t])
    requires multiset(r'.added) == multiset(r.added) + Start(r.threads[t])
    ensures Histories(r')
  {
    hide Starting, Start;
    StartingUpdate(r.threads, t, r'.threads[t]);
    Rebalance(multiset(r.added), Starting(r.threads), Starting(r'.threads), Start(r.threads[t]), Start(r'.threads[t]));
  }

  lemma Rebalance(m: multiset<Call>, s: multiset<Call>, s': multiset<Call>, p: multiset<Call>, q: multiset<Call>)
    requires s' + p == s + q
    ensures m + s + q == m + p + s'
  {
    assert m + s + q == m + (s + q);
    assert m + p + s' == m + (s' + p);
  }

  lemma LocalAt(c: Config, r: Run, t: nat)
    requires LocalsOk(c, r) && t < |r.threads|
    ensures LocalOk(c, r, r.threads[t])
  {
  }

  /** A longer history covers what a shorter one did. */
  lemma LocalsKept(c: Config, r: Run, r': Run, t: nat)
    requires LocalsOk(c, r) && t < |r.threads| && r.added <= r'.added
    requires |r'.threads| == |r.threads| && r'.threads == r.threads[t := r'.threads[t]] && LocalOk(c, r', r'.threads[t])
    ensures LocalsOk(c, r')
  {
    hide Accepted;
    forall u | 0 <= u < |r'.threads|
      ensures LocalOk(c, r', r'.threads[u])
    {
      if u != t {
        assert r'.threads[u] == r.threads[u] && LocalOk(c, r, r.threads[u]);
      }
    }
  }

  /** A step that leaves slots and history alone moves counts between the total and
      the calls in flight. */
  lemma CountsKept(c: Config, r: Run, r': Run, t: nat)
    requires CountsOk(c, r) && t < |r.threads| && |r'.threads| == |r.threads|
    requires r'.added == r.added && r'.shared.counts == r.shared.counts && r'.threads == r.threads[t := r'.threads[t]]
    requires r'.shared.total + Weight(r'.threads[t]) == r.shared.total + Weight(r.threads[t])
    ensures CountsOk(c, r')
  {
    hide Sequential, Weight;
    InFlightUpdate(r.threads, t, r'.threads[t]);
  }

  /** Every step but the slot add. */
  lemma OtherStepInv(c: Config, r: Run, r': Run, t: nat)
    requires Inv(c, r) && t < |r.threads| && Step(c, r, r', t) && !r.threads[t].AddCount?
    ensures Inv(c, r')
  {
    hide Step, Histories, LocalsOk, LocalOk, MinOk, MaxOk, MinPending, MaxPending, Accepted, Sequential, InFlight, Weight;
    LocalAt(c, r, t);
    OtherStepShape(c, r, r', t);
    OtherStepMin(c, r, r', t);
    OtherStepMax(c, r, r', t);
    HistoriesKept(r, r', t);
    LocalsKept(c, r, r', t);
    CountsKept(c, r, r', t);
    MinKept(r, r', t);
    MaxKept(r, r', t);
  }

  lemma AddedMore(c: Config, r: Run, r': Run, call: Call)
    requires AddedOk(c, r) && Accepted(c, call) && r'.added == r.added + [call]
    ensures AddedOk(c, r')
  {
    hide Accepted;
  }

  lemma SequentialSnoc(c: Config, calls: seq<Call>, call: Call)
    ensures Sequential(c, calls + [call]) == Record(c, Sequential(c, calls), call.value, call.count)
  {
    hide Record;
    assert (calls + [call])[..|calls|] == calls;
  }

  lemma RecordAccepted(c: Config, s: State, call: Call)
    requires |s.counts| == c.countsLen && Accepted(c, call)
    ensures IndexFor(c, call.value) < c.countsLen
    ensures var i := IndexFor(c, call.value); var s' := Record(c, s, call.value, call.count);
            s'.counts == s.counts[i := s.counts[i] + call.count] && s'.total == s.total + call.count
  {
    hide IndexFor;
  }

  /** The slot add extends the history by its call, which is then in flight. */
  lemma CountsAdded(c: Config, r: Run, r': Run, t: nat)
    requires CountsOk(c, r) && t < |r.threads| && Step(c, r, r', t) && r.threads[t].AddCount?
    requires Accepted(c, r.threads[t].call)
    ensures CountsOk(c, r')
  {
    hide IndexFor, Sequential, Record, Accepted, InFlight;
    var call := r.threads[t].call;
    SequentialSnoc(c, r.added, call);
    RecordAccepted(c, Sequential(c, r.added), call);
    InFlightUpdate(r.threads, t, AddTotal(call));
  }

  lemma AddCountShape(c: Config, r: Run, r': Run, t: nat)
    requires t < |r.threads| && |r.shared.counts| == c.countsLen && Step(c, r, r', t) && r.threads[t].AddCount?
    ensures r'.added == r.added + [r.threads[t].call] && r'.begun == r.begun
    ensures r'.threads == r.threads[t := AddTotal(r.threads[t].call)]
    ensures r'.shared.minValue == r.shared.minValue && r'.shared.maxValue == r.shared.maxValue
  {
    hide IndexFor;
  }

  lemma AddCountHistory(begun: seq<Call>, added: seq<Call>, call: Call)
    ensures multiset(begun) == multiset(begun) + Start(AddTotal(call))
    ensures multiset(added + [call]) == multiset(added) + Start(AddCount(call))
  {
  }

  lemma CountsLength(c: Config, r: Run)
    requires CountsOk(c, r)
    ensures |r.shared.counts| == c.countsLen
  {
  }

  lemma AddCountInv(c: Config, r: Run, r': Run, t: nat)
    requires Inv(c, r) && t < |r.threads| && Step(c, r, r', t) && r.threads[t].AddCount?
    ensures Inv(c, r')
  {
    hide Step, Histories, LocalsOk, MinOk, MaxOk, Accepted, CountsOk, AddedOk, Start;
    var call := r.threads[t].call;
    LocalAt(c, r, t);
    CountsLength(c, r);
    AddCountShape(c, r, r', t);
    AddCountHistory(r.begun, r.added, call);
    HistoriesKept(r, r', t);
    LocalsKept(c, r, r', t);
    CountsAdded(c, r, r', t);
    AddedMore(c, r, r', call);
    AddCountMinMax(c, r, r', t);
  }

  lemma AddCountMinMax(c: Config, r: Run, r': Run, t: nat)
    requires MinOk(r) && MaxOk(r) && t < |r.threads| && r.threads[t].AddCount?
    requires r'.added == r.added + [r.threads[t].call] && r'.threads == r.threads[t := AddTotal(r.threads[t].call)]
    requires r'.shared.minValue == r.shared.minValue && r'.shared.maxValue == r.shared.maxValue
    ensures MinOk(r') && MaxOk(r')
  {
    assert MinPending(r'.threads[t], r.threads[t].call) && MaxPending(r'.threads[t], r.threads[t].call);
    forall k | 0 <= k < |r'.added| && r'.added[k].value != 0
      ensures r'.shared.minValue <= r'.added[k].value ||
              exists u :: 0 <= u < |r'.threads| && MinPending(r'.threads[u], r'.added[k])
    {
      if k < |r.added| && !(r.shared.minValue <= r.added[k].value) {
        var u :| 0 <= u < |r.threads| && MinPending(r.threads[u], r.added[k]);
        assert MinPending(r'.threads[u], r'.added[k]);
      }
    }
    forall k | 0 <= k < |r'.added|
      ensures r'.added[k].value <= r'.shared.maxValue ||
              exists u :: 0 <= u < |r'.threads| && MaxPending(r'.threads[u], r'.added[k])
    {
      if k < |r.added| && !(r.added[k].value <= r.shared.maxValue) {
        var u :| 0 <= u < |r.threads| && MaxPending(r.threads[u], r.added[k]);
        assert MaxPending(r'.threads[u], r'.added[k]);
      }
    }
    if r.shared.minValue != INT64_MAX {
      var k :| 0 <= k < |r.added| && r.added[k].value == r.shared.minValue != 0;
      assert r'.added[k].value == r'.shared.minValue;
    }
    if r.shared.maxValue != 0 {
      var k :| 0 <= k < |r.added| && r.added[k].value == r.shared.maxValue;
      assert r'.added[k].value == r'.shared.maxValue;
    }
  }

  // ----- main results -----

  /** In every state of every run the invariant holds. */
  lemma {:induction false} RunInv(c: Config, rs: seq<Run>, k: nat)
    requires IsRun(c, rs) && k < |rs|
    ensures Inv(c, rs[k])
  {
    hide Inv, Init, Step;
    if k == 0 {
      InitInv(c, rs[0]);
    } else {
      RunInv(c, rs, k - 1);
      assert Next(c, rs[k - 1], rs[k - 1 + 1]);
      var t :| 0 <= t < |rs[k - 1].threads| && Step(c, rs[k - 1], rs[k], t);
      StepInv(c, rs[k - 1], rs[k], t);
    }
  }

  lemma StepInv(c: Config, r: Run, r': Run, t: nat)
    requires Inv(c, r) && t < |r.threads| && Step(c, r, r', t)
    ensures Inv(c, r')
  {
    hide Inv, Step;
    if r.threads[t].AddCount? {
      AddCountInv(c, r, r', t);
    } else {
      OtherStepInv(c, r, r', t);
    }
  }

  ghost predicate MinOf(calls: seq<Call>, m: int) {
    && (m == INT64_MAX || exists k :: 0 <= k < |calls| && calls[k].value == m != 0)
    && (forall k :: 0 <= k < |calls| && calls[k].value != 0 ==> m <= calls[k].value)
  }

  ghost predicate MaxOf(calls: seq<Call>, m: int) {
    && (m == 0 || exists k :: 0 <= k < |calls| && calls[k].value == m)
    && (forall k :: 0 <= k < |calls| ==> calls[k].value <= m)
  }

  lemma ExtremesSnoc(calls: seq<Call>, call: Call, lo: int, hi: int)
    requires MinOf(calls, lo) && MaxOf(calls, hi) && call.value <= INT64_MAX
    ensures MinOf(calls + [call], UpdateMin(lo, call.value)) && MaxOf(calls + [call], UpdateMax(hi, call.value))
  {
    var all := calls + [call];
    assert all[|calls|] == call && forall k :: 0 <= k < |calls| ==> all[k] == calls[k];
    if lo != INT64_MAX {
      var k :| 0 <= k < |calls| && calls[k].value == lo != 0;
      assert all[k].value == lo;
    }
    if hi != 0 {
      var k :| 0 <= k < |calls| && calls[k].value == hi;
      assert all[k].value == hi;
    }
  }

  lemma {:induction false} SequentialMeaning(c: Config, calls: seq<Call>)
    requires forall k :: 0 <= k < |calls| ==> Accepted(c, calls[k])
    ensures var s := Sequential(c, calls);
            Sum(s.counts) == s.total && MinOf(calls, s.minValue) && MaxOf(calls, s.maxValue)
  {
    hide IndexFor, MinOf, MaxOf;
    if calls == [] {
      SumOfZeros(c.countsLen);
      NoCalls();
    } else {
      var n := |calls| - 1;
      var last, s := calls[n], Sequential(c, calls[..n]);
      SequentialMeaning(c, calls[..n]);
      assert Accepted(c, last);
      SumUpdate(s.counts, IndexFor(c, last.value), last.count);
      ExtremesSnoc(calls[..n], last, s.minValue, s.maxValue);
      assert calls == calls[..n] + [last];
    }
  }

  lemma NoCalls()
    ensures MinOf([], INT64_MAX) && MaxOf([], 0)
  {
  }

  lemma {:induction false} SumOfZeros(n: nat)
    ensures Sum(seq(n, _ => 0)) == 0
  {
    if n > 0 {
      SumOfZeros(n - 1);
      assert seq(n, _ => 0)[..n - 1] == seq(n - 1, _ => 0);
    }
  }

  /** When no call is in flight the histogram is exactly what the same calls
      produce one after another. */
  lemma QuiescentIsSequential(c: Config, rs: seq<Run>, k: nat)
    requires IsRun(c, rs) && k < |rs|
    requires forall t :: 0 <= t < |rs[k].threads| ==> rs[k].threads[t] == Idle
    ensures rs[k].shared == Sequential(c, rs[k].begun)
  {
    hide Sequential;
    RunInv(c, rs, k);
    NoneInFlight(rs[k].threads);
    SequentialMeaning(c, rs[k].added);
    SequentialPermutation(c, rs[k].added, rs[k].begun);
  }

  // ----- the order of calls does not matter -----

  lemma RecordCommutes(c: Config, s: State, x: Call, y: Call)
    requires |s.counts| == c.countsLen
    ensures Record(c, Record(c, s, x.value, x.count), y.value, y.count) ==
            Record(c, Record(c, s, y.value, y.count), x.value, x.count)
  {
    hide IndexFor;
    if CanRecord(c, x.value) && CanRecord(c, y.value) {
      var i, j := IndexFor(c, x.value), IndexFor(c, y.value);
      if i == j {
        assert s.counts[i] + x.count + y.count == s.counts[i] + y.count + x.count;
      }
      assert Record(c, Record(c, s, x.value, x.count), y.value, y.count).counts ==
             Record(c, Record(c, s, y.value, y.count), x.value, x.count).counts;
    }
  }

  lemma {:induction false} SequentialMove(c: Config, p: seq<Call>, x: Call, q: seq<Call>)
    ensures Sequential(c, p + [x] + q) == Record(c, Sequential(c, p + q), x.value, x.count)
    decreases |q|
  {
    hide Record;
    if q == [] {
      assert p + [x] + q == p + [x] && p + q == p;
      assert (p + [x])[..|p|] == p;
    } else {
      var n := |q| - 1;
      var y := q[n];
      SequentialMove(c, p, x, q[..n]);
      assert (p + [x] + q)[..|p| + 1 + n] == p + [x] + q[..n];
      assert (p + q)[..|p| + n] == p + q[..n];
      RecordCommutes(c, Sequential(c, p + q[..n]), x, y);
    }
  }

  /** Any two orders of the same calls give the same histogram. */
  lemma {:induction false} SequentialPermutation(c: Config, a: seq<Call>, b: seq<Call>)
    requires multiset(a) == multiset(b)
    ensures Sequential(c, a) == Sequential(c, b)
    decreases |a|
  {
    hide Record;
    if a == [] {
      assert |b| == |multiset(b)| == |multiset(a)|;
    } else {
      var n := |a| - 1;
      var x := a[n];
      assert x in multiset(a);
      var k :| 0 <= k < |b| && b[k] == x;
      assert a == a[..n] + [x];
      assert b == b[..k] + [x] + b[k + 1..];
      assert multiset(b[..k] + b[k + 1..]) == multiset(b) - multiset{x};
      assert multiset(a[..n]) == multiset(a) - multiset{x};
      SequentialPermutation(c, a[..n], b[..k] + b[k + 1..]);
      SequentialMove(c, b[..k], x, b[k + 1..]);
    }
  }

  /** At every moment the slots lead the total by exactly the calls between the two adds. */
  lemma SlotsLeadTotal(c: Config, rs: seq<Run>, k: nat)
    requires IsRun(c, rs) && k < |rs|
    ensures Sum(rs[k].shared.counts) - rs[k].shared.total == InFlight(rs[k].threads)
  {
    hide Sequential;
    RunInv(c, rs, k);
    SequentialMeaning(c, rs[k].added);
  }

  /** Over any stretch of a run the minimum never rises and the maximum never falls,
      and no counted call is forgotten. */
  lemma {:induction false} ExtremesMonotone(c: Config, rs: seq<Run>, i: nat, k: nat)
    requires IsRun(c, rs) && i <= k < |rs|
    ensures rs[k].shared.minValue <= rs[i].shared.minValue
    ensures rs[i].shared.maxValue <= rs[k].shared.maxValue
    ensures rs[i].begun <= rs[k].begun && rs[i].added <= rs[k].added
    decreases k
  {
    hide Inv, Step, Init;
    if i < k {
      ExtremesMonotone(c, rs, i, k - 1);
      RunInv(c, rs, k - 1);
      assert Next(c, rs[k - 1], rs[k - 1 + 1]);
      var t :| 0 <= t < |rs[k - 1].threads| && Step(c, rs[k - 1], rs[k], t);
      StepExtremes(c, rs[k - 1], rs[k], t);
    }
  }

  lemma StepExtremes(c: Config, r: Run, r': Run, t: nat)
    requires Inv(c, r) && t < |r.threads| && Step(c, r, r', t)
    ensures r'.shared.minValue <= r.shared.minValue && r.shared.maxValue <= r'.shared.maxValue && r.begun <= r'.begun && r.added <= r'.added
  {
    hide IndexFor, CanRecord, Sequential, InFlight;
    assert LocalOk(c, r, r.threads[t]);
    if !r.threads[t].AddCount? {
      hide Step;
      OtherStepShape(c, r, r', t);
    }
  }
}

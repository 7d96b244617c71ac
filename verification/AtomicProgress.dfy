/** Recording calls come to an end: whatever the interleaving, calls under way finish
    in a bounded number of steps once no new ones begin, and a call running alone
    finishes in six. */
module AtomicProgress {
  import opened Bits
  import opened SlotIndex
  import opened HistogramState
  import opened AtomicRecording

  // ----- one call running alone -----

  /** Steps a call still has when nobody interferes; a value loaded before somebody
      else's swap costs a failed swap and another load. */
  function StepsLeft(s: State, l: Local): nat {
    match l
    case Idle => 0
    case AddCount(_) => 6
    case AddTotal(_) => 5
    case LoadMin(_) => 4
    case CasMin(_, seen) => if seen == s.minValue then 3 else 5
    case LoadMax(_) => 2
    case CasMax(_, seen) => if seen == s.maxValue then 1 else 3
  }

  lemma OwnStepNearer(c: Config, r: Run, r': Run, t: nat)
    requires |r.shared.counts| == c.countsLen && t < |r.threads| && Step(c, r, r', t) && !r.threads[t].Idle?
    ensures |r'.threads| == |r.threads| && r'.threads == r.threads[t := r'.threads[t]] && r'.begun == r.begun
    ensures StepsLeft(r'.shared, r'.threads[t]) < StepsLeft(r.shared, r.threads[t])
  {
    hide IndexFor;
  }

  /** A run of steps of thread t alone, each taken inside a call. */
  ghost predicate IsSolo(c: Config, rs: seq<Run>, t: nat) {
    && |rs| > 0
    && (forall k :: 0 <= k < |rs| ==> |rs[k].shared.counts| == c.countsLen && t < |rs[k].threads|)
    && (forall k :: 0 <= k < |rs| - 1 ==> !rs[k].threads[t].Idle? && Step(c, rs[k], rs[k + 1], t))
  }

  /** A thread that runs alone is out of its call after at most six steps. */
  lemma {:induction false} AloneReturns(c: Config, rs: seq<Run>, t: nat)
    requires IsSolo(c, rs, t)
    ensures |rs| - 1 <= StepsLeft(rs[0].shared, rs[0].threads[t]) <= 6
  {
    hide StepsLeft, Step;
    StepsBound(rs[0].shared, rs[0].threads[t]);
    if |rs| > 1 {
      OwnStepNearer(c, rs[0], rs[0 + 1], t);
      AloneReturns(c, rs[1..], t);
    }
  }

  lemma StepsBound(s: State, l: Local)
    ensures StepsLeft(s, l) <= 6
  {
  }

  // ----- every interleaving -----

  /** A thread's steps left, and for each swap it may still make the two steps that
      the swap may cost each other thread. */
  function Potential(n: nat, s: State, l: Local): nat {
    StepsLeft(s, l) + 2 * n * (if l.Idle? then 0 else if l.LoadMax? || l.CasMax? then 1 else 2)
  }

  ghost function Potentials(r: Run): (xs: seq<int>)
    ensures |xs| == |r.threads| && forall t :: 0 <= t < |xs| ==> xs[t] == Potential(|xs|, r.shared, r.threads[t])
  {
    seq(|r.threads|, t requires 0 <= t < |r.threads| => Potential(|r.threads|, r.shared, r.threads[t]))
  }

  lemma {:induction false} SumWithin(xs: seq<int>, ys: seq<int>, d: int)
    requires |xs| == |ys| && forall i :: 0 <= i < |xs| ==> xs[i] <= ys[i] + d
    ensures Sum(xs) <= Sum(ys) + |xs| * d
  {
    if xs != [] {
      var n := |xs| - 1;
      SumWithin(xs[..n], ys[..n], d);
      MulSucc(n, d);
    }
  }

  lemma SumLowered(xs: seq<int>, ys: seq<int>, t: nat, d: int)
    requires |xs| == |ys| && t < |xs| && xs[t] + |xs| * d < ys[t]
    requires forall i :: 0 <= i < |xs| && i != t ==> xs[i] <= ys[i] + d
    requires d >= 0
    ensures Sum(xs) < Sum(ys)
  {
    hide Sum;
    var e := ys[t] - xs[t];
    SumUpdate(xs, t, e);
    SumWithin(xs[t := xs[t] + e], ys, d);
  }

  /** What a step changes for the thread itself and for the others. */
  lemma StepCosts(c: Config, r: Run, r': Run, t: nat) returns (d: nat)
    requires |r.shared.counts| == c.countsLen && t < |r.threads| && Step(c, r, r', t) && !r.threads[t].Idle?
    ensures |r'.threads| == |r.threads| && r'.threads == r.threads[t := r'.threads[t]]
    ensures var n := |r.threads|;
      && Potential(n, r'.shared, r'.threads[t]) + n * d < Potential(n, r.shared, r.threads[t])
      && forall l: Local :: Potential(n, r'.shared, l) <= Potential(n, r.shared, l) + d
  {
    hide IndexFor;
    OwnStepNearer(c, r, r', t);
    d := if r'.shared.minValue == r.shared.minValue && r'.shared.maxValue == r.shared.maxValue then 0 else 2;
  }

  /** Every step of a thread inside a call lowers the potential of the whole run. */
  lemma StepLowers(c: Config, r: Run, r': Run, t: nat)
    requires |r.shared.counts| == c.countsLen && t < |r.threads| && Step(c, r, r', t) && !r.threads[t].Idle?
    ensures Sum(Potentials(r')) < Sum(Potentials(r)) && r'.begun == r.begun && |r'.threads| == |r.threads|
  {
    hide Sum, Step, Potential;
    OwnStepNearer(c, r, r', t);
    var d := StepCosts(c, r, r', t);
    SumLowered(Potentials(r'), Potentials(r), t, d);
  }

  lemma PotentialBound(r: Run)
    ensures 0 <= Sum(Potentials(r)) <= |r.threads| * (4 * |r.threads| + 6)
  {
    hide Sum;
    var xs, n := Potentials(r), |r.threads|;
    var zeros := seq(n, _ => 0);
    SumOfZeros(n);
    SumWithin(zeros, xs, 0);
    forall t | 0 <= t < n
      ensures xs[t] <= zeros[t] + (4 * n + 6)
    {
      StepsBound(r.shared, r.threads[t]);
    }
    SumWithin(xs, zeros, 4 * n + 6);
  }

  /** A step that begins no call. */
  ghost predicate Works(c: Config, r: Run, r': Run)
    requires |r.shared.counts| == c.countsLen
  {
    exists t :: 0 <= t < |r.threads| && !r.threads[t].Idle? && Step(c, r, r', t)
  }

  /** Steps in any interleaving, with no call beginning. */
  ghost predicate IsPath(c: Config, rs: seq<Run>) {
    && |rs| > 0
    && (forall k :: 0 <= k < |rs| ==> |rs[k].shared.counts| == c.countsLen)
    && (forall k :: 0 <= k < |rs| - 1 ==> Works(c, rs[k], rs[k + 1]))
  }

  /** However the threads interleave and however often a swap fails, once no call
      begins there are at most n * (4 * n + 6) more steps. */
  lemma {:induction false} EveryPathEnds(c: Config, rs: seq<Run>)
    requires IsPath(c, rs)
    ensures |rs| - 1 <= Sum(Potentials(rs[0])) <= |rs[0].threads| * (4 * |rs[0].threads| + 6)
    ensures rs[|rs| - 1].begun == rs[0].begun
  {
    hide Sum, Step, Potentials;
    PotentialBound(rs[0]);
    if |rs| > 1 {
      assert Works(c, rs[0], rs[0 + 1]);
      var t :| 0 <= t < |rs[0].threads| && !rs[0].threads[t].Idle? && Step(c, rs[0], rs[1], t);
      StepLowers(c, rs[0], rs[1], t);
      PathTail(c, rs);
      EveryPathEnds(c, rs[1..]);
    }
  }

  lemma PathTail(c: Config, rs: seq<Run>)
    requires IsPath(c, rs) && |rs| > 1
    ensures IsPath(c, rs[1..])
  {
    hide Works;
    var tail := rs[1..];
    forall k | 0 <= k < |tail| - 1
      ensures Works(c, tail[k], tail[k + 1])
    {
      assert tail[k] == rs[k + 1] && Works(c, rs[k + 1], rs[k + 1 + 1]);
    }
  }

  ghost predicate Quiescent(r: Run) {
    forall t :: 0 <= t < |r.threads| ==> r.threads[t] == Idle
  }

  /** A thread inside a call can always take its step. */
  lemma CanStep(c: Config, r: Run, t: nat) returns (r': Run)
    requires Inv(c, r) && t < |r.threads| && !r.threads[t].Idle?
    ensures |r.shared.counts| == c.countsLen && Step(c, r, r', t)
  {
    hide IndexFor, Histories, MinOk, MaxOk, Sequential;
    assert LocalOk(c, r, r.threads[t]);
    var s := r.shared;
    match r.threads[t]
    case AddCount(call) =>
      var i := IndexFor(c, call.value);
      r' := Run(s.(counts := s.counts[i := s.counts[i] + call.count]), r.threads[t := AddTotal(call)], r.begun, r.added + [call]);
    case AddTotal(call) => r' := Moved(r, t, LoadMin(call), s.(total := s.total + call.count));
    case LoadMin(call) =>
      r' := Moved(r, t, if call.value == 0 || s.minValue <= call.value then LoadMax(call) else CasMin(call, s.minValue), s);
    case CasMin(call, seen) =>
      r' := if s.minValue == seen then Moved(r, t, LoadMax(call), s.(minValue := call.value)) else Moved(r, t, LoadMin(call), s);
    case LoadMax(call) =>
      r' := Moved(r, t, if call.value <= s.maxValue then Idle else CasMax(call, s.maxValue), s);
    case CasMax(call, seen) =>
      r' := if s.maxValue == seen then Moved(r, t, Idle, s.(maxValue := call.value)) else Moved(r, t, LoadMax(call), s);
  }

  function Moved(r: Run, t: nat, l: Local, s: State): Run
    requires t < |r.threads|
  {
    Run(s, r.threads[t := l], r.begun, r.added)
  }

  lemma Slots(c: Config, r: Run)
    requires Inv(c, r)
    ensures |r.shared.counts| == c.countsLen
  {
  }

  /** From every state the invariant allows, the calls under way can all return. */
  lemma {:induction false} CanQuiesce(c: Config, r: Run) returns (rs: seq<Run>)
    requires Inv(c, r)
    ensures IsPath(c, rs) && rs[0] == r && Quiescent(rs[|rs| - 1]) && rs[|rs| - 1].begun == r.begun
    decreases Sum(Potentials(r))
  {
    hide Inv, Step, Sum, Potentials;
    Slots(c, r);
    if Quiescent(r) {
      rs := [r];
    } else {
      var t :| 0 <= t < |r.threads| && r.threads[t] != Idle;
      var r' := CanStep(c, r, t);
      StepLowers(c, r, r', t);
      PotentialBound(r');
      PotentialBound(r);
      StepInv(c, r, r', t);
      var rest := CanQuiesce(c, r');
      rs := [r] + rest;
      assert Works(c, r, r');
    }
  }

  /** Every run can be continued, with no call beginning, until every call has
      returned; the histogram then is that of the calls made one after another. */
  lemma EveryRunCanQuiesce(c: Config, run: seq<Run>) returns (rs: seq<Run>)
    requires IsRun(c, run)
    ensures IsPath(c, rs) && rs[0] == run[|run| - 1] && Quiescent(rs[|rs| - 1])
    ensures rs[|rs| - 1].shared == Sequential(c, run[|run| - 1].begun)
  {
    hide Inv, Step, Init, Sequential;
    RunInv(c, run, |run| - 1);
    rs := CanQuiesce(c, run[|run| - 1]);
    var all := Joined(c, run, rs);
    QuiescentIsSequential(c, all, |all| - 1);
  }

  lemma Joined(c: Config, run: seq<Run>, rs: seq<Run>) returns (all: seq<Run>)
    requires IsRun(c, run) && IsPath(c, rs) && rs[0] == run[|run| - 1]
    ensures IsRun(c, all) && all[|all| - 1] == rs[|rs| - 1]
  {
    hide Step, Init;
    var n := |run| - 1;
    all := run[..n] + rs;
    assert all[0] == run[0];
    forall k | 0 <= k < |all| - 1
      ensures Next(c, all[k], all[k + 1])
    {
      if k < n {
        assert all[k] == run[k] && all[k + 1] == run[k + 1];
      } else {
        assert all[k] == rs[k - n] && all[k + 1] == rs[k - n + 1];
        assert Works(c, rs[k - n], rs[k - n + 1]);
      }
    }
  }
}

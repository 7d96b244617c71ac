/** How long a stage is worked on: a transaction worker serves until its flag is
    cleared, the output thread reports until it is woken, and both happen only after
    every party has completed the stage. */
module StageServing {
  import opened Bits
  import opened Sequences
  import opened Stages
  import opened StageSafety
  import Barrier

  /** A worker that serves transactions in the stage it is in. */
  predicate Serves(cfg: Config, t: nat, stage: nat) {
    t + 1 < cfg.n && stage < |cfg.plans| && cfg.plans[stage][t].Serve?
  }

  predicate InServing(pc: Pc) {
    pc.Serving? || SleepsIn(pc, InServe)
  }

  /** Past the loop of the stage, on the way to the first barrier wait. */
  predicate Leaving(pc: Pc) {
    pc.Check? || pc.Enter1?
  }

  /** The output thread has been told that the stage is over. */
  predicate Interrupted(pc: Pc) {
    pc == SUnlock(InLog, true) || pc == Logged(true) || pc.Enter1?
  }

  predicate StopOk(cfg: Config, t: nat, p: Part, doWork: bool, unfinished: nat) {
    && (Serves(cfg, t, p.stage) && Leaving(p.pc) ==> !doWork)
    && (IsLogger(cfg, t) && Interrupted(p.pc) ==> unfinished == 0)
  }

  ghost predicate StopsOk(cfg: Config, s: State)
    requires Shape(cfg, s)
  {
    forall t :: 0 <= t < cfg.n ==> StopOk(cfg, t, s.parts[t], s.doWork[t], s.unfinished)
  }

  // ----- every step keeps it -----

  /** The moving thread: the serving loop is left only with the flag cleared. */
  lemma OwnStop(cfg: Config, s: State, s': State, t: nat)
    requires Shape(cfg, s) && t < cfg.n && PStep(cfg, s, s', t) && KindOk(cfg, t, s.parts[t])
    requires StopOk(cfg, t, s.parts[t], s.doWork[t], s.unfinished)
    ensures |s'.parts| == |s.parts| && StopOk(cfg, t, s'.parts[t], s.doWork[t], s.unfinished)
  {
    hide PStep, KindOk, CanMove;
    if s.parts[t].pc.Top? || s.parts[t].pc.Work? {
      EntersWork(cfg, s, s', t);
    } else {
      PcMoves(cfg, s, s', t);
      if s.parts[t].pc.Serving? { StaysServing(cfg, s, s', t); }
      if s.parts[t].pc.SHeld? { ToldWhenZero(cfg, s, s', t); }
      if s.parts[t].pc.Logged? { ReportsOn(cfg, s, s', t); }
      StopMoves(cfg, t, s.parts[t], s'.parts[t].pc, s.doWork[t], s.unfinished);
    }
  }

  lemma EntersWork(cfg: Config, s: State, s': State, t: nat)
    requires Shape(cfg, s) && t < cfg.n && PStep(cfg, s, s', t) && (s.parts[t].pc.Top? || s.parts[t].pc.Work?)
    ensures |s'.parts| == |s.parts| && !Leaving(s'.parts[t].pc) && !Interrupted(s'.parts[t].pc)
  {
  }

  /** A sleep is interrupted only by the stage's end. */
  lemma ToldWhenZero(cfg: Config, s: State, s': State, t: nat)
    requires Shape(cfg, s) && t < cfg.n && PStep(cfg, s, s', t) && s.parts[t].pc.SHeld?
    ensures |s'.parts| == |s.parts|
    ensures s'.parts[t].pc.SUnlock? ==> (s.unfinished == 0 ==> s'.parts[t].pc.interrupted)
    ensures s'.parts[t].pc.SUnlock? && s'.parts[t].pc.interrupted ==> s.unfinished == 0
  {
  }

  /** The output thread goes to the barrier when interrupted, and else sleeps again. */
  lemma ReportsOn(cfg: Config, s: State, s': State, t: nat)
    requires Shape(cfg, s) && t < cfg.n && PStep(cfg, s, s', t) && s.parts[t].pc.Logged?
    ensures |s'.parts| == |s.parts|
    ensures !s.finished[t] ==> (s'.parts[t].pc.Enter1? <==> s.parts[t].pc.interrupted)
    ensures s'.parts[t].pc.Enter1? ==> s.parts[t].pc.interrupted
  {
  }

  lemma StopMoves(cfg: Config, t: nat, p: Part, pc': Pc, doWork: bool, unfinished: nat)
    requires t < cfg.n && KindOk(cfg, t, p) && CanMove(p.pc, pc') && StopOk(cfg, t, p, doWork, unfinished)
    requires p.pc.Serving? && doWork ==> InServing(pc')
    requires p.pc.SHeld? && pc'.SUnlock? && pc'.interrupted ==> unfinished == 0
    requires p.pc.Logged? && pc'.Enter1? ==> p.pc.interrupted
    ensures StopOk(cfg, t, p.(pc := pc'), doWork, unfinished)
  {
  }

  lemma WakeStop(cfg: Config, t: nat, p: Part, doWork: bool, unfinished: nat)
    requires StopOk(cfg, t, p, doWork, unfinished)
    ensures StopOk(cfg, t, Wake(p), doWork, unfinished)
  {
  }

  lemma StopsStepP(cfg: Config, s: State, s': State, t: nat)
    requires Inv(cfg, s) && StopsOk(cfg, s) && t < cfg.n && PStep(cfg, s, s', t)
    ensures Shape(cfg, s') && StopsOk(cfg, s')
  {
    hide PStep, StopOk, KindOk, LockOk, HaltOk, WakeOk, CountOk, CoordOk, FlagsOk, Barrier.Law, PartsOk;
    PFrame(cfg, s, s', t);
    CountStepP(cfg, s, s', t);
    PartAt(cfg, s, t);
    OwnStop(cfg, s, s', t);
    forall u | 0 <= u < cfg.n
      ensures StopOk(cfg, u, s'.parts[u], s'.doWork[u], s'.unfinished)
    {
      WakeStop(cfg, u, s.parts[u], s.doWork[u], s.unfinished);
      var p := s'.parts[u];
      assert StopOk(cfg, u, p, s.doWork[u], s.unfinished);
      ZeroStays(cfg, u, p, s.doWork[u], s.unfinished, s'.unfinished);
    }
  }

  lemma ZeroStays(cfg: Config, t: nat, p: Part, doWork: bool, before: nat, after: nat)
    requires StopOk(cfg, t, p, doWork, before) && (before == 0 ==> after == 0)
    ensures StopOk(cfg, t, p, doWork, after)
  {
  }

  /** While somebody is on the way to the first wait the coordinator neither sets a
      flag nor refills the counter. */
  lemma CoordWaits(cfg: Config, s: State, s': State, spurious: bool, t: nat)
    requires Inv(cfg, s) && CStep(cfg, s, s', spurious) && t < cfg.n
    requires Leaving(s.parts[t].pc) || Interrupted(s.parts[t].pc)
    ensures Shape(cfg, s') && (s'.doWork[t] ==> s.doWork[t]) && (s.unfinished == 0 ==> s'.unfinished == 0)
  {
    hide CStep, PartsOk, LockOk, HaltOk, WakeOk, FlagsOk, CountOk, Barrier.Law;
    AtWork(cfg, s, t);
    CFrame(cfg, s, s', spurious);
    CCountEffect(cfg, s, s', spurious);
    if s.c.CHeld? { PendingHere(cfg, s, cfg.n); }
    FlagsFall(cfg, s, s', spurious, t);
  }

  lemma FlagsFall(cfg: Config, s: State, s': State, spurious: bool, t: nat)
    requires Shape(cfg, s) && Shape(cfg, s') && CStep(cfg, s, s', spurious) && t < cfg.n && !s.c.CRelease?
    ensures s'.doWork[t] ==> s.doWork[t]
  {
    hide Barrier.MayLeave;
  }

  lemma StopsStepC(cfg: Config, s: State, s': State, spurious: bool)
    requires Inv(cfg, s) && StopsOk(cfg, s) && CStep(cfg, s, s', spurious)
    ensures Shape(cfg, s') && StopsOk(cfg, s')
  {
    assert Shape(cfg, s);
    hide CStep, Inv;
    CFrame(cfg, s, s', spurious);
    forall t | 0 <= t < cfg.n
      ensures StopOk(cfg, t, s'.parts[t], s'.doWork[t], s'.unfinished)
    {
      var p := s'.parts[t];
      WakeStop(cfg, t, s.parts[t], s.doWork[t], s.unfinished);
      if Leaving(p.pc) || Interrupted(p.pc) {
        assert p == s.parts[t];
        CoordWaits(cfg, s, s', spurious, t);
      }
    }
  }

  lemma {:induction false} RunStops(cfg: Config, rs: seq<State>, k: nat)
    requires IsRun(cfg, rs) && k < |rs|
    ensures Shape(cfg, rs[k]) && StopsOk(cfg, rs[k])
  {
    hide Inv, CStep, PStep, StopsOk;
    if k == 0 {
      FirstStops(cfg, rs[0]);
    } else {
      RunStops(cfg, rs, k - 1);
      RunInv(cfg, rs, k - 1);
      assert Next(cfg, rs[k - 1], rs[k - 1 + 1], true);
      if CStep(cfg, rs[k - 1], rs[k], true) {
        StopsStepC(cfg, rs[k - 1], rs[k], true);
      } else {
        var t :| 0 <= t < cfg.n && PStep(cfg, rs[k - 1], rs[k], t);
        StopsStepP(cfg, rs[k - 1], rs[k], t);
      }
    }
  }

  lemma FirstStops(cfg: Config, s: State)
    requires Init(cfg, s)
    ensures Shape(cfg, s) && StopsOk(cfg, s)
  {
  }

  // ----- main results -----

  /** Every party has completed the stage that is being worked on. */
  ghost predicate StageOver(cfg: Config, s: State)
    requires Shape(cfg, s)
  {
    s.unfinished == 0 && forall u :: 0 <= u <= cfg.n ==> s.done[u] == s.stage + 1
  }

  lemma ZeroMeansOver(cfg: Config, s: State, t: nat)
    requires Inv(cfg, s) && t < cfg.n && s.unfinished == 0
    requires Leaving(s.parts[t].pc) || Interrupted(s.parts[t].pc)
    ensures StageOver(cfg, s)
  {
    hide LockOk, WakeOk, FlagsOk, HaltOk, PartsOk, Barrier.Law;
    AtWork(cfg, s, t);
    NoneLeft(cfg, s);
    GenIsStage(cfg, s, t);
  }

  lemma GenIsStage(cfg: Config, s: State, t: nat)
    requires Inv(cfg, s) && t < cfg.n && (Leaving(s.parts[t].pc) || Interrupted(s.parts[t].pc))
    ensures s.gen == s.stage
  {
    hide LockOk, WakeOk, FlagsOk, HaltOk, PartsOk, Barrier.Law, CountOk;
    AtWork(cfg, s, t);
  }

  /** In every run, a transaction worker is past its loop only with its flag cleared and
      every party done with the stage, and the output thread likewise. */
  lemma ServesToTheEnd(cfg: Config, rs: seq<State>, k: nat, t: nat)
    requires IsRun(cfg, rs) && k < |rs| && t < cfg.n
    ensures var s, p := rs[k], rs[k].parts[t];
      && (Serves(cfg, t, p.stage) && Leaving(p.pc) ==> !s.doWork[t] && StageOver(cfg, s))
      && (IsLogger(cfg, t) && Interrupted(p.pc) ==> StageOver(cfg, s))
  {
    hide Inv;
    var s := rs[k];
    RunInv(cfg, rs, k);
    RunStops(cfg, rs, k);
    assert StopOk(cfg, t, s.parts[t], s.doWork[t], s.unfinished);
    if Serves(cfg, t, s.parts[t].stage) && Leaving(s.parts[t].pc) {
      ClearedMeansZero(cfg, s, t);
      ZeroMeansOver(cfg, s, t);
    }
    if IsLogger(cfg, t) && Interrupted(s.parts[t].pc) {
      ZeroMeansOver(cfg, s, t);
    }
  }

  lemma ClearedMeansZero(cfg: Config, s: State, t: nat)
    requires Inv(cfg, s) && t < cfg.n && Leaving(s.parts[t].pc) && !s.doWork[t]
    ensures s.unfinished == 0
  {
    hide LockOk, WakeOk, PartsOk, Barrier.Law, CountOk;
    AtWork(cfg, s, t);
    assert FlagOk(s.c, s.stage, t, s.doWork[t], s.finished[t], s.stageIdx[t]);
  }

  /** While its flag is set, a transaction worker at work in a stage is completing it
      or serving, in every run. */
  lemma ServesWhileTold(cfg: Config, rs: seq<State>, k: nat, t: nat)
    requires IsRun(cfg, rs) && k < |rs| && t < cfg.n
    ensures var s, p := rs[k], rs[k].parts[t];
      Serves(cfg, t, p.stage) && AtWorkPc(p.pc) && s.doWork[t] ==> LeadsTo(p.pc, ToServe) || InServing(p.pc)
  {
    hide Inv;
    var s := rs[k];
    RunInv(cfg, rs, k);
    RunStops(cfg, rs, k);
    assert StopOk(cfg, t, s.parts[t], s.doWork[t], s.unfinished);
    KindOf(cfg, s, t);
  }

  lemma KindOf(cfg: Config, s: State, t: nat)
    requires Inv(cfg, s) && t < cfg.n
    ensures KindOk(cfg, t, s.parts[t])
  {
    hide KindOk;
    PartAt(cfg, s, t);
  }

  /** and a step of it leaves it serving; with the flag cleared the loop is left. */
  lemma StaysServing(cfg: Config, s: State, s': State, t: nat)
    requires Shape(cfg, s) && t < cfg.n && PStep(cfg, s, s', t) && InServing(s.parts[t].pc)
    ensures |s'.parts| == |s.parts|
    ensures s.doWork[t] ==> InServing(s'.parts[t].pc)
    ensures s.parts[t].pc.Serving? && !s.doWork[t] ==> s'.parts[t].pc == Check
  {
  }

  // ----- a sleep comes to its end -----

  function SleepRank(pc: Pc): nat {
    match pc
    case SWait(_) => 4
    case SLock(_) => 3
    case SWoken(_) => 3
    case SHeld(_) => 2
    case SUnlock(_, _) => 1
    case _ => 0
  }

  ghost predicate IsOwn(cfg: Config, ss: seq<State>, t: nat) {
    && |ss| > 0 && t < cfg.n && (forall k :: 0 <= k < |ss| ==> Shape(cfg, ss[k]))
    && (forall k :: 0 <= k < |ss| - 1 ==> PStep(cfg, ss[k], ss[k + 1], t))
  }

  /** Whenever the mutex is free a sleeper, its time being up, is back at work after at
      most four steps of its own: nobody has to finish the stage first. */
  lemma {:induction false} SleepEnds(cfg: Config, s: State, t: nat, r: Resume) returns (ss: seq<State>)
    requires Inv(cfg, s) && t < cfg.n && SleepsIn(s.parts[t].pc, r) && (s.lock == Free || s.lock == By(t))
    ensures IsOwn(cfg, ss, t) && ss[0] == s && |ss| <= 5
    ensures exists i :: ss[|ss| - 1].parts[t].pc == ResumePc(r, i)
    ensures |ss| <= 1 + SleepRank(s.parts[t].pc)
    decreases SleepRank(s.parts[t].pc)
  {
    hide Inv, PStep;
    var s' := SleepStep(cfg, s, t, r);
    PStepInv(cfg, s, s', t);
    ShapeIs(cfg, s');
    ShapeIs(cfg, s);
    if s.parts[t].pc.SUnlock? {
      ss := [s, s'];
    } else {
      var rest := SleepEnds(cfg, s', t, r);
      ss := [s] + rest;
      forall k | 0 <= k < |ss| - 1
        ensures PStep(cfg, ss[k], ss[k + 1], t)
      {
        if k > 0 { assert PStep(cfg, rest[k - 1], rest[k - 1 + 1], t); }
      }
    }
  }

  lemma ShapeIs(cfg: Config, s: State)
    requires Inv(cfg, s)
    ensures Shape(cfg, s)
  {
  }

  lemma SleepStep(cfg: Config, s: State, t: nat, r: Resume) returns (s': State)
    requires Inv(cfg, s) && t < cfg.n && SleepsIn(s.parts[t].pc, r) && (s.lock == Free || s.lock == By(t))
    ensures PStep(cfg, s, s', t) && |s'.parts| == cfg.n && SleepRank(s'.parts[t].pc) < SleepRank(s.parts[t].pc)
    ensures if s.parts[t].pc.SUnlock? then s'.parts[t].pc == ResumePc(r, s.parts[t].pc.interrupted)
            else SleepsIn(s'.parts[t].pc, r) && (s'.lock == Free || s'.lock == By(t))
  {
    hide WakeOk, HaltOk, CountOk, PartsOk, Barrier.Law, CoordOk, FlagsOk, PStep;
    assert Holds(s.parts[t].pc) <==> s.lock == By(t);
    match s.parts[t].pc
    case SLock(_) => s' := Goto(s, t, SHeld(r)).(lock := By(t)); SleepMove(cfg, s, s', t, r);
    case SWoken(_) => s' := Goto(s, t, SHeld(r)).(lock := By(t)); SleepMove(cfg, s, s', t, r);
    case SHeld(_) => s' := Goto(s, t, SUnlock(r, s.unfinished == 0)); SleepMove(cfg, s, s', t, r);
    case SWait(_) => s' := Goto(s, t, SWoken(r)); SleepMove(cfg, s, s', t, r);
    case SUnlock(_, i) => s' := Goto(s, t, ResumePc(r, i)).(lock := Free); SleepMove(cfg, s, s', t, r);
  }

  lemma SleepMove(cfg: Config, s: State, s': State, t: nat, r: Resume)
    requires Shape(cfg, s) && t < cfg.n && SleepsIn(s.parts[t].pc, r)
    requires var pc := s.parts[t].pc;
      && ((pc.SLock? || pc.SWoken?) ==> s.lock == Free && s' == Goto(s, t, SHeld(r)).(lock := By(t)))
      && (pc.SHeld? ==> s' == Goto(s, t, SUnlock(r, s.unfinished == 0)))
      && (pc.SWait? ==> s' == Goto(s, t, SWoken(r)))
      && (pc.SUnlock? ==> s' == Goto(s, t, ResumePc(r, pc.interrupted)).(lock := Free))
    ensures PStep(cfg, s, s', t)
  {
    hide ResumePc;
  }
}

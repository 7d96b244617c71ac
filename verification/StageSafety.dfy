/** What every reachable state of the stage protocol satisfies. */
module StageSafety {
  import opened Bits
  import opened Sequences
  import opened Stages
  import Barrier

  // ----- flags are a function of where the coordinator stands -----

  function DoWorkOf(c: CPc, t: nat): bool {
    match c
    case CHalt(i) => t >= i
    case CEnter1 => false
    case CInside1 => false
    case CSetIdx(_) => false
    case CReset => false
    case CTerm(_) => false
    case CRelease(i) => t < i
    case CEnter2(last) => !last
    case CInside2(last) => !last
    case CDone => false
    case _ => true
  }

  function FinishedOf(c: CPc, t: nat): bool {
    match c
    case CTerm(i) => t < i
    case CEnter2(last) => last
    case CInside2(last) => last
    case CDone => true
    case _ => false
  }

  function IdxOf(c: CPc, stage: nat, t: nat): int {
    match c
    case CSetIdx(i) => if t < i then stage else stage - 1
    case CTerm(_) => stage - 1
    case CEnter2(last) => if last then stage - 1 else stage
    case CInside2(last) => if last then stage - 1 else stage
    case CDone => stage - 1
    case _ => stage
  }

  ghost predicate FlagsOk(cfg: Config, s: State)
    requires Shape(cfg, s)
  {
    forall t :: 0 <= t < cfg.n ==> FlagOk(s.c, s.stage, t, s.doWork[t], s.finished[t], s.stageIdx[t])
  }

  predicate FlagOk(c: CPc, stage: nat, t: nat, doWork: bool, finished: bool, idx: nat) {
    doWork == DoWorkOf(c, t) && finished == FinishedOf(c, t) && idx == IdxOf(c, stage, t)
  }

  // ----- the mutex -----

  predicate Holds(pc: Pc) {
    pc.Held? || pc.Signal? || pc.Unlock? || pc.SHeld? || pc.SUnlock?
  }

  predicate CHolds(c: CPc) {
    c.CHeld? || c.CSignal? || c.CLoop? || c.CUnlock?
  }

  /** The mutex is owned exactly by the thread whose position says so. */
  ghost predicate LockOk(cfg: Config, s: State)
    requires Shape(cfg, s)
  {
    && (forall t :: 0 <= t < cfg.n ==> (Holds(s.parts[t].pc) <==> s.lock == By(t)))
    && (CHolds(s.c) <==> s.lock == By(cfg.n))
    && (s.lock.By? ==> s.lock.t <= cfg.n)
  }

  // ----- where a participant stands -----

  /** Between decrementing the counter and the first barrier wait. */
  predicate Completed(pc: Pc) {
    match pc
    case Serving => true
    case Signal(_) => true
    case Unlock(_) => true
    case SLock(r) => r != InWork
    case SHeld(r) => r != InWork
    case SWait(r) => r != InWork
    case SWoken(r) => r != InWork
    case SUnlock(r, _) => r != InWork
    case Logged(_) => true
    case Check => true
    case Enter1 => true
    case _ => false
  }

  predicate LeadsTo(pc: Pc, a: After) {
    (pc.Lock? || pc.Held? || pc.Signal? || pc.Unlock?) && pc.a == a
  }

  predicate SleepsIn(pc: Pc, r: Resume) {
    (pc.SLock? || pc.SHeld? || pc.SWait? || pc.SWoken? || pc.SUnlock?) && pc.r == r
  }

  /** Positions of the output thread and of workers under each plan. A worker with
      batches leaves its loop only after issuing all of them. */
  predicate KindOk(cfg: Config, t: nat, p: Part) {
    if IsLogger(cfg, t) then
      && !LeadsTo(p.pc, ToCheck) && !LeadsTo(p.pc, ToServe) && !SleepsIn(p.pc, InWork) && !SleepsIn(p.pc, InServe)
      && !p.pc.Work? && !p.pc.Serving? && !p.pc.Check?
    else
      && !p.pc.Logged? && !LeadsTo(p.pc, ToSleep) && !SleepsIn(p.pc, InLog)
      && (p.pc.Top? || p.pc.Done? || (
            && t < cfg.n && p.stage < |cfg.plans|
            && (if cfg.plans[p.stage][t].Linear? then
                  && !LeadsTo(p.pc, ToServe) && !SleepsIn(p.pc, InServe) && !p.pc.Serving?
                  && p.issued <= cfg.plans[p.stage][t].batches
                  && (p.pc.Work? || SleepsIn(p.pc, InWork) || p.issued == cfg.plans[p.stage][t].batches)
                else !LeadsTo(p.pc, ToCheck) && !SleepsIn(p.pc, InWork) && !p.pc.Work?)))
  }

  /** How the waits entered (e) and left (l) and the completions (d) follow from
      the position. */
  predicate PartOk(cfg: Config, t: nat, p: Part, e: nat, l: nat, d: nat) {
    && KindOk(cfg, t, p)
    && match p.pc
       case Done => e == l == 2 * |cfg.plans| && d == |cfg.plans|
       case Top => e == l == 2 * d && d <= |cfg.plans|
       case Inside1 => e == 2 * p.stage + 1 && l == 2 * p.stage && d == p.stage + 1 <= |cfg.plans|
       case Enter2 => e == l == 2 * p.stage + 1 && d == p.stage + 1 <= |cfg.plans|
       case Inside2 => e == 2 * p.stage + 2 && l == 2 * p.stage + 1 && d == p.stage + 1 <= |cfg.plans|
       case _ => e == l == 2 * p.stage && p.stage < |cfg.plans| && d == p.stage + (if Completed(p.pc) then 1 else 0)
  }

  ghost predicate PartsOk(cfg: Config, s: State)
    requires Shape(cfg, s)
  {
    forall t :: 0 <= t < cfg.n ==> PartOk(cfg, t, s.parts[t], s.entered[t], s.left[t], s.done[t])
  }

  // ----- where the coordinator stands -----

  predicate CoordAt(cfg: Config, c: CPc, stage: nat, e: nat, l: nat, d: nat, gen: nat) {
    var m := |cfg.plans|;
    match c
    case CSleep => stage < m && e == l == 2 * stage && d == stage == gen
    case CLock => stage < m && e == l == 2 * stage && d == stage == gen
    case CHeld => stage < m && e == l == 2 * stage && d == stage == gen
    case CInside1 => stage < m && e == 2 * stage + 1 && l == 2 * stage && d == stage + 1 && gen == stage
    case CSetIdx(i) => 1 <= stage < m && e == l == 2 * stage - 1 && d == stage && gen == stage - 1 && i <= cfg.n
    case CReset => 1 <= stage < m && e == l == 2 * stage - 1 && d == stage && gen == stage - 1
    case CRelease(i) => 1 <= stage < m && e == l == 2 * stage - 1 && d == stage == gen && i <= cfg.n
    case CTerm(i) => stage == m && e == l == 2 * stage - 1 && d == stage && gen == stage - 1 && i <= cfg.n
    case CEnter2(last) =>
      && e == l == 2 * stage - 1 && d == stage
      && (if last then stage == m && gen == stage - 1 else 1 <= stage < m && gen == stage)
    case CInside2(last) =>
      && e == 2 * stage && l == 2 * stage - 1 && d == stage
      && (if last then stage == m && gen == stage - 1 else 1 <= stage < m && gen == stage)
    case CDone => stage == m && e == l == 2 * stage && d == stage && gen == stage - 1
    case _ => stage < m && e == l == 2 * stage && d == stage + 1 && gen == stage && (c.CHalt? ==> c.i <= cfg.n)
  }

  ghost predicate CoordOk(cfg: Config, s: State)
    requires Shape(cfg, s)
  {
    CoordAt(cfg, s.c, s.stage, s.entered[cfg.n], s.left[cfg.n], s.done[cfg.n], s.gen)
  }

  // ----- the counter -----

  /** How many parties have completed exactly the stages before the counted one. */
  ghost function Pending(s: State): nat {
    multiset(s.done)[s.gen]
  }

  /** The counter is the number of parties that have not completed the stage it counts. */
  ghost predicate CountOk(cfg: Config, s: State)
    requires Shape(cfg, s)
  {
    && s.unfinished == Pending(s)
    && (forall u :: 0 <= u <= cfg.n ==> s.gen <= s.done[u] <= s.gen + 1)
  }

  /** Once the coordinator has seen zero it stays zero until refilled. */
  ghost predicate HaltOk(s: State) {
    && (s.c.CSignal? || s.c.CUnlock? || s.c.CHalt? || s.c.CEnter1? || s.c.CInside1? ==> s.unfinished == 0)
    && (s.c.CLoop? ==> s.c.rem == s.unfinished)
  }

  ghost predicate Signalling(s: State) {
    s.c.CSignal? || exists t :: 0 <= t < |s.parts| && s.parts[t].pc.Signal?
  }

  /** No wakeup is lost: nobody waits on a zero counter unless the broadcast is
      about to happen. */
  ghost predicate WakeOk(s: State) {
    s.unfinished == 0 && !Signalling(s) ==>
      s.c != CWait && forall t :: 0 <= t < |s.parts| ==> !s.parts[t].pc.SWait?
  }

  ghost predicate Inv(cfg: Config, s: State) {
    && Shape(cfg, s)
    && Barrier.Law(s.entered, s.left)
    && PartsOk(cfg, s)
    && CoordOk(cfg, s)
    && FlagsOk(cfg, s)
    && LockOk(cfg, s)
    && CountOk(cfg, s)
    && HaltOk(s)
    && WakeOk(s)
  }

  // ----- consequences used by the step proofs -----

  /** How far a participant can be from the coordinator. */
  lemma Near(cfg: Config, s: State, t: nat)
    requires Shape(cfg, s) && Barrier.Law(s.entered, s.left) && t < cfg.n
    ensures s.left[t] <= s.entered[cfg.n] && s.left[cfg.n] <= s.entered[t]
    ensures s.left[t] <= s.entered[t] <= s.left[t] + 1
  {
    assert Barrier.AllEntered(s.entered, s.left[t]) && Barrier.AllEntered(s.entered, s.left[cfg.n]);
  }

  /** A participant at work is in the stage that the counter counts, and the
      coordinator has not touched that stage's flags unless all are done. */
  lemma AtWork(cfg: Config, s: State, t: nat)
    requires Shape(cfg, s) && Barrier.Law(s.entered, s.left) && PartsOk(cfg, s) && CoordOk(cfg, s) && t < cfg.n
    requires var pc := s.parts[t].pc; !pc.Done? && !pc.Inside1? && !pc.Enter2? && !pc.Inside2?
    ensures !s.c.CSetIdx? && !s.c.CReset? && !s.c.CRelease? && !s.c.CTerm? && !s.c.CEnter2?
    ensures s.entered[t] == 2 * s.stage
    ensures s.c.CInside2? && s.c.last ==> s.parts[t].pc.Top?
    ensures s.c.CDone? ==> s.parts[t].pc.Top?
  {
    Near(cfg, s, t);
    assert PartOk(cfg, t, s.parts[t], s.entered[t], s.left[t], s.done[t]);
  }

  lemma InitInv(cfg: Config, s: State)
    requires Init(cfg, s)
    ensures Inv(cfg, s)
  {
    FullMeansAll(s.done, 0);
  }

  // ----- each step keeps each part of the invariant -----

  /** What a participant's step does to the waits and completions: its own only. */
  lemma PSeqs(cfg: Config, s: State, s': State, t: nat)
    requires Shape(cfg, s) && t < cfg.n && PStep(cfg, s, s', t)
    ensures var pc := s.parts[t].pc;
      && s'.entered == (if pc.Enter1? || pc.Enter2? then s.entered[t := s.entered[t] + 1] else s.entered)
      && s'.left == (if pc.Inside1? || pc.Inside2? then s.left[t := s.entered[t]] else s.left)
      && s'.done == (if pc.Held? then s.done[t := s.done[t] + 1] else s.done)
      && (pc.Inside1? || pc.Inside2? ==> Barrier.MayLeave(s.entered, t))
  {
    hide Barrier.MayLeave;
  }

  lemma PShared(cfg: Config, s: State, s': State, t: nat)
    requires Shape(cfg, s) && t < cfg.n && PStep(cfg, s, s', t)
    ensures s'.doWork == s.doWork && s'.finished == s.finished && s'.stageIdx == s.stageIdx
    ensures s'.stage == s.stage && s'.gen == s.gen && (s'.c == s.c || s'.c == CWake(s.c))
  {
    hide Barrier.MayLeave;
  }

  lemma PParts(cfg: Config, s: State, s': State, t: nat)
    requires Shape(cfg, s) && t < cfg.n && PStep(cfg, s, s', t)
    ensures |s'.parts| == |s.parts|
    ensures s'.parts == (if s.parts[t].pc.Signal? then WakeAll(s.parts) else s.parts)[t := s'.parts[t]]
  {
    hide PStep, WakeAll;
    if s.parts[t].pc.Signal? {
      PSignals(cfg, s, s', t);
    } else if s'.parts == s.parts {
      assert s.parts == s.parts[t := s.parts[t]];
    } else {
      var p' := PMovesAlone(cfg, s, s', t);
    }
  }

  lemma PSignals(cfg: Config, s: State, s': State, t: nat)
    requires Shape(cfg, s) && t < cfg.n && PStep(cfg, s, s', t) && s.parts[t].pc.Signal?
    ensures |s'.parts| == |s.parts| && s'.parts == WakeAll(s.parts)[t := s'.parts[t]]
  {
    hide WakeAll;
  }

  /** Without a broadcast only the moving thread's part changes. */
  lemma PMovesAlone(cfg: Config, s: State, s': State, t: nat) returns (p': Part)
    requires Shape(cfg, s) && t < cfg.n && PStep(cfg, s, s', t) && !s.parts[t].pc.Signal? && s'.parts != s.parts
    ensures s'.parts == s.parts[t := p']
  {
    hide PStep;
    if s.parts[t].pc.Top? || s.parts[t].pc.Work? || s.parts[t].pc.Serving? {
      p' := LoopMovesAlone(cfg, s, s', t);
    } else {
      p' := PcMovesAlone(cfg, s, s', t);
    }
  }

  lemma LoopMovesAlone(cfg: Config, s: State, s': State, t: nat) returns (p': Part)
    requires Shape(cfg, s) && t < cfg.n && PStep(cfg, s, s', t) && s'.parts != s.parts
    requires s.parts[t].pc.Top? || s.parts[t].pc.Work? || s.parts[t].pc.Serving?
    ensures s'.parts == s.parts[t := p']
  {
    hide IsLogger;
    p' := s'.parts[t];
  }

  lemma PcMovesAlone(cfg: Config, s: State, s': State, t: nat) returns (p': Part)
    requires Shape(cfg, s) && t < cfg.n && PStep(cfg, s, s', t) && !s.parts[t].pc.Signal?
    requires !s.parts[t].pc.Top? && !s.parts[t].pc.Work? && !s.parts[t].pc.Serving?
    ensures s'.parts == s.parts[t := p']
  {
    hide Barrier.MayLeave, Dec, AfterPc, ResumePc;
    p' := s'.parts[t];
  }

  lemma POthers(cfg: Config, s: State, s': State, t: nat)
    requires Shape(cfg, s) && t < cfg.n && PStep(cfg, s, s', t)
    ensures |s'.parts| == |s.parts|
    ensures forall u :: 0 <= u < cfg.n && u != t ==> s'.parts[u] == s.parts[u] || s'.parts[u] == Wake(s.parts[u])
  {
    hide PStep, Wake;
    PParts(cfg, s, s', t);
  }

  /** What a participant's step leaves alone. */
  lemma PFrame(cfg: Config, s: State, s': State, t: nat)
    requires Shape(cfg, s) && t < cfg.n && PStep(cfg, s, s', t)
    ensures Shape(cfg, s')
    ensures s'.doWork == s.doWork && s'.finished == s.finished && s'.stageIdx == s.stageIdx
    ensures s'.stage == s.stage && s'.gen == s.gen && (s'.c == s.c || s'.c == CWake(s.c))
    ensures forall u :: 0 <= u < cfg.n && u != t ==> s'.parts[u] == s.parts[u] || s'.parts[u] == Wake(s.parts[u])
    ensures forall u :: 0 <= u <= cfg.n && u != t ==>
              s'.entered[u] == s.entered[u] && s'.left[u] == s.left[u] && s'.done[u] == s.done[u]
  {
    hide PStep, CWake, Wake;
    PSeqs(cfg, s, s', t);
    PShared(cfg, s, s', t);
    POthers(cfg, s, s', t);
  }

  lemma PartAt(cfg: Config, s: State, t: nat)
    requires Shape(cfg, s) && PartsOk(cfg, s) && t < cfg.n
    ensures PartOk(cfg, t, s.parts[t], s.entered[t], s.left[t], s.done[t])
  {
  }

  lemma LawStepP(cfg: Config, s: State, s': State, t: nat)
    requires Inv(cfg, s) && t < cfg.n && PStep(cfg, s, s', t)
    ensures Shape(cfg, s') && Barrier.Law(s'.entered, s'.left)
  {
    hide FlagsOk, LockOk, CountOk, HaltOk, WakeOk, CoordOk, KindOk, PartsOk, PStep, Barrier.Law, Barrier.MayLeave;
    PartAt(cfg, s, t);
    PFrame(cfg, s, s', t);
    PSeqs(cfg, s, s', t);
    if s.parts[t].pc.Enter1? || s.parts[t].pc.Enter2? {
      Barrier.EnterKeepsLaw(s.entered, s.left, t);
    } else if s.parts[t].pc.Inside1? || s.parts[t].pc.Inside2? {
      Barrier.LeaveKeepsLaw(s.entered, s.left, t);
    }
  }

  lemma PartsStepP(cfg: Config, s: State, s': State, t: nat)
    requires Inv(cfg, s) && t < cfg.n && PStep(cfg, s, s', t)
    ensures Shape(cfg, s') && PartsOk(cfg, s')
  {
    hide PStep, LockOk, HaltOk, WakeOk, CountOk, CoordOk, FlagsOk, Barrier.Law;
    PFrame(cfg, s, s', t);
    forall u | 0 <= u < cfg.n
      ensures PartOk(cfg, u, s'.parts[u], s'.entered[u], s'.left[u], s'.done[u])
    {
      assert PartOk(cfg, u, s.parts[u], s.entered[u], s.left[u], s.done[u]);
      if u == t {
        OwnPart(cfg, s, s', t);
      } else {
        WakePart(cfg, u, s.parts[u], s.entered[u], s.left[u], s.done[u]);
      }
    }
  }

  lemma WakePart(cfg: Config, t: nat, p: Part, e: nat, l: nat, d: nat)
    requires PartOk(cfg, t, p, e, l, d)
    ensures PartOk(cfg, t, Wake(p), e, l, d)
  {
  }

  lemma OwnPart(cfg: Config, s: State, s': State, t: nat)
    requires Inv(cfg, s) && t < cfg.n && PStep(cfg, s, s', t)
    ensures Shape(cfg, s') && PartOk(cfg, t, s'.parts[t], s'.entered[t], s'.left[t], s'.done[t])
  {
    hide LockOk, WakeOk, HaltOk, CountOk, Barrier.Law, CoordOk, FlagsOk, KindOk, PartsOk, PartOk, PStep;
    if s.parts[t].pc.Top? {
      OwnTop(cfg, s, s', t);
    } else {
      PartAt(cfg, s, t);
      PFrame(cfg, s, s', t);
      PSeqs(cfg, s, s', t);
      OwnKind(cfg, s, s', t);
      NotFinished(cfg, s, t);
      OwnMove(cfg, s, s', t);
      PartMoves(cfg, t, s.parts[t], s'.parts[t], s.entered[t], s.left[t], s.done[t]);
    }
  }

  /** Where a step can lead, the loop of a worker included; only a thread told to
      finish is done. */
  predicate Leads(pc: Pc, pc': Pc) {
    if pc.Work? then pc' in {Work, SLock(InWork), Lock(ToCheck)} else CanMove(pc, pc') && !pc'.Done?
  }

  lemma OwnMove(cfg: Config, s: State, s': State, t: nat)
    requires Shape(cfg, s) && t < cfg.n && PStep(cfg, s, s', t) && !s.parts[t].pc.Top?
    requires (s.parts[t].pc.Logged? || s.parts[t].pc.Check?) ==> !s.finished[t]
    ensures |s'.parts| == |s.parts| && s'.parts[t].stage == s.parts[t].stage && Leads(s.parts[t].pc, s'.parts[t].pc)
  {
    hide PStep, CanMove;
    if s.parts[t].pc.Work? {
      WorkMoves(cfg, s, s', t);
    } else {
      PcMoves(cfg, s, s', t);
      if s.parts[t].pc.Logged? || s.parts[t].pc.Check? {
        NotDone(cfg, s, s', t);
      } else {
        OnlyExits(s.parts[t].pc, s'.parts[t].pc);
      }
    }
  }

  lemma WorkMoves(cfg: Config, s: State, s': State, t: nat)
    requires Shape(cfg, s) && t < cfg.n && PStep(cfg, s, s', t) && s.parts[t].pc.Work?
    ensures |s'.parts| == |s.parts| && s'.parts[t].stage == s.parts[t].stage
    ensures s'.parts[t].pc in {Work, SLock(InWork), Lock(ToCheck)}
  {
  }

  lemma NotDone(cfg: Config, s: State, s': State, t: nat)
    requires Shape(cfg, s) && t < cfg.n && PStep(cfg, s, s', t) && (s.parts[t].pc.Logged? || s.parts[t].pc.Check?)
    requires !s.finished[t]
    ensures |s'.parts| == |s.parts| && !s'.parts[t].pc.Done?
  {
  }

  lemma OnlyExits(pc: Pc, pc': Pc)
    requires CanMove(pc, pc') && !pc.Logged? && !pc.Check?
    ensures !pc'.Done?
  {
  }

  /** Waits and completions keep following the position. */
  lemma PartMoves(cfg: Config, t: nat, p: Part, p': Part, e: nat, l: nat, d: nat)
    requires PartOk(cfg, t, p, e, l, d) && KindOk(cfg, t, p') && p'.stage == p.stage && Leads(p.pc, p'.pc)
    ensures PartOk(cfg, t, p',
                   if p.pc.Enter1? || p.pc.Enter2? then e + 1 else e,
                   if p.pc.Inside1? || p.pc.Inside2? then e else l,
                   if p.pc.Held? then d + 1 else d)
  {
    hide KindOk;
  }

  /** A thread at work has not been told to finish, unless it is at the loop head. */
  lemma NotFinished(cfg: Config, s: State, t: nat)
    requires Inv(cfg, s) && t < cfg.n
    ensures var pc := s.parts[t].pc; !pc.Top? && !pc.Done? && !pc.Inside1? && !pc.Enter2? && !pc.Inside2? ==> !s.finished[t]
  {
    hide LockOk, WakeOk, HaltOk, CountOk, KindOk;
    var pc := s.parts[t].pc;
    if !pc.Top? && !pc.Done? && !pc.Inside1? && !pc.Enter2? && !pc.Inside2? {
      AtWork(cfg, s, t);
    }
  }

  lemma OwnTop(cfg: Config, s: State, s': State, t: nat)
    requires Inv(cfg, s) && t < cfg.n && PStep(cfg, s, s', t) && s.parts[t].pc.Top?
    ensures Shape(cfg, s') && PartOk(cfg, t, s'.parts[t], s'.entered[t], s'.left[t], s'.done[t])
  {
    hide LockOk, WakeOk, HaltOk, CountOk;
    assert PartOk(cfg, t, s.parts[t], s.entered[t], s.left[t], s.done[t]);
    AtWork(cfg, s, t);
  }

  /** A step keeps a thread within its plan. */
  lemma OwnKind(cfg: Config, s: State, s': State, t: nat)
    requires Inv(cfg, s) && t < cfg.n && PStep(cfg, s, s', t) && !s.parts[t].pc.Top?
    ensures Shape(cfg, s') && KindOk(cfg, t, s'.parts[t])
  {
    hide LockOk, WakeOk, HaltOk, CountOk, Barrier.Law, CoordOk, FlagsOk, PStep, KindOk;
    assert PartOk(cfg, t, s.parts[t], s.entered[t], s.left[t], s.done[t]);
    if s.parts[t].pc.Work? {
      ToldToWork(cfg, s, t);
      KindWork(cfg, s, s', t);
    } else {
      KindElsewhere(cfg, s, s', t);
    }
  }

  lemma KindWork(cfg: Config, s: State, s': State, t: nat)
    requires Shape(cfg, s) && t < cfg.n && PStep(cfg, s, s', t)
    requires KindOk(cfg, t, s.parts[t]) && s.parts[t].pc.Work? && s.doWork[t]
    ensures Shape(cfg, s') && KindOk(cfg, t, s'.parts[t])
  {
  }

  lemma KindElsewhere(cfg: Config, s: State, s': State, t: nat)
    requires Shape(cfg, s) && t < cfg.n && PStep(cfg, s, s', t)
    requires KindOk(cfg, t, s.parts[t]) && !s.parts[t].pc.Work? && !s.parts[t].pc.Top?
    ensures Shape(cfg, s') && KindOk(cfg, t, s'.parts[t])
  {
    hide PStep, KindOk;
    PcMoves(cfg, s, s', t);
    KindMoves(cfg, t, s.parts[t], s'.parts[t].pc);
  }

  /** The positions a step can lead to, away from the two loop heads that choose work. */
  predicate CanMove(pc: Pc, pc': Pc) {
    match pc
    case Serving => pc' in {Serving, SLock(InServe), Check}
    case Lock(a) => pc' == Held(a)
    case Held(a) => pc' in {Signal(a), Unlock(a)}
    case Signal(a) => pc' == Unlock(a)
    case Unlock(a) => pc' == AfterPc(a)
    case SLock(r) => pc' == SHeld(r)
    case SHeld(r) => pc' in {SUnlock(r, true), SUnlock(r, false), SWait(r)}
    case SWait(r) => pc' == SWoken(r)
    case SWoken(r) => pc' == SHeld(r)
    case SUnlock(r, i) => pc' == ResumePc(r, i)
    case Logged(_) => pc' in {Done, Enter1, SLock(InLog)}
    case Check => pc' in {Done, Enter1}
    case Enter1 => pc' == Inside1
    case Inside1 => pc' == Enter2
    case Enter2 => pc' == Inside2
    case Inside2 => pc' == Top
    case _ => false
  }

  lemma PcMoves(cfg: Config, s: State, s': State, t: nat)
    requires Shape(cfg, s) && t < cfg.n && PStep(cfg, s, s', t) && !s.parts[t].pc.Work? && !s.parts[t].pc.Top?
    ensures Shape(cfg, s') && s'.parts[t] == s.parts[t].(pc := s'.parts[t].pc) && CanMove(s.parts[t].pc, s'.parts[t].pc)
  {
  }

  lemma KindMoves(cfg: Config, t: nat, p: Part, pc': Pc)
    requires KindOk(cfg, t, p) && CanMove(p.pc, pc')
    ensures KindOk(cfg, t, p.(pc := pc'))
  {
  }

  /** Until a participant completes its stage its do_work flag stays set. */
  lemma ToldToWork(cfg: Config, s: State, t: nat)
    requires Inv(cfg, s) && t < cfg.n
    requires var pc := s.parts[t].pc; !Completed(pc) && !pc.Done? && !pc.Inside1? && !pc.Enter2? && !pc.Inside2? && !pc.Top?
    ensures s.doWork[t] && s.unfinished > 0 && s.done[t] == s.gen == s.stage == s.parts[t].stage
  {
    hide LockOk, WakeOk, KindOk;
    assert PartOk(cfg, t, s.parts[t], s.entered[t], s.left[t], s.done[t]);
    AtWork(cfg, s, t);
    assert s.done[t] in multiset(s.done);
  }

  lemma CoordFlagsStepP(cfg: Config, s: State, s': State, t: nat)
    requires Inv(cfg, s) && t < cfg.n && PStep(cfg, s, s', t)
    ensures Shape(cfg, s') && CoordOk(cfg, s') && FlagsOk(cfg, s')
  {
    hide PStep, LockOk, WakeOk, HaltOk, CountOk, PartsOk, Barrier.Law;
    PFrame(cfg, s, s', t);
  }

  lemma LockStepP(cfg: Config, s: State, s': State, t: nat)
    requires Inv(cfg, s) && t < cfg.n && PStep(cfg, s, s', t)
    ensures Shape(cfg, s') && LockOk(cfg, s')
  {
    hide WakeOk, HaltOk, CountOk, PartsOk, Barrier.Law, CoordOk, FlagsOk;
    hide PStep;
    PFrame(cfg, s, s', t);
    LockMoves(cfg, s, s', t);
    forall u | 0 <= u < cfg.n && u != t
      ensures Holds(s'.parts[u].pc) == Holds(s.parts[u].pc)
    {
      assert s'.parts[u] == s.parts[u] || s'.parts[u] == Wake(s.parts[u]);
    }
  }

  predicate Acquires(pc: Pc) {
    pc.Lock? || pc.SLock? || pc.SWoken?
  }

  predicate Releases(pc: Pc, pc': Pc) {
    pc.Unlock? || pc.SUnlock? || (pc.SHeld? && pc'.SWait?)
  }

  /** What a participant's step does to the mutex. */
  lemma PLock(cfg: Config, s: State, s': State, t: nat)
    requires Shape(cfg, s) && t < cfg.n && PStep(cfg, s, s', t)
    ensures |s'.parts| == |s.parts|
    ensures Acquires(s.parts[t].pc) ==> s.lock == Free
    ensures s'.lock == if Acquires(s.parts[t].pc) then By(t) else if Releases(s.parts[t].pc, s'.parts[t].pc) then Free else s.lock
  {
    hide PStep;
    PParts(cfg, s, s', t);
    if Acquires(s.parts[t].pc) {
      PAcquires(cfg, s, s', t);
    } else if s.parts[t].pc.Unlock? || s.parts[t].pc.SUnlock? || s.parts[t].pc.SHeld? {
      PReleases(cfg, s, s', t);
    } else {
      PKeeps(cfg, s, s', t);
    }
  }

  lemma PAcquires(cfg: Config, s: State, s': State, t: nat)
    requires Shape(cfg, s) && t < cfg.n && PStep(cfg, s, s', t) && Acquires(s.parts[t].pc)
    ensures s.lock == Free && s'.lock == By(t)
  {
  }

  lemma PReleases(cfg: Config, s: State, s': State, t: nat)
    requires Shape(cfg, s) && t < cfg.n && PStep(cfg, s, s', t)
    requires s.parts[t].pc.Unlock? || s.parts[t].pc.SUnlock? || s.parts[t].pc.SHeld?
    ensures |s'.parts| == |s.parts|
    ensures s'.lock == if s.parts[t].pc.SHeld? && !s'.parts[t].pc.SWait? then s.lock else Free
  {
  }

  lemma PKeeps(cfg: Config, s: State, s': State, t: nat)
    requires Shape(cfg, s) && t < cfg.n && PStep(cfg, s, s', t) && !Acquires(s.parts[t].pc)
    requires !s.parts[t].pc.Unlock? && !s.parts[t].pc.SUnlock? && !s.parts[t].pc.SHeld?
    ensures s'.lock == s.lock
  {
    hide Barrier.MayLeave, WakeAll, Dec, IsLogger;
  }

  lemma StartsOutside(cfg: Config, s: State, s': State, t: nat)
    requires Shape(cfg, s) && t < cfg.n && PStep(cfg, s, s', t) && (s.parts[t].pc.Top? || s.parts[t].pc.Work?)
    ensures |s'.parts| == |s.parts| && !Holds(s'.parts[t].pc)
  {
  }

  /** Holding the mutex follows from the position. */
  lemma HoldsMoves(pc: Pc, pc': Pc)
    requires CanMove(pc, pc')
    ensures Holds(pc') == (if Acquires(pc) then true else if Releases(pc, pc') then false else Holds(pc))
    ensures Releases(pc, pc') ==> Holds(pc)
  {
  }

  /** The mutex changes hands only through the moving thread. */
  lemma LockMoves(cfg: Config, s: State, s': State, t: nat)
    requires Shape(cfg, s) && t < cfg.n && PStep(cfg, s, s', t)
    requires Holds(s.parts[t].pc) <==> s.lock == By(t)
    ensures Shape(cfg, s')
    ensures || (s'.lock == s.lock && Holds(s'.parts[t].pc) == Holds(s.parts[t].pc))
            || (s.lock == Free && s'.lock == By(t) && Holds(s'.parts[t].pc))
            || (s.lock == By(t) && s'.lock == Free && !Holds(s'.parts[t].pc))
    ensures s'.c != s.c ==> s.c == CWait && s'.c == CWoken
  {
    hide PStep, CanMove;
    PFrame(cfg, s, s', t);
    PLock(cfg, s, s', t);
    if s.parts[t].pc.Top? || s.parts[t].pc.Work? {
      StartsOutside(cfg, s, s', t);
    } else {
      PcMoves(cfg, s, s', t);
      HoldsMoves(s.parts[t].pc, s'.parts[t].pc);
    }
  }

  lemma CountStepP(cfg: Config, s: State, s': State, t: nat)
    requires Inv(cfg, s) && t < cfg.n && PStep(cfg, s, s', t)
    ensures Shape(cfg, s') && CountOk(cfg, s') && HaltOk(s')
    ensures s'.unfinished != s.unfinished ==> s.parts[t].pc.Held? && s'.unfinished == s.unfinished - 1
  {
    hide PStep, WakeOk, LockOk, Barrier.Law, CoordOk, FlagsOk, KindOk, PartsOk, CountOk;
    PFrame(cfg, s, s', t);
    if s.parts[t].pc.Held? {
      ToldToWork(cfg, s, t);
      assert s.unfinished < TWO_32 by { CounterSmall(cfg, s); }
      HeldEffect(cfg, s, s', t);
      CountAfter(cfg, s, s', t);
      LoopHeldOnce(cfg, s, t);
    } else {
      CountFrame(cfg, s, s', t);
      CountSame(cfg, s, s');
    }
  }

  lemma CounterSmall(cfg: Config, s: State)
    requires Shape(cfg, s) && CountOk(cfg, s)
    ensures s.unfinished <= cfg.n + 1 < TWO_32
  {
    FullMeansAll(s.done, s.gen);
  }

  lemma HeldEffect(cfg: Config, s: State, s': State, t: nat)
    requires Shape(cfg, s) && t < cfg.n && PStep(cfg, s, s', t) && s.parts[t].pc.Held? && 0 < s.unfinished < TWO_32
    ensures s'.unfinished == s.unfinished - 1 && s'.done == s.done[t := s.done[t] + 1] && s'.gen == s.gen && s'.c == s.c
  {
    assert Dec(s.unfinished) == s.unfinished - 1;
  }

  lemma CountAfter(cfg: Config, s: State, s': State, u: nat)
    requires Shape(cfg, s) && Shape(cfg, s') && CountOk(cfg, s) && u <= cfg.n && s.done[u] == s.gen
    requires s'.unfinished == s.unfinished - 1 && s'.done == s.done[u := s.gen + 1] && s'.gen == s.gen
    ensures CountOk(cfg, s')
  {
  }

  lemma CountSame(cfg: Config, s: State, s': State)
    requires Shape(cfg, s) && Shape(cfg, s') && CountOk(cfg, s)
    requires s'.unfinished == s.unfinished && s'.done == s.done && s'.gen == s.gen
    ensures CountOk(cfg, s')
  {
  }

  lemma CountFrame(cfg: Config, s: State, s': State, t: nat)
    requires Shape(cfg, s) && t < cfg.n && PStep(cfg, s, s', t) && !s.parts[t].pc.Held?
    ensures s'.unfinished == s.unfinished && s'.done == s.done && s'.gen == s.gen && (s'.c == s.c || s'.c == CWoken)
  {
  }

  /** While a participant holds the mutex the coordinator does not test the counter. */
  lemma LoopHeldOnce(cfg: Config, s: State, t: nat)
    requires Shape(cfg, s) && LockOk(cfg, s) && t < cfg.n && Holds(s.parts[t].pc)
    ensures !CHolds(s.c)
  {
  }

  lemma WakeStepP(cfg: Config, s: State, s': State, t: nat)
    requires Inv(cfg, s) && t < cfg.n && PStep(cfg, s, s', t)
    ensures Shape(cfg, s') && WakeOk(s')
  {
    hide LockOk, Barrier.Law, CoordOk, FlagsOk, KindOk, PartsOk, CountOk, HaltOk;
    CountStepP(cfg, s, s', t);
    if s.parts[t].pc.Held? {
      LastOneSignals(cfg, s, s', t);
    }
    if s'.unfinished == 0 && !Signalling(s') {
      var pc := s.parts[t].pc;
      if !pc.Signal? && !pc.Held? {
        NoNewWaiter(cfg, s, s', t);
      }
    }
  }

  /** Whoever brings the counter to zero goes on to broadcast. */
  lemma LastOneSignals(cfg: Config, s: State, s': State, t: nat)
    requires Shape(cfg, s) && t < cfg.n && PStep(cfg, s, s', t) && s.parts[t].pc.Held?
    ensures s'.unfinished == 0 ==> Signalling(s')
  {
    assert s'.unfinished == 0 ==> s'.parts[t].pc.Signal?;
  }

  lemma NoNewWaiter(cfg: Config, s: State, s': State, t: nat)
    requires Shape(cfg, s) && t < cfg.n && PStep(cfg, s, s', t) && s.unfinished == 0 && WakeOk(s)
    requires !s.parts[t].pc.Signal? && !s.parts[t].pc.Held? && !Signalling(s')
    ensures s'.c != CWait && forall u :: 0 <= u < |s'.parts| ==> !s'.parts[u].pc.SWait?
  {
    assert s'.c == s.c && forall u :: 0 <= u < |s.parts| && u != t ==> s'.parts[u] == s.parts[u];
  }

  lemma PStepInv(cfg: Config, s: State, s': State, t: nat)
    requires Inv(cfg, s) && t < cfg.n && PStep(cfg, s, s', t)
    ensures Inv(cfg, s')
  {
    hide PStep, LockOk, Barrier.Law, CoordOk, FlagsOk, PartsOk, CountOk, HaltOk, WakeOk;
    LawStepP(cfg, s, s', t);
    PartsStepP(cfg, s, s', t);
    CoordFlagsStepP(cfg, s, s', t);
    LockStepP(cfg, s, s', t);
    CountStepP(cfg, s, s', t);
    WakeStepP(cfg, s, s', t);
  }

  // ----- coordinator steps -----

  lemma CFrame(cfg: Config, s: State, s': State, spurious: bool)
    requires Shape(cfg, s) && CStep(cfg, s, s', spurious)
    ensures Shape(cfg, s')
    ensures forall t :: 0 <= t < cfg.n ==> s'.parts[t] == s.parts[t] || s'.parts[t] == Wake(s.parts[t])
    ensures forall t :: 0 <= t < cfg.n ==>
              s'.entered[t] == s.entered[t] && s'.left[t] == s.left[t] && s'.done[t] == s.done[t]
  {
  }

  lemma LawStepC(cfg: Config, s: State, s': State, spurious: bool)
    requires Inv(cfg, s) && CStep(cfg, s, s', spurious)
    ensures Shape(cfg, s') && Barrier.Law(s'.entered, s'.left)
  {
    hide FlagsOk, LockOk, CountOk, HaltOk, WakeOk, PartsOk, Barrier.Law, Barrier.MayLeave;
    if s.c.CEnter1? || s.c.CEnter2? {
      Barrier.EnterKeepsLaw(s.entered, s.left, cfg.n);
    } else if s.c.CInside1? || s.c.CInside2? {
      Barrier.LeaveKeepsLaw(s.entered, s.left, cfg.n);
    }
  }

  lemma PartsStepC(cfg: Config, s: State, s': State, spurious: bool)
    requires Inv(cfg, s) && CStep(cfg, s, s', spurious)
    ensures Shape(cfg, s') && PartsOk(cfg, s')
  {
    hide CStep, FlagsOk, LockOk, CountOk, HaltOk, WakeOk, CoordOk, Barrier.Law;
    CFrame(cfg, s, s', spurious);
    forall t | 0 <= t < cfg.n
      ensures PartOk(cfg, t, s'.parts[t], s'.entered[t], s'.left[t], s'.done[t])
    {
      assert PartOk(cfg, t, s.parts[t], s.entered[t], s.left[t], s.done[t]);
      WakePart(cfg, t, s.parts[t], s.entered[t], s.left[t], s.done[t]);
    }
  }

  lemma CoordStepC(cfg: Config, s: State, s': State, spurious: bool)
    requires Inv(cfg, s) && CStep(cfg, s, s', spurious)
    ensures Shape(cfg, s') && CoordOk(cfg, s')
  {
    hide FlagsOk, LockOk, CountOk, WakeOk, PartsOk, Barrier.Law, Barrier.MayLeave;
  }

  lemma FlagsStepC(cfg: Config, s: State, s': State, spurious: bool)
    requires Inv(cfg, s) && CStep(cfg, s, s', spurious)
    ensures Shape(cfg, s') && FlagsOk(cfg, s')
  {
    hide CStep, LockOk, CountOk, WakeOk, HaltOk, PartsOk, Barrier.Law, FlagOk;
    CFrame(cfg, s, s', spurious);
    forall t | 0 <= t < cfg.n
      ensures FlagOk(s'.c, s'.stage, t, s'.doWork[t], s'.finished[t], s'.stageIdx[t])
    {
      FlagStepC(cfg, s, s', spurious, t);
    }
  }

  lemma FlagStepC(cfg: Config, s: State, s': State, spurious: bool, t: nat)
    requires Shape(cfg, s) && Shape(cfg, s') && CoordOk(cfg, s) && CStep(cfg, s, s', spurious) && t < cfg.n
    requires FlagOk(s.c, s.stage, t, s.doWork[t], s.finished[t], s.stageIdx[t])
    ensures FlagOk(s'.c, s'.stage, t, s'.doWork[t], s'.finished[t], s'.stageIdx[t])
  {
    hide Barrier.MayLeave;
    assert s'.doWork == s.doWork || (s.c.CHalt? && s'.doWork == s.doWork[s.c.i := false]) || (s.c.CRelease? && s'.doWork == s.doWork[s.c.i := true]);
    assert s'.finished == s.finished || (s.c.CTerm? && s'.finished == s.finished[s.c.i := true]);
  }

  /** The mutex changes hands only through the coordinator. */
  lemma CLockMoves(cfg: Config, s: State, s': State, spurious: bool)
    requires Shape(cfg, s) && CStep(cfg, s, s', spurious) && (CHolds(s.c) <==> s.lock == By(cfg.n))
    ensures || (s'.lock == s.lock && CHolds(s'.c) == CHolds(s.c))
            || (s.lock == Free && s'.lock == By(cfg.n) && CHolds(s'.c))
            || (s.lock == By(cfg.n) && s'.lock == Free && !CHolds(s'.c))
  {
    hide Barrier.MayLeave, WakeAll;
  }

  lemma LockStepC(cfg: Config, s: State, s': State, spurious: bool)
    requires Inv(cfg, s) && CStep(cfg, s, s', spurious)
    ensures Shape(cfg, s') && LockOk(cfg, s')
  {
    hide FlagsOk, CountOk, WakeOk, PartsOk, HaltOk, Barrier.Law, Barrier.MayLeave, CoordOk, CStep, CHolds;
    CFrame(cfg, s, s', spurious);
    CLockMoves(cfg, s, s', spurious);
    forall u | 0 <= u < cfg.n
      ensures Holds(s'.parts[u].pc) == Holds(s.parts[u].pc)
    {
      assert s'.parts[u] == s.parts[u] || s'.parts[u] == Wake(s.parts[u]);
    }
  }

  /** When the coordinator refills the counter every party has completed the stage. */
  lemma AllCompleted(cfg: Config, s: State)
    requires Inv(cfg, s)
    requires s.c.CSetIdx? || s.c.CReset? || s.c.CTerm? || (s.c.CEnter2? && s.c.last) || (s.c.CInside2? && s.c.last) || s.c.CDone?
    ensures forall u :: 0 <= u <= cfg.n ==> s.done[u] == s.stage
  {
    hide LockOk, FlagsOk, CountOk, WakeOk, HaltOk, KindOk;
    forall t | 0 <= t < cfg.n
      ensures s.done[t] == s.stage
    {
      assert PartOk(cfg, t, s.parts[t], s.entered[t], s.left[t], s.done[t]);
      Near(cfg, s, t);
    }
  }

  /** The counter and completions under the coordinator's step. */
  lemma CCountEffect(cfg: Config, s: State, s': State, spurious: bool)
    requires Shape(cfg, s) && CStep(cfg, s, s', spurious)
    ensures Shape(cfg, s')
    ensures s'.unfinished == if s.c.CHeld? then Dec(s.unfinished) else if s.c.CReset? then cfg.n + 1 else s.unfinished
    ensures s'.done == if s.c.CHeld? then s.done[cfg.n := s.done[cfg.n] + 1] else s.done
    ensures s'.gen == if s.c.CReset? then s.stage else s.gen
  {
    hide Barrier.MayLeave, WakeAll, Dec;
  }

  lemma CountStepC(cfg: Config, s: State, s': State, spurious: bool)
    requires Inv(cfg, s) && CStep(cfg, s, s', spurious)
    ensures Shape(cfg, s') && CountOk(cfg, s')
  {
    hide LockOk, FlagsOk, WakeOk, PartsOk, HaltOk, Barrier.Law, CountOk, CStep;
    CCountEffect(cfg, s, s', spurious);
    if s.c.CHeld? {
      CounterSmall(cfg, s);
      PendingHere(cfg, s, cfg.n);
      assert Dec(s.unfinished) == s.unfinished - 1;
      CountAfter(cfg, s, s', cfg.n);
    } else if s.c.CReset? {
      AllCompleted(cfg, s);
      FullMeansAll(s.done, s.stage);
      Refilled(cfg, s');
    } else {
      CountSame(cfg, s, s');
    }
  }

  lemma HaltStepC(cfg: Config, s: State, s': State, spurious: bool)
    requires Shape(cfg, s) && HaltOk(s) && CStep(cfg, s, s', spurious)
    ensures HaltOk(s')
  {
    hide Barrier.MayLeave, WakeAll, Dec;
  }

  lemma Refilled(cfg: Config, s: State)
    requires Shape(cfg, s) && s.unfinished == Pending(s) && forall u :: 0 <= u <= cfg.n ==> s.done[u] == s.gen
    ensures CountOk(cfg, s)
  {
  }

  lemma PendingHere(cfg: Config, s: State, u: nat)
    requires Shape(cfg, s) && CountOk(cfg, s) && u <= cfg.n && s.done[u] == s.gen
    ensures s.unfinished > 0
  {
    assert s.done[u] in multiset(s.done);
  }

  lemma WakeStepC(cfg: Config, s: State, s': State, spurious: bool)
    requires Inv(cfg, s) && CStep(cfg, s, s', spurious)
    ensures Shape(cfg, s') && WakeOk(s')
  {
    hide LockOk, FlagsOk, PartsOk, Barrier.Law, Barrier.MayLeave, CountOk, CoordOk;
    CFrame(cfg, s, s', spurious);
    if s'.unfinished == 0 && !Signalling(s') && !s.c.CSignal? {
      assert s'.parts == s.parts;
    }
  }

  lemma CStepInv(cfg: Config, s: State, s': State, spurious: bool)
    requires Inv(cfg, s) && CStep(cfg, s, s', spurious)
    ensures Inv(cfg, s')
  {
    hide CStep, LockOk, Barrier.Law, CoordOk, FlagsOk, PartsOk, CountOk, HaltOk, WakeOk;
    LawStepC(cfg, s, s', spurious);
    PartsStepC(cfg, s, s', spurious);
    CoordStepC(cfg, s, s', spurious);
    FlagsStepC(cfg, s, s', spurious);
    LockStepC(cfg, s, s', spurious);
    CountStepC(cfg, s, s', spurious);
    HaltStepC(cfg, s, s', spurious);
    WakeStepC(cfg, s, s', spurious);
  }

  // ----- main results -----

  /** A finite run, with spurious wakeups allowed. */
  ghost predicate IsRun(cfg: Config, rs: seq<State>) {
    && |rs| > 0 && Init(cfg, rs[0])
    && (forall k :: 0 <= k < |rs| ==> Shape(cfg, rs[k]))
    && (forall k :: 0 <= k < |rs| - 1 ==> Next(cfg, rs[k], rs[k + 1], true))
  }

  lemma NextInv(cfg: Config, s: State, s': State, spurious: bool)
    requires Inv(cfg, s) && Next(cfg, s, s', spurious)
    ensures Inv(cfg, s')
  {
    assert Shape(cfg, s);
    hide Inv, CStep, PStep;
    if CStep(cfg, s, s', spurious) {
      CStepInv(cfg, s, s', spurious);
    } else {
      var t :| 0 <= t < cfg.n && PStep(cfg, s, s', t);
      PStepInv(cfg, s, s', t);
    }
  }

  lemma {:induction false} RunInv(cfg: Config, rs: seq<State>, k: nat)
    requires IsRun(cfg, rs) && k < |rs|
    ensures Inv(cfg, rs[k])
  {
    hide Inv, Next, Init;
    if k == 0 {
      InitInv(cfg, rs[0]);
    } else {
      RunInv(cfg, rs, k - 1);
      assert Next(cfg, rs[k - 1], rs[k - 1 + 1], true);
      NextInv(cfg, rs[k - 1], rs[k], true);
    }
  }

  /** Between the two barrier waits, or inside one of them. */
  predicate Parked(pc: Pc) {
    pc.Inside1? || pc.Enter2? || pc.Inside2?
  }

  predicate AtWorkPc(pc: Pc) {
    !Parked(pc) && !pc.Done? && !pc.Top?
  }

  /** The counter never wraps: it counts the parties that have not completed the
      stage, and every party completes each stage exactly once. */
  lemma CounterExact(cfg: Config, rs: seq<State>, k: nat)
    requires IsRun(cfg, rs) && k < |rs|
    ensures var s := rs[k];
            && s.unfinished == multiset(s.done)[s.gen] <= cfg.n + 1
            && (forall u :: 0 <= u <= cfg.n ==> s.gen <= s.done[u] <= s.gen + 1)
            && (forall t :: 0 <= t < cfg.n && Parked(s.parts[t].pc) ==> s.done[t] == s.parts[t].stage + 1)
            && (forall t :: 0 <= t < cfg.n && AtWorkPc(s.parts[t].pc) ==>
                  s.done[t] == s.parts[t].stage + (if Completed(s.parts[t].pc) then 1 else 0))
  {
    hide KindOk, LockOk, FlagsOk, WakeOk, Barrier.Law, CoordOk, IsRun;
    RunInv(cfg, rs, k);
    CounterSmall(cfg, rs[k]);
    forall t | 0 <= t < cfg.n
      ensures PartOk(cfg, t, rs[k].parts[t], rs[k].entered[t], rs[k].left[t], rs[k].done[t])
    {
    }
  }

  /** The coordinator clears a do_work flag only once every party has completed the
      stage, and sets flags, stage indices and the counter for the next stage only
      while every participant is parked at the barrier. */
  lemma WritesOnlyWhenSafe(cfg: Config, rs: seq<State>, k: nat)
    requires IsRun(cfg, rs) && k + 1 < |rs|
    ensures var s, s' := rs[k], rs[k + 1];
            && (forall t :: 0 <= t < cfg.n && s.doWork[t] && !s'.doWork[t] ==> forall u :: 0 <= u <= cfg.n ==> s.done[u] == s.stage + 1)
            && (s'.stageIdx != s.stageIdx || s'.finished != s.finished || s'.unfinished > s.unfinished
                || (exists t :: 0 <= t < cfg.n && !s.doWork[t] && s'.doWork[t]) ==>
                  forall t :: 0 <= t < cfg.n ==> Parked(s.parts[t].pc))
  {
    var s, s' := rs[k], rs[k + 1];
    RunInv(cfg, rs, k);
    assert Next(cfg, s, s', true);
    hide Inv, IsRun;
    if CStep(cfg, s, s', true) {
      CoordWrites(cfg, s, s');
    } else {
      var t :| 0 <= t < cfg.n && PStep(cfg, s, s', t);
      hide PStep, CStep;
      PFrame(cfg, s, s', t);
      CounterFalls(cfg, s, s', t);
    }
  }

  lemma CounterFalls(cfg: Config, s: State, s': State, t: nat)
    requires Inv(cfg, s) && t < cfg.n && PStep(cfg, s, s', t)
    ensures s'.unfinished <= s.unfinished
  {
    hide PStep, Inv;
    CountStepP(cfg, s, s', t);
  }

  lemma CoordWrites(cfg: Config, s: State, s': State)
    requires Inv(cfg, s) && CStep(cfg, s, s', true)
    ensures Shape(cfg, s')
    ensures forall t :: 0 <= t < cfg.n && s.doWork[t] && !s'.doWork[t] ==> forall u :: 0 <= u <= cfg.n ==> s.done[u] == s.stage + 1
    ensures s'.stageIdx != s.stageIdx || s'.finished != s.finished || s'.unfinished > s.unfinished
            || (exists t :: 0 <= t < cfg.n && !s.doWork[t] && s'.doWork[t]) ==>
              forall t :: 0 <= t < cfg.n ==> Parked(s.parts[t].pc)
  {
    hide LockOk, FlagsOk, WakeOk, PartsOk, Barrier.Law, Barrier.MayLeave, CountOk;
    CFrame(cfg, s, s', true);
    if s.c.CHalt? {
      NoneLeft(cfg, s);
    } else if s.c.CSetIdx? || s.c.CTerm? || s.c.CReset? || s.c.CRelease? {
      AllParked(cfg, s);
    } else if s.c.CHeld? {
      PendingHere(cfg, s, cfg.n);
      CounterSmall(cfg, s);
      assert Dec(s.unfinished) == s.unfinished - 1;
    }
  }

  lemma NoneLeft(cfg: Config, s: State)
    requires Shape(cfg, s) && CountOk(cfg, s) && s.unfinished == 0
    ensures forall u :: 0 <= u <= cfg.n ==> s.done[u] == s.gen + 1
  {
    forall u | 0 <= u <= cfg.n
      ensures s.done[u] == s.gen + 1
    {
      if s.done[u] == s.gen {
        PendingHere(cfg, s, u);
      }
    }
  }

  /** While the coordinator prepares the next stage everyone else is at the barrier. */
  lemma AllParked(cfg: Config, s: State)
    requires Inv(cfg, s)
    requires s.c.CSetIdx? || s.c.CReset? || s.c.CRelease? || s.c.CTerm? || s.c.CEnter2?
    ensures forall t :: 0 <= t < cfg.n ==> Parked(s.parts[t].pc)
  {
    hide LockOk, FlagsOk, CountOk, WakeOk, HaltOk, KindOk;
    forall t | 0 <= t < cfg.n
      ensures Parked(s.parts[t].pc)
    {
      assert PartOk(cfg, t, s.parts[t], s.entered[t], s.left[t], s.done[t]);
      Near(cfg, s, t);
    }
  }

  /** No two threads work in different stages, and all agree with the coordinator. */
  lemma SameStage(cfg: Config, rs: seq<State>, k: nat, t: nat)
    requires IsRun(cfg, rs) && k < |rs| && t < cfg.n && AtWorkPc(rs[k].parts[t].pc)
    ensures rs[k].parts[t].stage == rs[k].stage
  {
    hide LockOk, FlagsOk, CountOk, WakeOk, HaltOk, KindOk, IsRun;
    RunInv(cfg, rs, k);
    AtWork(cfg, rs[k], t);
    assert PartOk(cfg, t, rs[k].parts[t], rs[k].entered[t], rs[k].left[t], rs[k].done[t]);
  }

  /** A worker with batches to do keeps its do_work flag until it has issued every
      one of them: it completes the stage only then. */
  lemma BatchesAllIssued(cfg: Config, rs: seq<State>, k: nat, t: nat)
    requires IsRun(cfg, rs) && k < |rs| && t < cfg.n && !IsLogger(cfg, t)
    requires var p := rs[k].parts[t];
             (AtWorkPc(p.pc) || Parked(p.pc)) && p.stage < |cfg.plans| && cfg.plans[p.stage][t].Linear?
    ensures var p := rs[k].parts[t]; var batches := cfg.plans[p.stage][t].batches;
            && p.issued <= batches
            && (p.issued < batches ==> rs[k].doWork[t] && !Completed(p.pc) && !Parked(p.pc))
  {
    hide LockOk, FlagsOk, CountOk, WakeOk, HaltOk, IsRun, CoordOk, Barrier.Law;
    RunInv(cfg, rs, k);
    var s := rs[k];
    assert PartOk(cfg, t, s.parts[t], s.entered[t], s.left[t], s.done[t]);
    if s.parts[t].issued < cfg.plans[s.parts[t].stage][t].batches {
      ToldToWork(cfg, s, t);
    }
  }
}

/** The stage protocol: transaction workers, the output thread and the
    coordinator move through the stages together, using one mutex, one condition
    variable, a counter of unfinished threads, per-thread flags and a barrier
    waited on twice per stage. Every statement that touches shared state is one
    step; threads interleave arbitrarily. */
module Stages {
  import opened Bits
  import Barrier

  /** What a worker does in a stage: a fixed number of batches, or transactions
      until told to stop. A thread left idle by an async stage has no batches. */
  datatype Plan = Linear(batches: nat) | Serve

  /** n participants (the last one is the output thread), and a plan per stage
      and worker. */
  datatype Setup = Setup(n: nat, plans: seq<seq<Plan>>)

  type Config = cfg: Setup |
    && cfg.n >= 1 && cfg.n + 1 < TWO_32 && |cfg.plans| >= 1
    && (forall k :: 0 <= k < |cfg.plans| ==> |cfg.plans[k]| == cfg.n - 1)
    ghost witness Setup(1, [[]])

  predicate IsLogger(cfg: Config, t: nat) {
    t + 1 == cfg.n
  }

  datatype After = ToCheck | ToServe | ToSleep      // where completing a stage leads
  datatype Resume = InWork | InServe | InLog        // where a sleep returns to

  datatype Pc =
    | Top                                  // loop head: finished? which stage?
    | Work                                 // batch loop head
    | Serving                              // transaction loop head
    | Lock(a: After)                       // complete(): wants the mutex
    | Held(a: After)                       //   holds it, about to decrement
    | Signal(a: After)                     //   decremented to zero, about to broadcast
    | Unlock(a: After)
    | SLock(r: Resume)                     // sleep(): wants the mutex
    | SHeld(r: Resume)                     //   holds it, about to test
    | SWait(r: Resume)                     //   waits on the condition variable
    | SWoken(r: Resume)                    //   woken, wants the mutex back
    | SUnlock(r: Resume, interrupted: bool)
    | Logged(interrupted: bool)            // output thread: report, then decide
    | Check                                // finished?
    | Enter1 | Inside1 | Enter2 | Inside2  // the two barrier waits
    | Done

  datatype CPc =
    | CSleep                               // minimum stage duration
    | CLock | CHeld | CSignal              // decrement under the mutex
    | CLoop(rem: nat)                      // holds the mutex, tests the remainder
    | CWait | CWoken
    | CUnlock
    | CHalt(i: nat)                        // clear do_work of thread i next
    | CEnter1 | CInside1
    | CSetIdx(i: nat)                      // set stage_idx of thread i next
    | CReset                               // refill the counter
    | CRelease(i: nat)                     // set do_work of thread i next
    | CTerm(i: nat)                        // set finished of thread i next
    | CEnter2(last: bool) | CInside2(last: bool)
    | CDone

  datatype Part = Part(pc: Pc, stage: nat, issued: nat)

  datatype Owner = Free | By(t: nat)

  /** Participants are 0..n-1 and the coordinator is party n. The last four
      fields are history: waits entered and left, completions made, and the
      stage that the counter currently counts. */
  datatype State = State(
    parts: seq<Part>, c: CPc, stage: nat,
    unfinished: nat, lock: Owner,
    doWork: seq<bool>, finished: seq<bool>, stageIdx: seq<nat>,
    entered: seq<nat>, left: seq<nat>, done: seq<nat>, gen: nat)

  ghost predicate Shape(cfg: Config, s: State) {
    && |s.parts| == |s.doWork| == |s.finished| == |s.stageIdx| == cfg.n
    && |s.entered| == |s.left| == |s.done| == cfg.n + 1
  }

  ghost predicate Init(cfg: Config, s: State) {
    && Shape(cfg, s)
    && (forall t :: 0 <= t < cfg.n ==> s.parts[t] == Part(Top, 0, 0) && s.doWork[t] && !s.finished[t] && s.stageIdx[t] == 0)
    && (forall u :: 0 <= u <= cfg.n ==> s.entered[u] == 0 && s.left[u] == 0 && s.done[u] == 0)
    && s.c == CSleep && s.stage == 0 && s.unfinished == cfg.n + 1 && s.lock == Free && s.gen == 0
  }

  ghost predicate Final(cfg: Config, s: State)
    requires Shape(cfg, s)
  {
    s.c == CDone && forall t :: 0 <= t < cfg.n ==> s.parts[t].pc == Done
  }

  /** 32-bit decrement. */
  function Dec(x: nat): nat {
    (x + (TWO_32 - 1)) % TWO_32
  }

  function Wake(p: Part): Part {
    if p.pc.SWait? then p.(pc := SWoken(p.pc.r)) else p
  }

  function WakeAll(parts: seq<Part>): (r: seq<Part>)
    ensures |r| == |parts| && forall t :: 0 <= t < |parts| ==> r[t] == Wake(parts[t])
  {
    seq(|parts|, t requires 0 <= t < |parts| => Wake(parts[t]))
  }

  function CWake(c: CPc): CPc {
    if c == CWait then CWoken else c
  }

  // ----- steps of a participant -----

  /** Only thread t's own position changes. */
  function Goto(s: State, t: nat, pc: Pc): State
    requires t < |s.parts|
  {
    s.(parts := s.parts[t := s.parts[t].(pc := pc)])
  }

  /** Where a thread goes on after completing a stage. */
  function AfterPc(a: After): Pc {
    match a case ToCheck => Check case ToServe => Serving case ToSleep => SLock(InLog)
  }

  /** Where a thread goes on after a sleep. */
  function ResumePc(r: Resume, interrupted: bool): Pc {
    match r case InWork => Work case InServe => Serving case InLog => Logged(interrupted)
  }

  ghost predicate PStep(cfg: Config, s: State, s': State, t: nat)
    requires Shape(cfg, s) && t < cfg.n
  {
    var p := s.parts[t];
    match p.pc
    case Top =>
      if s.finished[t] then s' == Goto(s, t, Done)
      else
        var k := s.stageIdx[t];
        var p' := Part(if IsLogger(cfg, t) then Lock(ToSleep)
                       else if k < |cfg.plans| && cfg.plans[k][t].Linear? then Work
                       else Lock(ToServe), k, 0);
        s' == s.(parts := s.parts[t := p'])
    case Work =>
      if s.doWork[t] && !IsLogger(cfg, t) && p.stage < |cfg.plans| && cfg.plans[p.stage][t].Linear? && p.issued < cfg.plans[p.stage][t].batches then
        || s' == s.(parts := s.parts[t := p.(issued := p.issued + 1)])
        || s' == s.(parts := s.parts[t := p.(issued := p.issued + 1, pc := SLock(InWork))])
      else s' == Goto(s, t, Lock(ToCheck))
    case Serving =>
      if s.doWork[t] then s' == s || s' == Goto(s, t, SLock(InServe))
      else s' == Goto(s, t, Check)
    case Lock(a) => s.lock == Free && s' == Goto(s, t, Held(a)).(lock := By(t))
    case Held(a) =>
      s' == Goto(s, t, if Dec(s.unfinished) == 0 then Signal(a) else Unlock(a))
              .(unfinished := Dec(s.unfinished), done := s.done[t := s.done[t] + 1])
    case Signal(a) =>
      s' == s.(parts := WakeAll(s.parts)[t := p.(pc := Unlock(a))], c := CWake(s.c))
    case Unlock(a) =>
      s' == Goto(s, t, AfterPc(a)).(lock := Free)
    case SLock(r) => s.lock == Free && s' == Goto(s, t, SHeld(r)).(lock := By(t))
    case SHeld(r) =>
      if s.unfinished == 0 then s' == Goto(s, t, SUnlock(r, true))
      else
        || s' == Goto(s, t, SUnlock(r, false))          // the time has passed
        || s' == Goto(s, t, SWait(r)).(lock := Free)
    case SWait(r) => s' == Goto(s, t, SWoken(r))         // timeout or spurious wakeup
    case SWoken(r) => s.lock == Free && s' == Goto(s, t, SHeld(r)).(lock := By(t))
    case SUnlock(r, interrupted) =>
      s' == Goto(s, t, ResumePc(r, interrupted)).(lock := Free)
    case Logged(interrupted) =>
      if s.finished[t] then s' == Goto(s, t, Done)
      else s' == Goto(s, t, if interrupted then Enter1 else SLock(InLog))
    case Check => s' == Goto(s, t, if s.finished[t] then Done else Enter1)
    case Enter1 => s' == Goto(s, t, Inside1).(entered := s.entered[t := s.entered[t] + 1])
    case Inside1 => Barrier.MayLeave(s.entered, t) && s' == Goto(s, t, Enter2).(left := s.left[t := s.entered[t]])
    case Enter2 => s' == Goto(s, t, Inside2).(entered := s.entered[t := s.entered[t] + 1])
    case Inside2 => Barrier.MayLeave(s.entered, t) && s' == Goto(s, t, Top).(left := s.left[t := s.entered[t]])
    case Done => false
  }

  // ----- steps of the coordinator -----

  /** `spurious` admits wakeups nobody signalled. */
  ghost predicate CStep(cfg: Config, s: State, s': State, spurious: bool)
    requires Shape(cfg, s)
  {
    var n := cfg.n;
    match s.c
    case CSleep => s' == s.(c := CLock)
    case CLock => s.lock == Free && s' == s.(c := CHeld, lock := By(n))
    case CHeld =>
      var rem := Dec(s.unfinished);
      s' == s.(unfinished := rem, done := s.done[n := s.done[n] + 1], c := if rem == 0 then CSignal else CLoop(rem))
    case CSignal => s' == s.(parts := WakeAll(s.parts), c := CUnlock)
    case CLoop(rem) =>
      if rem == 0 then s' == s.(c := CUnlock) else s' == s.(c := CWait, lock := Free)
    case CWait => spurious && s' == s.(c := CWoken)
    case CWoken => s.lock == Free && s' == s.(c := CLoop(s.unfinished), lock := By(n))
    case CUnlock => s' == s.(c := CHalt(0), lock := Free)
    case CHalt(i) =>
      if i < n then s' == s.(c := CHalt(i + 1), doWork := s.doWork[i := false])
      else s' == s.(c := CEnter1)
    case CEnter1 => s' == s.(c := CInside1, entered := s.entered[n := s.entered[n] + 1])
    case CInside1 =>
      && Barrier.MayLeave(s.entered, n)
      && s' == s.(left := s.left[n := s.entered[n]], stage := s.stage + 1, c := if s.stage + 1 == |cfg.plans| then CTerm(0) else CSetIdx(0))
    case CSetIdx(i) =>
      if i < n then s' == s.(c := CSetIdx(i + 1), stageIdx := s.stageIdx[i := s.stage])
      else s' == s.(c := CReset)
    case CReset => s' == s.(c := CRelease(0), unfinished := n + 1, gen := s.stage)
    case CRelease(i) =>
      if i < n then s' == s.(c := CRelease(i + 1), doWork := s.doWork[i := true])
      else s' == s.(c := CEnter2(false))
    case CTerm(i) =>
      if i < n then s' == s.(c := CTerm(i + 1), finished := s.finished[i := true])
      else s' == s.(c := CEnter2(true))
    case CEnter2(last) => s' == s.(c := CInside2(last), entered := s.entered[n := s.entered[n] + 1])
    case CInside2(last) =>
      Barrier.MayLeave(s.entered, n) && s' == s.(left := s.left[n := s.entered[n]], c := if last then CDone else CSleep)
    case CDone => false
  }

  ghost predicate Next(cfg: Config, s: State, s': State, spurious: bool)
    requires Shape(cfg, s)
  {
    CStep(cfg, s, s', spurious) || exists t :: 0 <= t < cfg.n && PStep(cfg, s, s', t)
  }
}

/** The stage protocol never gets stuck: from every reachable state there is a
    continuation, free of spurious wakeups, in which every thread finishes. */
module StageProgress {
  import opened Bits
  import opened Stages
  import opened StageSafety
  import Barrier

  // ----- a measure: barrier passages left, then work left before the next one -----

  function Batches(cfg: Config, stage: nat, t: nat): nat {
    if stage < |cfg.plans| && t < |cfg.plans[stage]| && cfg.plans[stage][t].Linear? then cfg.plans[stage][t].batches else 0
  }

  function Left(cfg: Config, t: nat, p: Part): nat {
    if p.issued <= Batches(cfg, p.stage, t) then Batches(cfg, p.stage, t) - p.issued else 0
  }

  function AfterRank(a: After): nat {
    match a case ToCheck => 1 case ToServe => 2 case ToSleep => 8
  }

  function ResumeRank(cfg: Config, t: nat, p: Part, r: Resume): nat {
    match r case InWork => 10 + Left(cfg, t, p) case InServe => 2 case InLog => 0
  }

  /** Steps a participant still has before its next barrier wait, on a shortest way. */
  function Rank(cfg: Config, t: nat, p: Part, e: nat, zero: bool): nat {
    match p.pc
    case Top => 30 + Batches(cfg, e / 2, t)
    case Work => 10 + Left(cfg, t, p)
    case Serving => 2
    case Lock(a) => AfterRank(a) + 4
    case Held(a) => AfterRank(a) + 3
    case Signal(a) => AfterRank(a) + 2
    case Unlock(a) => AfterRank(a) + 1
    case SLock(r) => if r == InLog then 8 else ResumeRank(cfg, t, p, r) + 5
    case SHeld(r) => if r == InLog then (if zero then 3 else 7) else ResumeRank(cfg, t, p, r) + 2
    case SWait(r) => if r == InLog then 6 else ResumeRank(cfg, t, p, r) + 4
    case SWoken(r) => if r == InLog then 5 else ResumeRank(cfg, t, p, r) + 3
    case SUnlock(r, i) => if r == InLog then (if i then 2 else 10) else ResumeRank(cfg, t, p, r) + 1
    case Logged(i) => if i then 1 else 9
    case Check => 1
    case _ => 0
  }

  function CRank(n: nat, c: CPc): nat {
    match c
    case CSleep => n + 20
    case CLock => n + 19
    case CHeld => n + 18
    case CSignal => n + 10
    case CLoop(rem) => if rem != 0 then n + 17 else n + 10
    case CWait => n + 16
    case CWoken => n + 15
    case CUnlock => n + 9
    case CHalt(i) => if i <= n then n - i + 1 else 0
    case CSetIdx(i) => if i <= n then 2 * n + 6 - i else 0
    case CReset => n + 5
    case CRelease(i) => if i <= n then n - i + 1 else 0
    case CTerm(i) => if i <= n then n - i + 1 else 0
    case _ => 0
  }

  function SumNat(xs: seq<nat>): nat {
    if xs == [] then 0 else SumNat(xs[..|xs| - 1]) + xs[|xs| - 1]
  }

  ghost function Ranks(cfg: Config, s: State): (r: seq<nat>)
    requires Shape(cfg, s)
    ensures |r| == cfg.n && forall t :: 0 <= t < cfg.n ==> r[t] == Rank(cfg, t, s.parts[t], s.entered[t], s.unfinished == 0)
  {
    seq(cfg.n, t requires 0 <= t < cfg.n => Rank(cfg, t, s.parts[t], s.entered[t], s.unfinished == 0))
  }

  ghost function WorkLeft(cfg: Config, s: State): nat
    requires Shape(cfg, s)
  {
    CRank(cfg.n, s.c) + SumNat(Ranks(cfg, s))
  }

  ghost function PassagesLeft(cfg: Config, s: State): int
    requires Shape(cfg, s)
  {
    4 * |cfg.plans| * (cfg.n + 1) - SumNat(s.entered) - SumNat(s.left)
  }

  ghost predicate Nearer(cfg: Config, s: State, s': State)
    requires Shape(cfg, s) && Shape(cfg, s')
  {
    || PassagesLeft(cfg, s') < PassagesLeft(cfg, s)
    || (PassagesLeft(cfg, s') == PassagesLeft(cfg, s) && WorkLeft(cfg, s') < WorkLeft(cfg, s))
  }

  lemma {:induction false} SumUpdate(xs: seq<nat>, i: nat, x: nat)
    requires i < |xs|
    ensures SumNat(xs[i := x]) + xs[i] == SumNat(xs) + x
  {
    var n := |xs| - 1;
    if i == n {
      assert xs[i := x][..n] == xs[..n];
    } else {
      assert xs[i := x][..n] == xs[..n][i := x];
      SumUpdate(xs[..n], i, x);
    }
  }

  lemma {:induction false} SumAtMost(xs: seq<nat>, ys: seq<nat>)
    requires |xs| == |ys| && forall i :: 0 <= i < |xs| ==> xs[i] <= ys[i]
    ensures SumNat(xs) <= SumNat(ys)
  {
    if xs != [] {
      SumAtMost(xs[..|xs| - 1], ys[..|ys| - 1]);
    }
  }

  lemma SumBelow(xs: seq<nat>, ys: seq<nat>, t: nat)
    requires |xs| == |ys| && t < |xs| && xs[t] < ys[t] && forall i :: 0 <= i < |xs| ==> xs[i] <= ys[i]
    ensures SumNat(xs) < SumNat(ys)
  {
    SumAtMost(xs, ys[t := xs[t]]);
    SumUpdate(ys, t, xs[t]);
  }

  lemma {:induction false} SumBounded(xs: seq<nat>, b: nat)
    requires forall i :: 0 <= i < |xs| ==> xs[i] <= b
    ensures SumNat(xs) <= b * |xs|
  {
    if xs != [] {
      SumBounded(xs[..|xs| - 1], b);
      MulSucc(|xs| - 1, b);
    }
  }

  /** No more waits are entered or left than two per stage and party. */
  lemma PassagesNonNegative(cfg: Config, s: State)
    requires Inv(cfg, s)
    ensures PassagesLeft(cfg, s) >= 0
  {
    hide KindOk, LockOk, FlagsOk, CountOk, WakeOk, HaltOk;
    var m := |cfg.plans|;
    forall u | 0 <= u <= cfg.n
      ensures s.entered[u] <= 2 * m && s.left[u] <= 2 * m
    {
      if u < cfg.n {
        assert PartOk(cfg, u, s.parts[u], s.entered[u], s.left[u], s.done[u]);
      }
    }
    SumBounded(s.entered, 2 * m);
    SumBounded(s.left, 2 * m);
    MulAssoc(2, 2 * m, cfg.n + 1);
  }

  // ----- who can move on -----

  ghost predicate Ready(cfg: Config, s: State, t: nat)
    requires Shape(cfg, s) && t < cfg.n
  {
    match s.parts[t].pc
    case Serving => !s.doWork[t]
    case Lock(_) => s.lock == Free
    case SLock(_) => s.lock == Free
    case SWait(r) => r != InLog
    case SWoken(r) => s.lock == Free && (r != InLog || s.unfinished == 0)
    case Inside1 => Barrier.MayLeave(s.entered, t)
    case Inside2 => Barrier.MayLeave(s.entered, t)
    case Done => false
    case _ => true
  }

  ghost predicate CReady(cfg: Config, s: State)
    requires Shape(cfg, s)
  {
    match s.c
    case CLock => s.lock == Free
    case CWait => false
    case CWoken => s.lock == Free && s.unfinished == 0
    case CInside1 => Barrier.MayLeave(s.entered, cfg.n)
    case CInside2(_) => Barrier.MayLeave(s.entered, cfg.n)
    case CDone => false
    case _ => true
  }

  ghost predicate SomeReady(cfg: Config, s: State)
    requires Shape(cfg, s)
  {
    CReady(cfg, s) || exists t :: 0 <= t < cfg.n && Ready(cfg, s, t)
  }

  /** Whoever holds the mutex can go on. */
  lemma HolderReady(cfg: Config, s: State)
    requires Shape(cfg, s) && LockOk(cfg, s) && s.lock.By?
    ensures SomeReady(cfg, s)
  {
    var u := s.lock.t;
    if u < cfg.n {
      assert Holds(s.parts[u].pc);
      assert Ready(cfg, s, u);
    }
  }

  /** A party inside the wait the coordinator has already left can leave it too. */
  lemma CanFollow(cfg: Config, s: State, t: nat)
    requires Shape(cfg, s) && Barrier.Law(s.entered, s.left) && t < cfg.n && s.entered[t] == s.left[cfg.n]
    ensures Barrier.MayLeave(s.entered, t)
  {
    assert Barrier.AllEntered(s.entered, s.left[cfg.n]);
  }

  /** While the coordinator waits for the counter, a party that has not completed can move. */
  lemma PendingReady(cfg: Config, s: State)
    requires Inv(cfg, s) && s.lock == Free && (s.c.CWait? || s.c.CWoken?)
    ensures SomeReady(cfg, s)
  {
    hide KindOk, FlagsOk, Barrier.Law, Barrier.MayLeave;
    if s.unfinished == 0 {
      NobodySignals(cfg, s);
    } else {
      assert s.gen in multiset(s.done);
      var t :| 0 <= t < |s.done| && s.done[t] == s.gen;
      assert PartOk(cfg, t, s.parts[t], s.entered[t], s.left[t], s.done[t]);
      Near(cfg, s, t);
      if s.parts[t].pc.Inside2? {
        CanFollow(cfg, s, t);
      }
      assert Ready(cfg, s, t);
    }
  }

  /** With the mutex free and the counter at zero nobody waits on the condition. */
  lemma NobodySignals(cfg: Config, s: State)
    requires Shape(cfg, s) && LockOk(cfg, s) && WakeOk(s) && s.lock == Free && s.unfinished == 0
    ensures s.c != CWait && forall t :: 0 <= t < cfg.n ==> !s.parts[t].pc.SWait?
  {
  }

  lemma FirstWaitReady(cfg: Config, s: State)
    requires Inv(cfg, s) && s.lock == Free && s.c.CInside1?
    ensures SomeReady(cfg, s)
  {
    hide KindOk, Barrier.Law;
    if !Barrier.MayLeave(s.entered, cfg.n) {
      var t :| 0 <= t <= cfg.n && s.entered[t] < s.entered[cfg.n];
      assert PartOk(cfg, t, s.parts[t], s.entered[t], s.left[t], s.done[t]);
      Near(cfg, s, t);
      NobodySignals(cfg, s);
      NoneLeft(cfg, s);
      assert FlagOk(s.c, s.stage, t, s.doWork[t], s.finished[t], s.stageIdx[t]);
      if s.parts[t].pc.Inside2? {
        CanFollow(cfg, s, t);
      }
      assert Ready(cfg, s, t);
    }
  }

  lemma SecondWaitReady(cfg: Config, s: State)
    requires Inv(cfg, s) && s.c.CInside2?
    ensures SomeReady(cfg, s)
  {
    hide KindOk, Barrier.Law, FlagsOk, LockOk, CountOk, HaltOk, WakeOk;
    if !Barrier.MayLeave(s.entered, cfg.n) {
      var t :| 0 <= t <= cfg.n && s.entered[t] < s.entered[cfg.n];
      assert PartOk(cfg, t, s.parts[t], s.entered[t], s.left[t], s.done[t]);
      Near(cfg, s, t);
      if s.parts[t].pc.Inside1? {
        CanFollow(cfg, s, t);
      }
      assert Ready(cfg, s, t);
    }
  }

  lemma EndReady(cfg: Config, s: State)
    requires Inv(cfg, s) && s.c.CDone? && !Final(cfg, s)
    ensures SomeReady(cfg, s)
  {
    hide KindOk, Barrier.Law, FlagsOk, LockOk, CountOk, HaltOk, WakeOk;
    var t :| 0 <= t < cfg.n && s.parts[t].pc != Done;
    assert PartOk(cfg, t, s.parts[t], s.entered[t], s.left[t], s.done[t]);
    Near(cfg, s, t);
    if s.parts[t].pc.Inside2? {
      CanFollow(cfg, s, t);
    }
    assert Ready(cfg, s, t);
  }

  /** In every reachable state short of the end some party can move on without any
      spurious wakeup. */
  lemma SomeoneReady(cfg: Config, s: State)
    requires Inv(cfg, s) && !Final(cfg, s)
    ensures SomeReady(cfg, s)
  {
    if s.lock.By? {
      HolderReady(cfg, s);
    } else if s.c.CWait? || s.c.CWoken? {
      PendingReady(cfg, s);
    } else if s.c.CInside1? {
      FirstWaitReady(cfg, s);
    } else if s.c.CInside2? {
      SecondWaitReady(cfg, s);
    } else if s.c.CDone? {
      EndReady(cfg, s);
    }
  }

  // ----- a ready party has a step that brings the end nearer -----

  predicate AtBarrier(pc: Pc) {
    pc.Enter1? || pc.Inside1? || pc.Enter2? || pc.Inside2?
  }

  lemma BarrierStep(cfg: Config, s: State, t: nat) returns (s': State)
    requires Inv(cfg, s) && t < cfg.n && Ready(cfg, s, t) && AtBarrier(s.parts[t].pc)
    ensures Shape(cfg, s') && PStep(cfg, s, s', t) && Nearer(cfg, s, s')
  {
    hide KindOk, FlagsOk, LockOk, CountOk, HaltOk, WakeOk, CoordOk, PartsOk, Barrier.Law, WorkLeft, SumNat;
    PartAt(cfg, s, t);
    SumUpdate(s.entered, t, s.entered[t] + 1);
    SumUpdate(s.left, t, s.entered[t]);
    match s.parts[t].pc {
      case Enter1 => s' := Goto(s, t, Inside1).(entered := s.entered[t := s.entered[t] + 1]);
      case Inside1 => s' := Goto(s, t, Enter2).(left := s.left[t := s.entered[t]]);
      case Enter2 => s' := Goto(s, t, Inside2).(entered := s.entered[t := s.entered[t] + 1]);
      case Inside2 => s' := Goto(s, t, Top).(left := s.left[t := s.entered[t]]);
    }
  }

  /** Away from the barrier: a step that lowers the party's own rank. */
  lemma RankStep(cfg: Config, s: State, t: nat) returns (s': State)
    requires Inv(cfg, s) && t < cfg.n && Ready(cfg, s, t) && !AtBarrier(s.parts[t].pc)
    ensures Shape(cfg, s') && PStep(cfg, s, s', t) && s'.entered == s.entered && s'.left == s.left
    ensures Rank(cfg, t, s'.parts[t], s.entered[t], s'.unfinished == 0) < Rank(cfg, t, s.parts[t], s.entered[t], s.unfinished == 0)
  {
    var pc := s.parts[t].pc;
    assert PartOk(cfg, t, s.parts[t], s.entered[t], s.left[t], s.done[t]);
    hide Rank, PStep;
    if pc.Top? {
      s' := TopStep(cfg, s, t);
    } else if pc.Work? {
      s' := WorkStep(cfg, s, t);
    } else if pc.Lock? || pc.Held? || pc.Signal? || pc.Unlock? {
      s' := CompleteStep(cfg, s, t);
    } else if pc.Serving? || pc.Logged? || pc.Check? {
      s' := FlagStep(cfg, s, t);
    } else {
      s' := SleepStep(cfg, s, t);
    }
  }

  lemma CompleteStep(cfg: Config, s: State, t: nat) returns (s': State)
    requires Shape(cfg, s) && t < cfg.n && Ready(cfg, s, t) && (var pc := s.parts[t].pc; pc.Lock? || pc.Held? || pc.Signal? || pc.Unlock?)
    ensures Shape(cfg, s') && PStep(cfg, s, s', t) && s'.entered == s.entered && s'.left == s.left
    ensures Rank(cfg, t, s'.parts[t], s.entered[t], s'.unfinished == 0) < Rank(cfg, t, s.parts[t], s.entered[t], s.unfinished == 0)
  {
    match s.parts[t].pc {
      case Lock(a) => s' := Goto(s, t, Held(a)).(lock := By(t));
      case Held(a) =>
        s' := Goto(s, t, if Dec(s.unfinished) == 0 then Signal(a) else Unlock(a))
                .(unfinished := Dec(s.unfinished), done := s.done[t := s.done[t] + 1]);
      case Signal(a) =>
        s' := s.(parts := WakeAll(s.parts)[t := s.parts[t].(pc := Unlock(a))], c := CWake(s.c));
      case Unlock(a) => s' := Goto(s, t, AfterPc(a)).(lock := Free);
    }
  }

  lemma FlagStep(cfg: Config, s: State, t: nat) returns (s': State)
    requires Shape(cfg, s) && t < cfg.n && Ready(cfg, s, t) && (var pc := s.parts[t].pc; pc.Serving? || pc.Logged? || pc.Check?)
    ensures Shape(cfg, s') && PStep(cfg, s, s', t) && s'.entered == s.entered && s'.left == s.left
    ensures Rank(cfg, t, s'.parts[t], s.entered[t], s'.unfinished == 0) < Rank(cfg, t, s.parts[t], s.entered[t], s.unfinished == 0)
  {
    match s.parts[t].pc {
      case Serving => s' := Goto(s, t, Check);
      case Logged(i) => s' := Goto(s, t, if s.finished[t] then Done else if i then Enter1 else SLock(InLog));
      case Check => s' := Goto(s, t, if s.finished[t] then Done else Enter1);
    }
  }

  lemma SleepStep(cfg: Config, s: State, t: nat) returns (s': State)
    requires Shape(cfg, s) && t < cfg.n && Ready(cfg, s, t) && (var pc := s.parts[t].pc; pc.SLock? || pc.SHeld? || pc.SWait? || pc.SWoken? || pc.SUnlock?)
    ensures Shape(cfg, s') && PStep(cfg, s, s', t) && s'.entered == s.entered && s'.left == s.left
    ensures Rank(cfg, t, s'.parts[t], s.entered[t], s'.unfinished == 0) < Rank(cfg, t, s.parts[t], s.entered[t], s.unfinished == 0)
  {
    match s.parts[t].pc {
      case SLock(r) => s' := Goto(s, t, SHeld(r)).(lock := By(t));
      case SHeld(r) =>
        if s.unfinished == 0 {
          s' := Goto(s, t, SUnlock(r, true));
        } else if r == InLog {
          s' := Goto(s, t, SWait(r)).(lock := Free);
        } else {
          s' := Goto(s, t, SUnlock(r, false));
        }
      case SWait(r) => s' := Goto(s, t, SWoken(r));
      case SWoken(r) => s' := Goto(s, t, SHeld(r)).(lock := By(t));
      case SUnlock(r, i) => s' := Goto(s, t, ResumePc(r, i)).(lock := Free);
    }
  }

  lemma TopStep(cfg: Config, s: State, t: nat) returns (s': State)
    requires Inv(cfg, s) && t < cfg.n && s.parts[t].pc.Top?
    ensures Shape(cfg, s') && PStep(cfg, s, s', t) && s'.entered == s.entered && s'.left == s.left
    ensures Rank(cfg, t, s'.parts[t], s.entered[t], s'.unfinished == 0) < Rank(cfg, t, s.parts[t], s.entered[t], s.unfinished == 0)
  {
    hide LockOk, CountOk, HaltOk, WakeOk, KindOk;
    if s.finished[t] {
      s' := Goto(s, t, Done);
    } else {
      var k := s.stageIdx[t];
      s' := s.(parts := s.parts[t := Part(if IsLogger(cfg, t) then Lock(ToSleep)
                                          else if k < |cfg.plans| && cfg.plans[k][t].Linear? then Work
                                          else Lock(ToServe), k, 0)]);
      AtWork(cfg, s, t);
      assert FlagOk(s.c, s.stage, t, s.doWork[t], s.finished[t], k);
      assert k == s.entered[t] / 2;
    }
  }

  lemma WorkStep(cfg: Config, s: State, t: nat) returns (s': State)
    requires Inv(cfg, s) && t < cfg.n && s.parts[t].pc.Work?
    ensures Shape(cfg, s') && PStep(cfg, s, s', t) && s'.entered == s.entered && s'.left == s.left
    ensures Rank(cfg, t, s'.parts[t], s.entered[t], s'.unfinished == 0) < Rank(cfg, t, s.parts[t], s.entered[t], s.unfinished == 0)
  {
    hide LockOk, CountOk, HaltOk, WakeOk, FlagsOk, CoordOk, Barrier.Law;
    var p := s.parts[t];
    assert PartOk(cfg, t, p, s.entered[t], s.left[t], s.done[t]);
    if s.doWork[t] && p.issued < cfg.plans[p.stage][t].batches {
      s' := s.(parts := s.parts[t := p.(issued := p.issued + 1)]);
    } else {
      s' := Goto(s, t, Lock(ToCheck));
    }
  }

  /** A lower own rank is a lower total: nobody else's rank rises. */
  lemma RankStepNearer(cfg: Config, s: State, s': State, t: nat)
    requires Inv(cfg, s) && t < cfg.n && Shape(cfg, s') && PStep(cfg, s, s', t)
    requires s'.entered == s.entered && s'.left == s.left
    requires Rank(cfg, t, s'.parts[t], s.entered[t], s'.unfinished == 0) < Rank(cfg, t, s.parts[t], s.entered[t], s.unfinished == 0)
    ensures Nearer(cfg, s, s')
  {
    hide PStep, Inv, Rank, Wake, CRank, SumNat, PassagesLeft;
    ShapeOf(cfg, s);
    CounterFalls(cfg, s, s', t);
    PFrame(cfg, s, s', t);
    SamePassages(cfg, s, s');
    CWakeLowers(cfg.n, s.c);
    forall u | 0 <= u < cfg.n
      ensures Ranks(cfg, s')[u] <= Ranks(cfg, s)[u]
    {
      if u != t {
        assert s'.parts[u] == s.parts[u] || s'.parts[u] == Wake(s.parts[u]);
        WakeLowers(cfg, u, s.parts[u], s.entered[u], s.unfinished == 0, s'.unfinished == 0);
      }
    }
    SumBelow(Ranks(cfg, s'), Ranks(cfg, s), t);
  }

  lemma ShapeOf(cfg: Config, s: State)
    requires Inv(cfg, s)
    ensures Shape(cfg, s)
  {
    hide PartsOk, FlagsOk, LockOk, CountOk, HaltOk, WakeOk, CoordOk, Barrier.Law;
  }

  lemma SamePassages(cfg: Config, s: State, s': State)
    requires Shape(cfg, s) && Shape(cfg, s') && s'.entered == s.entered && s'.left == s.left
    ensures PassagesLeft(cfg, s') == PassagesLeft(cfg, s)
  {
  }

  lemma CWakeLowers(n: nat, c: CPc)
    ensures CRank(n, CWake(c)) <= CRank(n, c)
  {
  }

  lemma WakeLowers(cfg: Config, t: nat, p: Part, e: nat, zero: bool, zero': bool)
    requires zero ==> zero'
    ensures Rank(cfg, t, p, e, zero') <= Rank(cfg, t, p, e, zero)
    ensures Rank(cfg, t, Wake(p), e, zero') <= Rank(cfg, t, p, e, zero)
  {
  }

  lemma CoordNearer(cfg: Config, s: State) returns (s': State)
    requires Inv(cfg, s) && CReady(cfg, s)
    ensures Shape(cfg, s') && CStep(cfg, s, s', false) && Nearer(cfg, s, s')
  {
    hide Inv, CStep, CReady, Nearer;
    if s.c.CEnter1? || s.c.CInside1? || s.c.CEnter2? || s.c.CInside2? {
      s' := CoordBarrierStep(cfg, s);
    } else {
      s' := CoordRankStep(cfg, s);
      CoordRankNearer(cfg, s, s');
    }
  }

  lemma CoordBarrierStep(cfg: Config, s: State) returns (s': State)
    requires Inv(cfg, s) && CReady(cfg, s) && (s.c.CEnter1? || s.c.CInside1? || s.c.CEnter2? || s.c.CInside2?)
    ensures Shape(cfg, s') && CStep(cfg, s, s', false) && Nearer(cfg, s, s')
  {
    hide PartsOk, FlagsOk, LockOk, CountOk, HaltOk, WakeOk, Barrier.Law, Barrier.MayLeave, WorkLeft;
    var n := cfg.n;
    SumUpdate(s.entered, n, s.entered[n] + 1);
    SumUpdate(s.left, n, s.entered[n]);
    match s.c {
      case CEnter1 => s' := s.(c := CInside1, entered := s.entered[n := s.entered[n] + 1]);
      case CInside1 =>
        s' := s.(left := s.left[n := s.entered[n]], stage := s.stage + 1,
                 c := if s.stage + 1 == |cfg.plans| then CTerm(0) else CSetIdx(0));
      case CEnter2(last) => s' := s.(c := CInside2(last), entered := s.entered[n := s.entered[n] + 1]);
      case CInside2(last) => s' := s.(left := s.left[n := s.entered[n]], c := if last then CDone else CSleep);
    }
  }

  lemma CoordRankStep(cfg: Config, s: State) returns (s': State)
    requires Inv(cfg, s) && CReady(cfg, s) && !(s.c.CEnter1? || s.c.CInside1? || s.c.CEnter2? || s.c.CInside2?)
    ensures Shape(cfg, s') && CStep(cfg, s, s', false) && s'.entered == s.entered && s'.left == s.left
    ensures CRank(cfg.n, s'.c) < CRank(cfg.n, s.c)
  {
    hide PartsOk, FlagsOk, LockOk, CountOk, HaltOk, WakeOk, Barrier.Law;
    var n := cfg.n;
    match s.c {
      case CSleep => s' := s.(c := CLock);
      case CLock => s' := s.(c := CHeld, lock := By(n));
      case CHeld =>
        var rem := Dec(s.unfinished);
        s' := s.(unfinished := rem, done := s.done[n := s.done[n] + 1], c := if rem == 0 then CSignal else CLoop(rem));
      case CSignal => s' := s.(parts := WakeAll(s.parts), c := CUnlock);
      case CLoop(rem) =>
        if rem == 0 {
          s' := s.(c := CUnlock);
        } else {
          s' := s.(c := CWait, lock := Free);
        }
      case CWoken => s' := s.(c := CLoop(s.unfinished), lock := By(n));
      case CUnlock => s' := s.(c := CHalt(0), lock := Free);
      case CHalt(i) =>
        if i < n {
          s' := s.(c := CHalt(i + 1), doWork := s.doWork[i := false]);
        } else {
          s' := s.(c := CEnter1);
        }
      case CSetIdx(i) =>
        if i < n {
          s' := s.(c := CSetIdx(i + 1), stageIdx := s.stageIdx[i := s.stage]);
        } else {
          s' := s.(c := CReset);
        }
      case CReset => s' := s.(c := CRelease(0), unfinished := n + 1, gen := s.stage);
      case CRelease(i) =>
        if i < n {
          s' := s.(c := CRelease(i + 1), doWork := s.doWork[i := true]);
        } else {
          s' := s.(c := CEnter2(false));
        }
      case CTerm(i) =>
        if i < n {
          s' := s.(c := CTerm(i + 1), finished := s.finished[i := true]);
        } else {
          s' := s.(c := CEnter2(true));
        }
    }
  }

  lemma CoordRankNearer(cfg: Config, s: State, s': State)
    requires Inv(cfg, s) && Shape(cfg, s') && CStep(cfg, s, s', false) && s'.entered == s.entered && s'.left == s.left
    requires CRank(cfg.n, s'.c) < CRank(cfg.n, s.c)
    ensures Nearer(cfg, s, s')
  {
    assert Shape(cfg, s);
    hide Inv, CStep, Rank, CRank;
    CFrame(cfg, s, s', false);
    CoordWrites(cfg, s, s') by { StepsMayBeSpurious(cfg, s, s'); }
    forall u | 0 <= u < cfg.n
      ensures Ranks(cfg, s')[u] <= Ranks(cfg, s)[u]
    {
      assert s'.parts[u] == s.parts[u] || s'.parts[u] == Wake(s.parts[u]);
      if s.unfinished == 0 && s'.unfinished != 0 {
        ParkedRank(cfg, u, s.parts[u], s.entered[u]);
      } else {
        WakeLowers(cfg, u, s.parts[u], s.entered[u], s.unfinished == 0, s'.unfinished == 0);
      }
    }
    SumAtMost(Ranks(cfg, s'), Ranks(cfg, s));
  }

  lemma StepsMayBeSpurious(cfg: Config, s: State, s': State)
    requires Shape(cfg, s) && CStep(cfg, s, s', false)
    ensures CStep(cfg, s, s', true)
  {
  }

  lemma ParkedRank(cfg: Config, t: nat, p: Part, e: nat)
    requires Parked(p.pc)
    ensures Wake(p) == p && forall z :: Rank(cfg, t, p, e, z) == 0
  {
  }

  // ----- main result -----

  ghost predicate IsPath(cfg: Config, path: seq<State>) {
    && |path| > 0
    && (forall k :: 0 <= k < |path| ==> Shape(cfg, path[k]))
    && (forall k :: 0 <= k < |path| - 1 ==> Next(cfg, path[k], path[k + 1], false))
  }

  lemma StepNearer(cfg: Config, s: State) returns (s': State)
    requires Inv(cfg, s) && !Final(cfg, s)
    ensures Inv(cfg, s') && Next(cfg, s, s', false) && Nearer(cfg, s, s')
  {
    assert Shape(cfg, s);
    SomeoneReady(cfg, s);
    hide Inv, CStep, PStep, CReady, Ready, Nearer;
    if CReady(cfg, s) {
      s' := CoordNearer(cfg, s);
    } else {
      var t :| 0 <= t < cfg.n && Ready(cfg, s, t);
      if AtBarrier(s.parts[t].pc) {
        s' := BarrierStep(cfg, s, t);
      } else {
        s' := RankStep(cfg, s, t);
        RankStepNearer(cfg, s, s', t);
      }
    }
    NextInv(cfg, s, s', false);
  }

  /** From every reachable state the run can be completed to the state where every
      thread has finished all stages. */
  lemma {:induction false} CanFinish(cfg: Config, s: State) returns (path: seq<State>)
    requires Inv(cfg, s)
    ensures IsPath(cfg, path) && path[0] == s && Final(cfg, path[|path| - 1])
    decreases PassagesLeft(cfg, s), WorkLeft(cfg, s)
  {
    hide Inv, Next, Final, PassagesLeft, WorkLeft;
    ShapeOf(cfg, s);
    if Final(cfg, s) {
      path := [s];
    } else {
      var s' := StepNearer(cfg, s);
      ShapeOf(cfg, s');
      PassagesNonNegative(cfg, s);
      PassagesNonNegative(cfg, s');
      var rest := CanFinish(cfg, s');
      path := [s] + rest;
      assert forall k :: 0 < k < |path| ==> path[k] == rest[k - 1];
    }
  }

  /** Every state of every run, whatever wakeups happened in it, can still finish. */
  lemma EveryRunCanFinish(cfg: Config, rs: seq<State>, k: nat) returns (path: seq<State>)
    requires IsRun(cfg, rs) && k < |rs|
    ensures IsPath(cfg, path) && path[0] == rs[k] && Final(cfg, path[|path| - 1])
  {
    hide Inv, IsPath, IsRun;
    RunInv(cfg, rs, k);
    path := CanFinish(cfg, rs[k]);
  }
}

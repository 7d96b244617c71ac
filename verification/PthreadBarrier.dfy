/** The hand-written barrier: an atomic arrival count, a 32-bit round number, a
    mutex and a condition variable. It implements the abstract barrier in every
    interleaving, re-entry and round wrap-around included. */
module PthreadBarrier {
  import opened Bits
  import opened Sequences
  import Barrier

  datatype Pc =
    | Out                  // not in a call
    | Arriving(r: nat)     // round read, about to count itself in
    | WantLock(r: nat)     // not last: wants the mutex
    | Test(r: nat)         // holds it, about to compare rounds
    | Waiting(r: nat)      // waits on the condition variable
    | Woken(r: nat)        // woken, wants the mutex back
    | Unlock               // saw a new round, about to release and return 0
    | ResetIn(r: nat)      // last: about to zero the count
    | NextRound(r: nat)    // about to publish the next round
    | BLock | Broadcast    // wants the mutex; holds it, about to broadcast
    | BUnlock              // about to release and return the serial code

  datatype Owner = Free | By(t: nat)

  /** The barrier's words; the last two fields are history: rounds completed and
      which thread got the serial code in each. */
  datatype Shared = Shared(arrived: nat, round: nat, lock: Owner, rounds: nat, serial: seq<nat>)

  /** Waits entered and left by each thread are history. */
  datatype State = State(threads: seq<Pc>, entered: seq<nat>, left: seq<nat>, b: Shared)

  /** The number of parties, as the initialiser admits it. */
  type Count = n: int | 1 <= n <= 0x7fff_ffff witness 1

  ghost predicate Shape(n: Count, s: State) {
    |s.threads| == |s.entered| == |s.left| == n
  }

  ghost predicate Init(n: Count, s: State) {
    && Shape(n, s)
    && (forall t :: 0 <= t < n ==> s.threads[t] == Out && s.entered[t] == 0 && s.left[t] == 0)
    && s.b == Shared(0, 0, Free, 0, [])
  }

  function Wake(pc: Pc): Pc {
    if pc.Waiting? then Woken(pc.r) else pc
  }

  /** Thread t's next action, on its position, its waits entered and left, and the
      barrier. */
  ghost predicate Acts(n: Count, t: nat, spurious: bool,
                       pc: Pc, e: nat, l: nat, b: Shared, pc': Pc, e': nat, l': nat, b': Shared)
  {
    && (if pc.Arriving? then e' == e + 1 else e' == e)
    && (if pc.Unlock? || pc.BUnlock? then l' == e else l' == l)
    && match pc
       case Out => pc' == Arriving(b.round) && b' == b
       case Arriving(r) =>
         var i := Wrap32(b.arrived + 1);
         pc' == (if i < n then WantLock(r) else ResetIn(r)) && b' == b.(arrived := i)
       case WantLock(r) => b.lock == Free && pc' == Test(r) && b' == b.(lock := By(t))
       case Test(r) =>
         if b.round == r then pc' == Waiting(r) && b' == b.(lock := Free) else pc' == Unlock && b' == b
       case Waiting(r) => spurious && pc' == Woken(r) && b' == b
       case Woken(r) => b.lock == Free && pc' == Test(r) && b' == b.(lock := By(t))
       case Unlock => pc' == Out && b' == b.(lock := Free)
       case ResetIn(r) => pc' == NextRound(r) && b' == b.(arrived := 0)
       case NextRound(r) =>
         pc' == BLock && b' == b.(round := Wrap32(r + 1), rounds := b.rounds + 1, serial := b.serial + [t])
       case BLock => b.lock == Free && pc' == Broadcast && b' == b.(lock := By(t))
       case Broadcast => pc' == BUnlock && b' == b
       case BUnlock => pc' == Out && b' == b.(lock := Free)
  }

  /** What thread t's action does to thread u. */
  ghost predicate Sees(n: Count, s: State, s': State, t: nat, u: nat)
    requires Shape(n, s) && Shape(n, s') && t < n && u < n
  {
    && s'.entered[u] == s.entered[u] && s'.left[u] == s.left[u]
    && s'.threads[u] == if s.threads[t].Broadcast? then Wake(s.threads[u]) else s.threads[u]
  }

  ghost predicate Step(n: Count, s: State, s': State, t: nat, spurious: bool) {
    && Shape(n, s) && Shape(n, s') && t < n
    && Acts(n, t, spurious, s.threads[t], s.entered[t], s.left[t], s.b, s'.threads[t], s'.entered[t], s'.left[t], s'.b)
    && (forall u: nat :: u < n && u != t ==> Sees(n, s, s', t, u))
  }

  ghost predicate Next(n: Count, s: State, s': State) {
    exists t: nat :: Step(n, s, s', t, true)
  }

  ghost predicate IsRun(n: Count, ss: seq<State>) {
    && |ss| > 0 && Init(n, ss[0])
    && (forall k :: 0 <= k < |ss| - 1 ==> Next(n, ss[k], ss[k + 1]))
  }

  // ----- invariant -----

  predicate Holds(pc: Pc) {
    pc.Test? || pc.Unlock? || pc.Broadcast? || pc.BUnlock?
  }

  predicate Last(pc: Pc) {
    pc.ResetIn? || pc.NextRound?
  }

  predicate Serial(pc: Pc) {
    pc.BLock? || pc.Broadcast? || pc.BUnlock?
  }

  predicate Follower(pc: Pc) {
    pc.WantLock? || pc.Test? || pc.Waiting? || pc.Woken?
  }

  /** Waits entered and left, and the round a thread remembers, from its position. */
  predicate ThreadOk(pc: Pc, e: nat, l: nat, rounds: nat) {
    match pc
    case Out => e == l == rounds
    case Arriving(r) => e == l == rounds && r == Wrap32(rounds)
    case Unlock => e == rounds == l + 1
    case ResetIn(r) => e == rounds + 1 == l + 1 && r == Wrap32(rounds)
    case NextRound(r) => e == rounds + 1 == l + 1 && r == Wrap32(rounds)
    case BLock => e == rounds == l + 1
    case Broadcast => e == rounds == l + 1
    case BUnlock => e == rounds == l + 1
    case _ => e == l + 1 && rounds <= e <= rounds + 1 && pc.r == Wrap32(e - 1)
  }

  ghost predicate ThreadsOk(n: Count, s: State)
    requires Shape(n, s)
  {
    forall t: nat :: t < n ==> ThreadOk(s.threads[t], s.entered[t], s.left[t], s.b.rounds)
  }

  ghost predicate LockOk(n: Count, s: State)
    requires Shape(n, s)
  {
    (forall t: nat :: t < n ==> (Holds(s.threads[t]) <==> s.b.lock == By(t))) && (s.b.lock.By? ==> s.b.lock.t < n)
  }

  /** A last arrival means everyone has arrived, and it is unique. */
  ghost predicate LastOk(n: Count, s: State)
    requires Shape(n, s)
  {
    forall t: nat, u: nat :: t < n && u < n && Last(s.threads[t]) ==>
      s.entered[u] == s.b.rounds + 1 && (Last(s.threads[u]) ==> t == u)
  }

  ghost predicate SomeNextRound(n: Count, s: State)
    requires Shape(n, s)
  {
    exists t: nat :: t < n && s.threads[t].NextRound?
  }

  ghost predicate SomeResetIn(n: Count, s: State)
    requires Shape(n, s)
  {
    exists t: nat :: t < n && s.threads[t].ResetIn?
  }

  /** The count is the number of arrivals in this round, until the last one zeroes
      it; it is full only while the last arrival is about to do so. */
  ghost predicate ArrivedOk(n: Count, s: State)
    requires Shape(n, s)
  {
    && s.b.arrived == (if SomeNextRound(n, s) then 0 else multiset(s.entered)[s.b.rounds + 1])
    && (s.b.arrived < n || SomeResetIn(n, s))
  }

  ghost predicate RoundOk(s: State) {
    s.b.round == Wrap32(s.b.rounds)
  }

  /** One serial code per round, to the thread that closed it. */
  predicate SerialOf(pc: Pc, e: nat, t: nat, rounds: nat, serial: seq<nat>)
    requires |serial| == rounds
  {
    && (Serial(pc) ==> rounds > 0 && serial[rounds - 1] == t)
    && ((Follower(pc) || pc.Unlock?) && e == rounds ==> rounds > 0 && serial[rounds - 1] != t)
  }

  ghost predicate SerialOk(n: Count, s: State)
    requires Shape(n, s)
  {
    && |s.b.serial| == s.b.rounds
    && (forall t: nat :: t < n ==> SerialOf(s.threads[t], s.entered[t], t, s.b.rounds, s.b.serial))
  }

  /** No waiter misses the broadcast of its round. */
  ghost predicate WakeOk(n: Count, s: State)
    requires Shape(n, s)
  {
    forall t: nat :: t < n && s.threads[t].Waiting? && s.entered[t] == s.b.rounds ==> BroadcastDue(n, s)
  }

  ghost predicate BroadcastDue(n: Count, s: State)
    requires Shape(n, s)
  {
    exists u: nat :: u < n && (s.threads[u].BLock? || s.threads[u].Broadcast?)
  }

  ghost predicate Inv(n: Count, s: State) {
    && Shape(n, s) && ThreadsOk(n, s) && LockOk(n, s) && LastOk(n, s) && ArrivedOk(n, s)
    && RoundOk(s) && SerialOk(n, s) && WakeOk(n, s)
  }

  lemma InitInv(n: Count, s: State)
    requires Init(n, s)
    ensures Inv(n, s)
  {
    assert 1 !in s.entered;
  }

  // ----- preservation -----

  /** Two rounds a step apart never carry the same 32-bit number. */
  lemma RoundsDiffer(r: nat)
    ensures Wrap32(r + 1) != Wrap32(r)
    ensures Wrap32(Wrap32(r) + 1) == Wrap32(r + 1)
  {
  }

  /** Before an arrival the count is short of the parties, so it never wraps. */
  lemma Arrive(n: Count, s: State, t: nat)
    requires Shape(n, s) && ThreadsOk(n, s) && LastOk(n, s) && ArrivedOk(n, s) && t < n && s.threads[t].Arriving?
    ensures s.b.arrived < n && Wrap32(s.b.arrived + 1) == s.b.arrived + 1
    ensures s.b.arrived + 1 == multiset(s.entered[t := s.b.rounds + 1])[s.b.rounds + 1]
    ensures forall u: nat :: u < n ==> !Last(s.threads[u])
  {
    assert ThreadOk(s.threads[t], s.entered[t], s.left[t], s.b.rounds);
    forall u: nat | u < n
      ensures !Last(s.threads[u])
    {
      assert !(s.entered[t] == s.b.rounds && Last(s.threads[u]));
    }
  }

  /** The acting thread's bookkeeping stays right. */
  lemma ActorOk(n: Count, t: nat, spurious: bool,
                pc: Pc, e: nat, l: nat, b: Shared, pc': Pc, e': nat, l': nat, b': Shared)
    requires Acts(n, t, spurious, pc, e, l, b, pc', e', l', b') && ThreadOk(pc, e, l, b.rounds)
    requires b.round == Wrap32(b.rounds)
    ensures ThreadOk(pc', e', l', b'.rounds) && b'.round == Wrap32(b'.rounds)
  {
    RoundsDiffer(b.rounds);
    if e > 0 { RoundsDiffer(e - 1); }
    hide Wrap32;
  }

  /** So does everyone else's, whether or not a round closes. */
  lemma OtherOk(pc: Pc, e: nat, l: nat, rounds: nat, closes: bool)
    requires ThreadOk(pc, e, l, rounds)
    requires closes ==> e == rounds + 1 && !Last(pc)
    ensures ThreadOk(pc, e, l, if closes then rounds + 1 else rounds)
    ensures ThreadOk(Wake(pc), e, l, rounds)
  {
    hide Wrap32;
  }

  lemma ThreadsKept(n: Count, s: State, s': State, t: nat, spurious: bool)
    requires Inv(n, s) && Step(n, s, s', t, spurious)
    ensures ThreadsOk(n, s') && RoundOk(s')
  {
    ActorOk(n, t, spurious, s.threads[t], s.entered[t], s.left[t], s.b, s'.threads[t], s'.entered[t], s'.left[t], s'.b);
    forall u: nat | u < n
      ensures ThreadOk(s'.threads[u], s'.entered[u], s'.left[u], s'.b.rounds)
    {
      if u != t {
        assert Sees(n, s, s', t, u);
        OtherOk(s.threads[u], s.entered[u], s.left[u], s.b.rounds, s.threads[t].NextRound?);
        hide ThreadOk, Wrap32;
      }
    }
  }

  lemma LockKept(n: Count, s: State, s': State, t: nat, spurious: bool)
    requires Inv(n, s) && Step(n, s, s', t, spurious)
    ensures LockOk(n, s')
  {
    hide ThreadsOk, LastOk, ArrivedOk, SerialOk, WakeOk, Wrap32;
    forall u: nat | u < n
      ensures Holds(s'.threads[u]) <==> s'.b.lock == By(u)
    {
      assert u != t ==> Sees(n, s, s', t, u);
    }
  }

  lemma LastKept(n: Count, s: State, s': State, t: nat, spurious: bool)
    requires Inv(n, s) && Step(n, s, s', t, spurious)
    ensures LastOk(n, s')
  {
    if s.threads[t].Arriving? {
      Arrive(n, s, t);
      Recount(n, s, s', t, spurious);
      FullMeansAll(s'.entered, s.b.rounds + 1);
    }
    hide LockOk, ArrivedOk, SerialOk, WakeOk, Wrap32;
    assert ThreadOk(s.threads[t], s.entered[t], s.left[t], s.b.rounds);
    forall v: nat, u: nat | v < n && u < n && Last(s'.threads[v])
      ensures s'.entered[u] == s'.b.rounds + 1 && (Last(s'.threads[u]) ==> v == u)
    {
      assert v != t ==> Sees(n, s, s', t, v);
      assert u != t ==> Sees(n, s, s', t, u);
    }
  }

  /** Only an arrival changes the waits entered. */
  lemma Recount(n: Count, s: State, s': State, t: nat, spurious: bool)
    requires Step(n, s, s', t, spurious)
    ensures s'.entered == if s.threads[t].Arriving? then s.entered[t := s.entered[t] + 1] else s.entered
  {
    hide Wrap32;
    forall u: nat | u < n
      ensures u != t ==> s'.entered[u] == s.entered[u]
    {
      assert u != t ==> Sees(n, s, s', t, u);
    }
  }

  /** Nobody else becomes, or stops being, the last arrival. */
  lemma LastStays(n: Count, s: State, s': State, t: nat, spurious: bool)
    requires Step(n, s, s', t, spurious)
    ensures forall u: nat :: u < n && u != t && (Last(s'.threads[u]) || Last(s.threads[u])) ==> s'.threads[u] == s.threads[u]
  {
    hide Acts;
    forall u: nat | u < n && u != t && (Last(s'.threads[u]) || Last(s.threads[u]))
      ensures s'.threads[u] == s.threads[u]
    {
      assert Sees(n, s, s', t, u);
    }
  }

  lemma CountedIn(n: Count, s: State, s': State, t: nat, spurious: bool)
    requires Inv(n, s) && Step(n, s, s', t, spurious) && s.threads[t].Arriving?
    ensures ArrivedOk(n, s')
  {
    Recount(n, s, s', t, spurious);
    LastStays(n, s, s', t, spurious);
    Arrive(n, s, t);
    FullMeansAll(s'.entered, s.b.rounds + 1);
    assert ThreadOk(s.threads[t], s.entered[t], s.left[t], s.b.rounds);
    hide LockOk, SerialOk, WakeOk, ThreadsOk, LastOk, ArrivedOk, Sees, Wrap32;
    assert s'.b.arrived == n ==> s'.threads[t].ResetIn?;
    assert ArrivedOk(n, s') by { assert !SomeNextRound(n, s'); }
  }

  lemma ArrivedKept(n: Count, s: State, s': State, t: nat, spurious: bool)
    requires Inv(n, s) && Step(n, s, s', t, spurious)
    ensures ArrivedOk(n, s')
  {
    if s.threads[t].Arriving? {
      CountedIn(n, s, s', t, spurious);
    } else {
      Recount(n, s, s', t, spurious);
      LastStays(n, s, s', t, spurious);
      hide LockOk, SerialOk, WakeOk, ThreadsOk, Sees, Wrap32;
      if s.threads[t].ResetIn? {
        assert s'.threads[t].NextRound?;
      } else if s.threads[t].NextRound? {
        assert Last(s.threads[t]);
        assert s.b.rounds + 2 !in s'.entered;
      } else {
        assert forall u: nat :: u < n ==> (s'.threads[u].NextRound? <==> s.threads[u].NextRound?);
        assert forall u: nat :: u < n ==> (s'.threads[u].ResetIn? <==> s.threads[u].ResetIn?);
      }
    }
  }

  lemma SerialKept(n: Count, s: State, s': State, t: nat, spurious: bool)
    requires Inv(n, s) && Step(n, s, s', t, spurious)
    ensures SerialOk(n, s')
  {
    RoundsDiffer(s.b.rounds);
    hide LockOk, ArrivedOk, WakeOk, Wrap32;
    assert ThreadOk(s.threads[t], s.entered[t], s.left[t], s.b.rounds);
    forall u: nat | u < n
      ensures SerialOf(s'.threads[u], s'.entered[u], u, s'.b.rounds, s'.b.serial)
    {
      assert u != t ==> Sees(n, s, s', t, u);
      assert SerialOf(s.threads[u], s.entered[u], u, s.b.rounds, s.b.serial);
      assert ThreadOk(s.threads[u], s.entered[u], s.left[u], s.b.rounds);
    }
  }

  lemma WakeKept(n: Count, s: State, s': State, t: nat, spurious: bool)
    requires Inv(n, s) && Step(n, s, s', t, spurious)
    ensures WakeOk(n, s')
  {
    if s.b.rounds > 0 { RoundsDiffer(s.b.rounds - 1); }
    hide LockOk, ArrivedOk, SerialOk, Wrap32;
    assert ThreadOk(s.threads[t], s.entered[t], s.left[t], s.b.rounds);
    forall w: nat | w < n && s'.threads[w].Waiting? && s'.entered[w] == s'.b.rounds
      ensures BroadcastDue(n, s')
    {
      assert w != t ==> Sees(n, s, s', t, w);
      if s.threads[t].NextRound? {
        assert s'.threads[t].BLock?;
      } else {
        assert s.threads[w].Waiting? && s.entered[w] == s.b.rounds;
        var u: nat :| u < n && (s.threads[u].BLock? || s.threads[u].Broadcast?);
        assert u != t ==> Sees(n, s, s', t, u);
        assert s'.threads[u].BLock? || s'.threads[u].Broadcast?;
      }
    }
  }

  lemma StepInv(n: Count, s: State, s': State, t: nat, spurious: bool)
    requires Inv(n, s) && Step(n, s, s', t, spurious)
    ensures Inv(n, s')
  {
    ThreadsKept(n, s, s', t, spurious);
    LockKept(n, s, s', t, spurious);
    LastKept(n, s, s', t, spurious);
    ArrivedKept(n, s, s', t, spurious);
    SerialKept(n, s, s', t, spurious);
    WakeKept(n, s, s', t, spurious);
    hide Acts, Sees, ThreadsOk, LockOk, LastOk, ArrivedOk, SerialOk, WakeOk;
  }

  /** The invariant holds at every point of every run. */
  lemma {:induction false} RunInv(n: Count, ss: seq<State>, k: nat)
    requires IsRun(n, ss) && k < |ss|
    ensures Inv(n, ss[k])
  {
    hide Inv, Init, Step;
    if k == 0 {
      InitInv(n, ss[0]);
    } else {
      RunInv(n, ss, k - 1);
      assert Next(n, ss[k - 1], ss[k - 1 + 1]);
      var t: nat :| Step(n, ss[k - 1], ss[k], t, true);
      StepInv(n, ss[k - 1], ss[k], t, true);
    }
  }

  // ----- it is a barrier -----

  /** Each action enters a wait from outside one, leaves a wait that every party
      has entered, or is invisible: the abstract barrier's moves and no others. */
  lemma StepIsBarrierMove(n: Count, s: State, s': State, t: nat)
    requires Inv(n, s) && Step(n, s, s', t, true)
    ensures || (s'.entered == s.entered[t := s.entered[t] + 1] && s'.left == s.left && s.left[t] == s.entered[t])
            || (s'.entered == s.entered && s'.left == s.left[t := s.entered[t]]
                && s.left[t] < s.entered[t] && Barrier.MayLeave(s.entered, t))
            || (s'.entered == s.entered && s'.left == s.left)
  {
    Recount(n, s, s', t, true);
    hide LockOk, LastOk, ArrivedOk, SerialOk, WakeOk, Wrap32;
    assert ThreadOk(s.threads[t], s.entered[t], s.left[t], s.b.rounds);
    forall u: nat | u < n
      ensures u != t ==> s'.left[u] == s.left[u]
      ensures s.entered[u] >= s.b.rounds
    {
      assert u != t ==> Sees(n, s, s', t, u);
      assert ThreadOk(s.threads[u], s.entered[u], s.left[u], s.b.rounds);
    }
    assert s'.left == if s.threads[t].Unlock? || s.threads[t].BUnlock? then s.left[t := s.entered[t]] else s.left;
  }

  /** The barrier law holds at every point of every run. */
  lemma RunKeepsLaw(n: Count, ss: seq<State>, k: nat)
    requires IsRun(n, ss) && k < |ss|
    ensures Barrier.Law(ss[k].entered, ss[k].left)
  {
    RunInv(n, ss, k);
    var s := ss[k];
    hide LockOk, LastOk, ArrivedOk, SerialOk, WakeOk, Wrap32, IsRun;
    forall u: nat | u < n
      ensures s.left[u] <= s.b.rounds <= s.entered[u] <= s.left[u] + 1
    {
      assert ThreadOk(s.threads[u], s.entered[u], s.left[u], s.b.rounds);
    }
  }

  /** Of the parties returning from their k-th wait exactly one, the one that
      closed round k, returns the serial code. */
  lemma SerialToOne(n: Count, ss: seq<State>, k: nat, t: nat)
    requires IsRun(n, ss) && k < |ss| - 1 && Step(n, ss[k], ss[k + 1], t, true)
    requires ss[k].threads[t].Unlock? || ss[k].threads[t].BUnlock?
    ensures |ss[k].b.serial| == ss[k].b.rounds == ss[k + 1].left[t] > 0
    ensures ss[k].threads[t].BUnlock? <==> ss[k].b.serial[ss[k + 1].left[t] - 1] == t
  {
    RunInv(n, ss, k);
    hide LockOk, LastOk, ArrivedOk, WakeOk, Wrap32, IsRun;
    var s := ss[k];
    assert ThreadOk(s.threads[t], s.entered[t], s.left[t], s.b.rounds);
    assert SerialOf(s.threads[t], s.entered[t], t, s.b.rounds, s.b.serial);
  }

  // ----- progress -----

  /** An action is enabled without a spurious wake-up. */
  predicate Ready(pc: Pc, lock: Owner) {
    !pc.Out? && !pc.Waiting? && (pc.WantLock? || pc.Woken? || pc.BLock? ==> lock == Free)
  }

  lemma ReadyActs(n: Count, s: State, t: nat) returns (s': State)
    requires Inv(n, s) && t < n && Ready(s.threads[t], s.b.lock)
    ensures Step(n, s, s', t, false)
  {
    assert Shape(n, s);
    hide Inv, Wrap32;
    var pc, e, l, b := s.threads[t], s.entered[t], s.left[t], s.b;
    var e' := if pc.Arriving? then e + 1 else e;
    var l' := if pc.Unlock? || pc.BUnlock? then e else l;
    var pc', b' := Turn(n, t, pc, e, l, b);
    var others := seq(n, u requires 0 <= u < n => if pc.Broadcast? then Wake(s.threads[u]) else s.threads[u]);
    s' := State(others[t := pc'], s.entered[t := e'], s.left[t := l'], b');
    forall u: nat | u < n && u != t
      ensures Sees(n, s, s', t, u)
    {
    }
  }

  lemma Turn(n: Count, t: nat, pc: Pc, e: nat, l: nat, b: Shared) returns (pc': Pc, b': Shared)
    requires Ready(pc, b.lock)
    ensures Acts(n, t, false, pc, e, l, b, pc', if pc.Arriving? then e + 1 else e,
                 if pc.Unlock? || pc.BUnlock? then e else l, b')
  {
    hide Wrap32;
    match pc
    case Arriving(r) =>
      var i := Wrap32(b.arrived + 1);
      pc', b' := if i < n then WantLock(r) else ResetIn(r), b.(arrived := i);
    case WantLock(r) => pc', b' := Test(r), b.(lock := By(t));
    case Test(r) =>
      if b.round == r { pc', b' := Waiting(r), b.(lock := Free); } else { pc', b' := Unlock, b; }
    case Woken(r) => pc', b' := Test(r), b.(lock := By(t));
    case Unlock => pc', b' := Out, b.(lock := Free);
    case ResetIn(r) => pc', b' := NextRound(r), b.(arrived := 0);
    case NextRound(r) =>
      pc', b' := BLock, b.(round := Wrap32(r + 1), rounds := b.rounds + 1, serial := b.serial + [t]);
    case BLock => pc', b' := Broadcast, b.(lock := By(t));
    case Broadcast => pc', b' := BUnlock, b;
    case BUnlock => pc', b' := Out, b.(lock := Free);
  }

  /** Every thread is outside, or waits for the current round while some party has
      not arrived yet. */
  ghost predicate Settled(n: Count, s: State)
    requires Shape(n, s)
  {
    && (forall t: nat :: t < n && !s.threads[t].Out? ==> s.threads[t].Waiting? && s.entered[t] == s.b.rounds + 1)
    && (exists t: nat :: t < n && s.threads[t].Out? && s.entered[t] == s.b.rounds)
  }

  /** Nothing can act only when nobody should: no waiter has missed a broadcast. */
  lemma StuckOnlyIfSettled(n: Count, s: State)
    requires Inv(n, s)
    requires forall t: nat :: t < n ==> !Ready(s.threads[t], s.b.lock)
    ensures Settled(n, s)
  {
    hide SerialOk, LastOk, Wrap32;
    if s.b.lock.By? {
      assert false;
    }
    forall t: nat | t < n
      ensures !s.threads[t].Out? ==> s.threads[t].Waiting? && s.entered[t] == s.b.rounds + 1
      ensures s.threads[t].Out? ==> s.entered[t] == s.b.rounds
      ensures !Last(s.threads[t])
    {
      assert !Ready(s.threads[t], s.b.lock);
      assert ThreadOk(s.threads[t], s.entered[t], s.left[t], s.b.rounds);
    }
    assert !BroadcastDue(n, s);
    FullMeansAll(s.entered, s.b.rounds + 1);
  }

  /** How far a thread is from leaving or waiting. Closing a round only lowers it;
      a broadcast pays for the n waiters it may wake early. */
  function Rank(n: nat, pc: Pc, e: nat, rounds: nat): nat {
    match pc
    case Out => 0
    case Arriving(_) => 11 + 2 * n
    case WantLock(_) => if e > rounds then 10 else 4
    case Woken(_) => if e > rounds then 10 else 4
    case Test(_) => if e > rounds then 9 else 3
    case Waiting(_) => if e > rounds then 8 else 5
    case Unlock => 2
    case ResetIn(_) => 10 + 2 * n
    case NextRound(_) => 9 + 2 * n
    case BLock => 8 + 2 * n
    case Broadcast => 7 + 2 * n
    case BUnlock => 6
  }

  function RankAt(n: nat, s: State, t: nat): nat
    requires t < |s.threads| && |s.threads| == |s.entered|
  {
    Rank(n, s.threads[t], s.entered[t], s.b.rounds)
  }

  function Distance(n: nat, s: State, k: nat): nat
    requires k <= |s.threads| && |s.threads| == |s.entered|
  {
    if k == 0 then 0 else Distance(n, s, k - 1) + RankAt(n, s, k - 1)
  }

  /** One thread drops by more than the others may rise together. */
  lemma {:induction false} DistanceDrops(n: Count, s: State, s': State, t: nat, rise: nat, k: nat)
    requires Shape(n, s) && Shape(n, s') && t < n && k <= n
    requires forall u: nat :: u < n && u != t ==> RankAt(n, s', u) <= RankAt(n, s, u) + rise
    requires RankAt(n, s', t) + rise * n < RankAt(n, s, t)
    ensures Distance(n, s', k) + (if t < k then 1 + rise * n else 0) <= Distance(n, s, k) + rise * k
  {
    if k > 0 {
      DistanceDrops(n, s, s', t, rise, k - 1);
      assert rise * k == rise * (k - 1) + rise;
      hide RankAt;
    }
  }

  lemma ActorDrops(n: Count, t: nat, pc: Pc, e: nat, l: nat, b: Shared, pc': Pc, e': nat, l': nat, b': Shared)
    requires Acts(n, t, false, pc, e, l, b, pc', e', l', b') && ThreadOk(pc, e, l, b.rounds) && !pc.Out?
    requires b.round == Wrap32(b.rounds)
    ensures Rank(n, pc', e', b'.rounds) + (if pc.Broadcast? then 2 * n else 0) < Rank(n, pc, e, b.rounds)
  {
    if e > 0 { RoundsDiffer(e - 1); }
    hide Wrap32;
  }

  /** Without spurious wake-ups and new calls every action brings all parties nearer. */
  lemma StepNearer(n: Count, s: State, s': State, t: nat)
    requires Inv(n, s) && Step(n, s, s', t, false) && !s.threads[t].Out?
    ensures Distance(n, s', n) < Distance(n, s, n)
  {
    hide LockOk, ArrivedOk, SerialOk, WakeOk, Wrap32;
    ActorDrops(n, t, s.threads[t], s.entered[t], s.left[t], s.b, s'.threads[t], s'.entered[t], s'.left[t], s'.b);
    var rise := if s.threads[t].Broadcast? then 2 else 0;
    forall u: nat | u < n && u != t
      ensures RankAt(n, s', u) <= RankAt(n, s, u) + rise
    {
      assert Sees(n, s, s', t, u);
      assert ThreadOk(s.threads[u], s.entered[u], s.left[u], s.b.rounds);
    }
    hide RankAt, Inv, Step;
    DistanceDrops(n, s, s', t, rise, n);
  }

  ghost predicate IsPath(n: Count, ss: seq<State>) {
    && |ss| > 0
    && (forall k :: 0 <= k < |ss| - 1 ==> Quiet(n, ss[k], ss[k + 1]))
  }

  /** An action that is neither a new call nor a spurious wake-up. */
  ghost predicate Quiet(n: Count, s: State, s': State) {
    exists t: nat :: Step(n, s, s', t, false) && !s.threads[t].Out?
  }

  /** Such an action starts no wait that was not already being started. */
  lemma QuietEntered(n: Count, s: State, s': State, t: nat, u: nat)
    requires Step(n, s, s', t, false) && !s.threads[t].Out? && u < n && !s.threads[u].Arriving?
    ensures !s'.threads[u].Arriving? && s'.entered[u] == s.entered[u]
  {
    hide Wrap32;
    assert u != t ==> Sees(n, s, s', t, u);
  }

  /** From every reachable state the barrier can settle, in a bounded number of
      actions by the parties already inside. */
  lemma {:induction false} Settles(n: Count, s: State) returns (ss: seq<State>)
    requires Inv(n, s)
    ensures IsPath(n, ss) && ss[0] == s && |ss| <= Distance(n, s, n) + 1
    ensures Inv(n, ss[|ss| - 1]) && Settled(n, ss[|ss| - 1])
    ensures forall u: nat :: u < n && !s.threads[u].Arriving? ==> ss[|ss| - 1].entered[u] == s.entered[u]
    decreases Distance(n, s, n)
  {
    hide Inv, Step, Settled, Distance;
    InvShape(n, s);
    if t: nat :| t < n && Ready(s.threads[t], s.b.lock) {
      var s' := ReadyActs(n, s, t);
      StepInv(n, s, s', t, false);
      StepNearer(n, s, s', t);
      var rest := Settles(n, s');
      ss := [s] + rest;
      InvShape(n, s');
      InvShape(n, rest[|rest| - 1]);
      forall k | 0 <= k < |ss| - 1
        ensures Quiet(n, ss[k], ss[k + 1])
      {
        if k > 0 {
          assert Quiet(n, rest[k - 1], rest[k - 1 + 1]);
        }
      }
      forall u: nat | u < n && !s.threads[u].Arriving?
        ensures !s'.threads[u].Arriving? && s'.entered[u] == s.entered[u]
      {
        QuietEntered(n, s, s', t, u);
      }
    } else {
      StuckOnlyIfSettled(n, s);
      ss := [s];
    }
  }

  lemma InvShape(n: Count, s: State)
    requires Inv(n, s)
    ensures Shape(n, s)
  {
    hide ThreadsOk, LockOk, LastOk, ArrivedOk, SerialOk, WakeOk;
  }

  ghost predicate AllEntered(n: Count, s: State, k: nat) {
    Shape(n, s) && forall u: nat :: u < n ==> s.entered[u] == k && !s.threads[u].Arriving?
  }

  ghost predicate AllLeft(n: Count, s: State, k: nat) {
    Shape(n, s) && forall u: nat :: u < n ==> s.threads[u].Out? && s.left[u] == k
  }

  /** No lost wake-up: at any point of any run at which every party has entered its
      k-th wait, all of them can go on to leave it. */
  lemma EveryoneLeaves(n: Count, run: seq<State>, k: nat) returns (ss: seq<State>)
    requires IsRun(n, run)
    requires AllEntered(n, run[|run| - 1], k)
    ensures IsPath(n, ss) && ss[0] == run[|run| - 1]
    ensures AllLeft(n, ss[|ss| - 1], k)
  {
    RunInv(n, run, |run| - 1);
    ss := Settles(n, run[|run| - 1]);
    var last := ss[|ss| - 1];
    hide LockOk, LastOk, ArrivedOk, SerialOk, WakeOk, Wrap32, IsPath, IsRun;
    forall u: nat | u < n
      ensures last.threads[u].Out? && last.left[u] == k
    {
      assert ThreadOk(last.threads[u], last.entered[u], last.left[u], last.b.rounds);
    }
  }
}

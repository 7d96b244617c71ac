/** A linear stage of the protocol issues the stage's keys: the batches of a worker's
    plan are the turns of its issuing loop. */
module StageKeys {
  import opened Bits
  import opened KeyRange
  import S = Stages
  import opened StageSafety

  /** The stage's first `threads` workers share its keys and the others issue none:
      all workers in a synchronous stage, the first alone in an asynchronous one. */
  ghost predicate Follows(cfg: S.Config, k: nat, s: Stage) {
    && k < |cfg.plans| && s.threads < cfg.n
    && (forall t: nat :: t < cfg.n - 1 ==> cfg.plans[k][t] == S.Linear(if t < s.threads then TurnsOf(s, t) else 0))
  }

  /** The subranges tile the keys and no loop's reach wraps. */
  ghost predicate Fits(s: Stage) {
    KeyCount(s) * s.threads < TWO_64 && forall t: nat :: t < s.threads ==> ReachOf(s, t) < TWO_64
  }

  /** A worker that has issued n batches goes on exactly when its counter is below
      its end. */
  lemma BatchesAreTurns(cfg: S.Config, k: nat, s: Stage, t: nat, n: nat)
    requires Follows(cfg, k, s) && Fits(s) && t < s.threads
    ensures n < cfg.plans[k][t].batches <==> KeyOf(s, t, n) < BoundWord(s, t + 1)
  {
    hide Bound, CounterAfter, Turns, Reach;
    assert ReachOf(s, t) < TWO_64;
    GuardIsCount(BoundWord(s, t), BoundWord(s, t + 1), Stride(s.batch), n);
  }

  /** When the coordinator halts a stage every worker has issued all its batches. */
  lemma HaltedDone(cfg: S.Config, st: S.State, t: nat)
    requires Inv(cfg, st) && st.c.CHalt? && t < cfg.n - 1
    requires st.stage < |cfg.plans| && cfg.plans[st.stage][t].Linear?
    ensures st.parts[t].stage == st.stage && st.parts[t].issued == cfg.plans[st.stage][t].batches
  {
    hide LockOk, FlagsOk, WakeOk, PartsOk, CountOk;
    NoneLeft(cfg, st);
    Near(cfg, st, t);
    PartAt(cfg, st, t);
  }

  /** A flag is cleared only in the coordinator's halting loop. */
  lemma ClearedByHalt(cfg: S.Config, st: S.State, st': S.State, t: nat)
    requires S.Shape(cfg, st) && S.Shape(cfg, st') && S.Next(cfg, st, st', true)
    requires t < cfg.n && st.doWork[t] && !st'.doWork[t]
    ensures st.c.CHalt?
  {
    hide S.PStep;
    if !S.CStep(cfg, st, st', true) {
      var u :| 0 <= u < cfg.n && S.PStep(cfg, st, st', u);
      PFrame(cfg, st, st', u);
    }
  }

  /** In every run, when a worker is first told to stop in a linear stage, each
      worker's loop has ended with exactly the keys from its start to its reach. */
  lemma AllKeysIssued(cfg: S.Config, rs: seq<S.State>, i: nat, t: nat, s: Stage, w: nat)
    requires IsRun(cfg, rs) && i + 1 < |rs| && t < cfg.n && rs[i].doWork[t] && !rs[i + 1].doWork[t]
    requires Follows(cfg, rs[i].stage, s) && Fits(s) && w < s.threads
    ensures KeyOf(s, w, rs[i].parts[w].issued) >= BoundWord(s, w + 1)
    ensures Bound(s, w) <= ReachOf(s, w)
    ensures IssuedIn(s, w, rs[i].parts[w].issued) == Interval(Bound(s, w), ReachOf(s, w))
  {
    hide Inv, Bound, KeysIn, CounterAfter, Turns, Reach, S.Next;
    RunInv(cfg, rs, i);
    ClearedByHalt(cfg, rs[i], rs[i + 1], t);
    HaltedDone(cfg, rs[i], w);
    assert ReachOf(s, w) < TWO_64;
    LoopFits(BoundWord(s, w), BoundWord(s, w + 1), Stride(s.batch), TurnsOf(s, w));
  }

  /** So every key of the stage has been issued by then. */
  lemma EveryKeyIssued(cfg: S.Config, rs: seq<S.State>, i: nat, t: nat, s: Stage, key: nat) returns (w: nat)
    requires IsRun(cfg, rs) && i + 1 < |rs| && t < cfg.n && rs[i].doWork[t] && !rs[i + 1].doWork[t]
    requires Follows(cfg, rs[i].stage, s) && Fits(s) && s.keyStart <= key < s.keyEnd
    ensures w < s.threads && key in IssuedIn(s, w, rs[i].parts[w].issued)
  {
    hide Inv, Bound, KeysIn, CounterAfter, Turns, Reach, S.Next;
    RunInv(cfg, rs, i);
    ClearedByHalt(cfg, rs[i], rs[i + 1], t);
    w := EachKeyCovered(s, key);
    HaltedDone(cfg, rs[i], w);
  }
}

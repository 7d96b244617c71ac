/** The worker at work: while do_work reads true it never begins to drain, and from
    every state it can come to issue another call. */
module QueueWork {
  import opened Bits
  import opened Sequences
  import opened Queue

  /** A step in which do_work, if it is read, is still set. */
  ghost predicate Told(m: Size, s: State, s': State) {
    && Shape(m, s)
    && (MainStep(m, s, s', false) || (exists x: nat :: x < m && ListenerStep(m, s, s', x)))
  }

  ghost predicate IsToldPath(m: Size, ss: seq<State>) {
    |ss| > 0 && forall k :: 0 <= k < |ss| - 1 ==> Told(m, ss[k], ss[k + 1])
  }

  ghost predicate Working(s: State) {
    !s.draining && !s.main.Done?
  }

  lemma ToldIsNext(m: Size, s: State, s': State)
    requires Told(m, s, s')
    ensures Next(m, s, s')
  {
  }

  /** No slot is taken out of circulation: every pop is followed by a call on its slot. */
  lemma ToldWorks(m: Size, s: State, s': State)
    requires Told(m, s, s') && Working(s)
    ensures Working(s') && s'.drained == s.drained
    ensures forall x: nat :: s.main == Bump(x) ==> s'.main == Bump(x) || s'.main == Issue(x)
    ensures forall x: nat :: x < m && s.main == Issue(x) && s'.main != Issue(x) ==> s'.main == Top && s'.locs[x] == InFlight
  {
    hide CellOf, Index, NextPow2, Wrap32;
  }

  /** Over any stretch of steps with do_work set the worker stays out of the drain. */
  lemma {:induction false} StaysWorking(m: Size, ss: seq<State>, k: nat)
    requires IsToldPath(m, ss) && k < |ss| && Working(ss[0])
    ensures Working(ss[k]) && ss[k].drained == ss[0].drained
  {
    hide Told, Working;
    if k > 0 {
      StaysWorking(m, ss, k - 1);
      assert Told(m, ss[k - 1], ss[k - 1 + 1]);
      ToldWorks(m, ss[k - 1], ss[k]);
    }
  }

  /** Steps of the worker before it next issues a call. */
  function IssueRank(m: Size, main: Main): int {
    match main
    case Issue(_) => 0
    case Bump(_) => 1
    case Swap => 2
    case Check => 3
    case Top => 4
    case Fill(i) => 6 + 2 * (m - i)
    case FillStore(i) => 5 + 2 * (m - i)
    case Done => 0
  }

  lemma Moves(m: Size, s: State) returns (s': State)
    requires Inv(m, s) && Working(s) && !s.main.Issue?
    requires s.main.Check? ==> s.head != s.pos
    requires s.main.Swap? ==> s.cells[Index(m, s.head)].Item?
    ensures MainStep(m, s, s', false) && 0 <= IssueRank(m, s'.main) < IssueRank(m, s.main)
  {
    hide NextPow2, CellOf, Index, Wrap32, OrderOk, CellsOk, PopsOk;
    match s.main
    case Fill(i) => s' := if i < m then Reserve(s, i).(main := FillStore(i)) else s.(main := Top);
    case FillStore(i) =>
      assert LocOk(s, i);
      s' := Store(m, s, i, s.locs[i].p).(main := Fill(i + 1));
    case Top => s' := s.(main := Check);
    case Check => s' := s.(main := Swap);
    case Swap => s' := Take(s, Index(m, s.head), s.cells[Index(m, s.head)].id);
    case Bump(x) => s' := s.(main := Issue(x), head := Wrap32(s.head + 1), heads := s.heads + 1);
  }

  /** A step that brings the next call nearer: the worker's, or the listener's it waits for. */
  lemma Nearer(m: Size, s: State) returns (s': State)
    requires Inv(m, s) && Working(s) && !s.main.Issue?
    ensures Told(m, s, s') && 0 <= IssueRank(m, s'.main)
    ensures IssueRank(m, s'.main) < IssueRank(m, s.main) || (s'.main == s.main && Owed(s'.locs) < Owed(s.locs))
  {
    WordsCompare(m, s);
    hide IssueRank;
    RankNatural(m, s);
    if s.main.Check? && s.heads == |s.order| {
      var x := EmptyMeansInFlight(m, s);
      s' := Reserve(s, x);
      OwedDrops(s.locs, x, Reserved(|s.order|));
      assert ListenerStep(m, s, s', x);
    } else if s.main.Swap? && s.cells[Index(m, s.head)].Null? {
      var x := NullMeansReserved(m, s);
      s' := Store(m, s, x, s.locs[x].p);
      OwedDrops(s.locs, x, Stored(s.locs[x].p));
      assert ListenerStep(m, s, s', x);
    } else {
      s' := Moves(m, s);
    }
  }

  lemma RankNatural(m: Size, s: State)
    requires Inv(m, s)
    ensures 0 <= IssueRank(m, s.main)
  {
  }

  lemma {:induction false} CanIssue(m: Size, s: State) returns (ss: seq<State>)
    requires Inv(m, s) && Working(s)
    ensures IsToldPath(m, ss) && ss[0] == s && ss[|ss| - 1].main.Issue?
    decreases IssueRank(m, s.main), Owed(s.locs)
  {
    hide Inv, Told, IssueRank, Owed, Working;
    ss := [s];
    if !s.main.Issue? {
      RankNatural(m, s);
      var s' := Nearer(m, s);
      ToldIsNext(m, s, s');
      NextInv(m, s, s');
      ToldWorks(m, s, s');
      var rest := CanIssue(m, s');
      ss := [s] + rest;
      forall k | 0 <= k < |ss| - 1
        ensures Told(m, ss[k], ss[k + 1])
      {
        if k > 0 { assert Told(m, rest[k - 1], rest[k - 1 + 1]); }
      }
    }
  }

  /** In every run that has not begun to drain, the worker can come to issue a call, the
      do_work flag set all the way. */
  lemma EveryRunCanIssue(m: Size, run: seq<State>) returns (ss: seq<State>)
    requires IsRun(m, run) && Working(run[|run| - 1])
    ensures IsToldPath(m, ss) && ss[0] == run[|run| - 1] && ss[|ss| - 1].main.Issue?
  {
    hide Inv, IsToldPath, Working;
    RunInv(m, run, |run| - 1);
    ss := CanIssue(m, run[|run| - 1]);
  }
}

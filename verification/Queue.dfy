/** The lock-free ring that recycles command slots between many completion
    listeners and one worker, as a step relation over atomic accesses. */
module Queue {
  import opened Bits
  import opened Sequences

  /** Slots requested; a power of two above the request must fit 32 bits. */
  type Size = m: int | 1 <= m < TWO_31 witness 1

  /** Leading zeros of a 32-bit word. */
  function Clz(n: Size): (r: nat)
    ensures 1 <= r < 32 && Pow2(32 - r - 1) <= n < Pow2(32 - r)
  {
    BitLenBounds(n);
    FewBits(n);
    32 - BitLen(n)
  }

  lemma FewBits(n: Size)
    ensures BitLen(n) <= 31
  {
    BitLenBounds(n);
    Pow2Constants();
    var b := BitLen(n);
    if b > 31 { Pow2Mono(31, b - 1); }
  }

  /** The least power of two above the request. */
  function NextPow2(n: Size): (r: nat)
    ensures r == Pow2(32 - Clz(n)) && n < r <= 2 * n
  {
    TopShift(Clz(n));
    Shr(TWO_31, Clz(n) - 1)
  }

  lemma TopShift(z: nat)
    requires 1 <= z < 32
    ensures Shr(TWO_31, z - 1) == Pow2(32 - z)
  {
    Pow2Constants();
    Pow2Add(32 - z, z - 1);
    DivModUnique(TWO_31, Pow2(z - 1), Pow2(32 - z), 0);
  }

  datatype Cell = Null | Item(id: nat)

  /** Where a command slot is. Positions count every reservation ever made. */
  datatype Loc =
    | Fresh            // not pushed yet
    | InFlight         // its asynchronous call has not run its listener
    | Reserved(p: nat) // position taken, not stored yet
    | Stored(p: nat)
    | Taken            // in the worker's hands
    | Drained

  datatype Main =
    | Fill(i: nat)      // first pushes: about to reserve for slot i
    | FillStore(i: nat) // about to store it
    | Top               // loop head
    | Check             // about to compare head and pos
    | Swap              // about to exchange the cell at head
    | Bump(x: nat)      // about to advance head
    | Issue(x: nat)     // about to issue a call on slot x
    | Done

  /** head and pos are the 32-bit words. History: the slot reserved at every
      position, pops in order, pops counted by advancing head, slots drained. */
  datatype State = State(
    cells: seq<Cell>, pos: nat, head: nat, main: Main, draining: bool, locs: seq<Loc>,
    order: seq<nat>, popped: seq<nat>, heads: nat, drained: nat)

  ghost predicate Shape(m: Size, s: State) {
    |s.locs| == m && |s.cells| == NextPow2(m)
  }

  ghost predicate Init(m: Size, s: State) {
    && Shape(m, s)
    && (forall i :: 0 <= i < |s.cells| ==> s.cells[i] == Null)
    && (forall x :: 0 <= x < m ==> s.locs[x] == Fresh)
    && s == State(s.cells, 0, 0, Fill(0), false, s.locs, [], [], 0, 0)
  }

  /** The cell a 32-bit position addresses. */
  function Index(m: Size, w: nat): (r: nat)
    ensures r == w % NextPow2(m) < NextPow2(m)
  {
    hide Clz, Pow2;
    AndMask(w, 32 - Clz(m));
    BitAnd(w, NextPow2(m) - 1)
  }

  /** The cell of an unbounded position, through its 32-bit word. */
  function CellOf(m: Size, p: nat): (r: nat)
    ensures r < NextPow2(m)
  {
    Index(m, Wrap32(p))
  }

  /** First half of a push: fetch-and-add on pos. */
  function Reserve(s: State, x: nat): State
    requires x < |s.locs|
  {
    s.(pos := Wrap32(s.pos + 1), locs := s.locs[x := Reserved(|s.order|)], order := s.order + [x])
  }

  /** Second half: store into the cell of the position fetched. */
  function Store(m: Size, s: State, x: nat, p: nat): State
    requires Shape(m, s) && x < m
  {
    s.(cells := s.cells[CellOf(m, p) := Item(x)], locs := s.locs[x := Stored(p)])
  }

  /** The worker, one atomic access at a time; stop is its do_work flag read as
      false at the loop head. */
  ghost predicate MainStep(m: Size, s: State, s': State, stop: bool)
    requires Shape(m, s)
  {
    match s.main
    case Fill(i) =>
      if i < m then s' == Reserve(s, i).(main := FillStore(i)) else s' == s.(main := Top)
    case FillStore(i) =>
      && i < m && s.locs[i].Reserved?
      && s' == Store(m, s, i, s.locs[i].p).(main := Fill(i + 1))
    case Top =>
      if !s.draining then s' == if stop then s.(draining := true) else s.(main := Check)
      else s' == s.(main := if s.drained < m then Check else Done)
    case Check => s' == if s.head != s.pos then s.(main := Swap) else s
    case Swap =>
      var i := Index(m, s.head);
      s' == if s.cells[i].Null? then s.(main := Check) else Take(s, i, s.cells[i].id)
    case Bump(x) =>
      && x < m
      && s' == (if s.draining then s.(main := Top, locs := s.locs[x := Drained], drained := s.drained + 1) else s.(main := Issue(x)))
               .(head := Wrap32(s.head + 1), heads := s.heads + 1)
    case Issue(x) => x < m && s' == s.(main := Top, locs := s.locs[x := InFlight])
    case Done => false
  }

  function Take(s: State, i: nat, x: nat): State
    requires i < |s.cells|
  {
    s.(cells := s.cells[i := Null], main := Bump(x), popped := s.popped + [x],
       locs := if x < |s.locs| then s.locs[x := Taken] else s.locs)
  }

  /** A completion listener pushing slot x back. */
  ghost predicate ListenerStep(m: Size, s: State, s': State, x: nat)
    requires Shape(m, s) && x < m
  {
    match s.locs[x]
    case InFlight => s' == Reserve(s, x)
    case Reserved(p) => s.main != FillStore(x) && s' == Store(m, s, x, p)
    case _ => false
  }

  ghost predicate Next(m: Size, s: State, s': State) {
    && Shape(m, s)
    && ((exists stop :: MainStep(m, s, s', stop)) || (exists x: nat :: x < m && ListenerStep(m, s, s', x)))
  }

  ghost predicate IsRun(m: Size, ss: seq<State>) {
    && |ss| > 0 && Init(m, ss[0])
    && (forall k :: 0 <= k < |ss| - 1 ==> Next(m, ss[k], ss[k + 1]))
  }

  // ----- the ring's size and index -----

  lemma ModMod(p: nat, a: nat, b: nat)
    requires a > 0 && b > 0
    ensures a * b > 0 && (p % (a * b)) % a == p % a
  {
    MulStrictMono(0, a, b);
    var q, r := p / (a * b), p % (a * b);
    DivMod(p, a * b);
    DivMod(r, a);
    MulAssoc(a, b, q);
    assert p == a * (b * q) + (a * (r / a) + r % a);
    assert a * (b * q) + a * (r / a) == a * (b * q + r / a);
    DivModUnique(p, a, b * q + r / a, r % a);
  }

  /** Masking the wrapped word gives the unbounded position modulo the ring. */
  lemma CellIsMod(m: Size, p: nat)
    ensures CellOf(m, p) == p % NextPow2(m)
  {
    Pow2Constants();
    hide Clz, Pow2, Index;
    var z := Clz(m);
    Pow2Add(32 - z, z);
    ModMod(p, Pow2(32 - z), Pow2(z));
  }

  /** Positions less than a ring apart share a cell only when equal. */
  lemma SameCell(m: Size, p: nat, q: nat)
    requires CellOf(m, p) == CellOf(m, q) && p <= q < p + NextPow2(m)
    ensures p == q
  {
    CellIsMod(m, p);
    CellIsMod(m, q);
    hide CellOf, NextPow2;
    var n := NextPow2(m);
    DivMod(p, n);
    DivMod(q, n);
    var d := q / n - p / n;
    assert q - p == n * d;
    if d >= 1 { MulMono(1, d, n); }
    if d < 0 { MulMono(d, -1, n); }
  }

  // ----- invariant -----

  predicate Pending(main: Main, x: nat) {
    (main.Fill? && x >= main.i) || (main.FillStore? && x > main.i)
  }

  /** Slot x's location against the worker's position and the reservations. */
  predicate LocOk(s: State, x: nat)
    requires x < |s.locs|
  {
    && (s.locs[x].Fresh? <==> Pending(s.main, x))
    && (s.locs[x].Taken? <==> s.main == Bump(x) || s.main == Issue(x))
    && (s.main == FillStore(x) ==> s.locs[x].Reserved?)
    && (s.locs[x].Reserved? || s.locs[x].Stored? ==> s.heads <= s.locs[x].p < |s.order| && s.order[s.locs[x].p] == x)
  }

  ghost predicate LocsOk(m: Size, s: State)
    requires Shape(m, s)
  {
    forall x: nat :: x < m ==> LocOk(s, x)
  }

  /** The reservation at p, not consumed yet. */
  predicate LiveOk(s: State, p: nat)
    requires p < |s.order|
  {
    var x := s.order[p];
    && x < |s.locs|
    && (s.locs[x] == Reserved(p) || s.locs[x] == Stored(p) || (p == s.heads && s.main == Bump(x)))
  }

  ghost predicate OrderOk(s: State) {
    forall p: nat :: s.heads <= p < |s.order| ==> LiveOk(s, p)
  }

  ghost predicate CellsOk(m: Size, s: State)
    requires Shape(m, s)
  {
    && (forall i: nat :: i < |s.cells| && s.cells[i].Item? ==>
          s.cells[i].id < m && s.locs[s.cells[i].id].Stored? && CellOf(m, s.locs[s.cells[i].id].p) == i)
    && (forall x: nat :: x < m && s.locs[x].Stored? ==> s.cells[CellOf(m, s.locs[x].p)] == Item(x))
  }

  ghost predicate WordsOk(s: State) {
    && s.pos == Wrap32(|s.order|) && s.head == Wrap32(s.heads) && s.heads <= |s.order|
    && (s.main.Swap? || s.main.Bump? ==> s.heads < |s.order|)
    && (s.main.Bump? ==> s.order[s.heads] == s.main.x)
  }

  /** Pops so far are the reservations in order. */
  ghost predicate PopsOk(s: State) {
    var k := s.heads + if s.main.Bump? then 1 else 0;
    k <= |s.order| && s.popped == s.order[..k]
  }

  ghost predicate MainOk(m: Size, s: State) {
    && (s.main.Fill? ==> s.main.i <= m)
    && (s.main.FillStore? ==> s.main.i < m)
    && (s.main.Bump? || s.main.Issue? ==> s.main.x < m)
    && (s.draining ==> !s.main.Fill? && !s.main.FillStore? && !s.main.Issue?)
    && (s.main.Done? ==> s.draining && s.drained == m)
    && (s.draining && (s.main.Check? || s.main.Swap? || s.main.Bump?) ==> s.drained < m)
  }

  ghost predicate DrainOk(m: Size, s: State)
    requires Shape(m, s)
  {
    && s.drained == multiset(s.locs)[Drained]
    && (!s.draining ==> s.drained == 0)
  }

  ghost predicate Inv(m: Size, s: State) {
    && Shape(m, s) && LocsOk(m, s) && OrderOk(s) && CellsOk(m, s)
    && WordsOk(s) && PopsOk(s) && MainOk(m, s) && DrainOk(m, s)
  }

  /** Live reservations belong to distinct slots, so the ring always has room. */
  lemma Room(m: Size, s: State)
    requires Shape(m, s) && OrderOk(s) && LocsOk(m, s) && s.heads <= |s.order|
    ensures |s.order| - s.heads <= m < NextPow2(m)
  {
    hide Clz, NextPow2;
    var live := s.order[s.heads..];
    forall i | 0 <= i < |live|
      ensures live[i] < m
    {
      assert LiveOk(s, s.heads + i);
    }
    forall i, j | 0 <= i < j < |live|
      ensures live[i] != live[j]
    {
      assert LiveOk(s, s.heads + i) && LiveOk(s, s.heads + j);
      assert LocOk(s, live[i]);
    }
    Pigeonhole(live, m);
  }

  /** The words differ exactly when a reservation is pending, wrapped or not. */
  lemma WordsCompare(m: Size, s: State)
    requires Inv(m, s)
    ensures s.head != s.pos <==> s.heads < |s.order|
  {
    Room(m, s);
  }

  lemma InitInv(m: Size, s: State)
    requires Init(m, s)
    ensures Inv(m, s)
  {
    hide NextPow2;
    assert Drained !in s.locs;
  }

  // ----- preservation -----

  /** Reserving a position for x, by its listener or by the first pushes. */
  lemma ReserveInv(m: Size, s: State, s': State, x: nat)
    requires Inv(m, s) && x < m && s' == Reserve(s, x).(main := s'.main)
    requires (s.locs[x].InFlight? && s'.main == s.main) || (s.main == Fill(x) && s'.main == FillStore(x))
    ensures Inv(m, s')
  {
    WrapSucc(|s.order|);
    hide NextPow2, CellOf, Wrap32;
    assert LocOk(s, x);
    assert s'.locs[x] == Reserved(|s.order|) && Shape(m, s');
    assert WordsOk(s') && MainOk(m, s');
    assert PopsOk(s');
    assert DrainOk(m, s') by {
      assert s.locs[x] != Drained;
    }
    forall y: nat | y < m
      ensures LocOk(s', y)
    {
      assert LocOk(s, y);
    }
    forall p: nat | s'.heads <= p < |s'.order|
      ensures LiveOk(s', p)
    {
      if p < |s.order| { assert LiveOk(s, p); }
    }
  }

  /** A store never lands on an unconsumed item. */
  lemma StoreFindsNull(m: Size, s: State, x: nat)
    requires Inv(m, s) && x < m && s.locs[x].Reserved?
    ensures s.cells[CellOf(m, s.locs[x].p)] == Null
  {
    hide NextPow2, CellOf;
    var p := s.locs[x].p;
    assert LocOk(s, x);
    if s.cells[CellOf(m, p)].Item? {
      var y := s.cells[CellOf(m, p)].id;
      assert LocOk(s, y);
      OneCellEach(m, s, p, s.locs[y].p);
    }
  }

  lemma OneCellEach(m: Size, s: State, p: nat, q: nat)
    requires Inv(m, s) && s.heads <= p < |s.order| && s.heads <= q < |s.order| && CellOf(m, p) == CellOf(m, q)
    ensures p == q
  {
    Room(m, s);
    if p <= q { SameCell(m, p, q); } else { SameCell(m, q, p); }
  }

  lemma StoreInv(m: Size, s: State, s': State, x: nat)
    requires Inv(m, s) && x < m && s.locs[x].Reserved? && s' == Store(m, s, x, s.locs[x].p).(main := s'.main)
    requires (s.main != FillStore(x) && s'.main == s.main) || (s.main == FillStore(x) && s'.main == Fill(x + 1))
    ensures Inv(m, s')
  {
    hide NextPow2, CellOf;
    StoreFindsNull(m, s, x);
    var p := s.locs[x].p;
    assert LocOk(s, x);
    assert Shape(m, s') && WordsOk(s') && MainOk(m, s') && PopsOk(s');
    assert DrainOk(m, s');
    forall y: nat | y < m
      ensures LocOk(s', y)
    {
      assert LocOk(s, y);
    }
    forall q: nat | s'.heads <= q < |s'.order|
      ensures LiveOk(s', q)
    {
      assert LiveOk(s, q);
    }
  }

  /** An exchange that finds an item finds the oldest reservation. */
  lemma SwapFindsOldest(m: Size, s: State)
    requires Inv(m, s) && s.main.Swap? && s.cells[Index(m, s.head)].Item?
    ensures var x := s.cells[Index(m, s.head)].id;
      x < m && s.locs[x] == Stored(s.heads) && s.order[s.heads] == x && Index(m, s.head) == CellOf(m, s.heads)
  {
    hide NextPow2, Index;
    assert Index(m, s.head) == CellOf(m, s.heads);
    var x := s.cells[Index(m, s.head)].id;
    assert LocOk(s, x);
    OneCellEach(m, s, s.locs[x].p, s.heads);
  }

  lemma TakeInv(m: Size, s: State)
    requires Inv(m, s) && s.main.Swap? && s.cells[Index(m, s.head)].Item?
    ensures Inv(m, Take(s, Index(m, s.head), s.cells[Index(m, s.head)].id))
  {
    SwapFindsOldest(m, s);
    hide NextPow2, Index, CellOf, Wrap32;
    var i := Index(m, s.head);
    var x := s.cells[i].id;
    var s' := Take(s, i, x);
    assert Shape(m, s') && WordsOk(s') && MainOk(m, s') && PopsOk(s');
    assert DrainOk(m, s');
    forall y: nat | y < m
      ensures LocOk(s', y)
    {
      assert LocOk(s, y) && LocOk(s, x);
    }
    forall q: nat | s'.heads <= q < |s'.order|
      ensures LiveOk(s', q)
    {
      assert LiveOk(s, q);
    }
    assert CellsOk(m, s') by {
      forall y: nat | y < m && s'.locs[y].Stored?
        ensures s'.cells[CellOf(m, s'.locs[y].p)] == Item(y)
      {
        assert s.cells[CellOf(m, s.locs[y].p)] == Item(y);
      }
    }
  }

  /** Advancing head hands the item over: to a call, or to the drain. */
  lemma BumpInv(m: Size, s: State, s': State, stop: bool)
    requires Inv(m, s) && s.main.Bump? && MainStep(m, s, s', stop)
    ensures Inv(m, s')
  {
    WrapSucc(s.heads);
    hide NextPow2, CellOf, Wrap32;
    var x := s.main.x;
    assert LocOk(s, x);
    assert Shape(m, s') && WordsOk(s') && MainOk(m, s') && PopsOk(s');
    assert DrainOk(m, s');
    forall y: nat | y < m
      ensures LocOk(s', y)
    {
      assert LocOk(s, y);
    }
    forall q: nat | s'.heads <= q < |s'.order|
      ensures LiveOk(s', q)
    {
      assert LiveOk(s, q) && LiveOk(s, s.heads);
    }
  }

  lemma IssueInv(m: Size, s: State, s': State, stop: bool)
    requires Inv(m, s) && s.main.Issue? && MainStep(m, s, s', stop)
    ensures Inv(m, s')
  {
    hide NextPow2, CellOf, Wrap32;
    var x := s.main.x;
    assert LocOk(s, x);
    assert Shape(m, s') && WordsOk(s') && MainOk(m, s') && PopsOk(s');
    assert DrainOk(m, s');
    forall y: nat | y < m
      ensures LocOk(s', y)
    {
      assert LocOk(s, y);
    }
    forall q: nat | s'.heads <= q < |s'.order|
      ensures LiveOk(s', q)
    {
      assert LiveOk(s, q);
    }
  }

  /** Steps that touch nothing but the worker's position. */
  lemma MoveInv(m: Size, s: State, s': State)
    requires Inv(m, s) && s' == s.(main := s'.main, draining := s'.draining)
    requires || (s.main == Fill(m) && s'.main == Top && !s'.draining && !s.draining)
             || (s.main == Top && s'.main == Top && s'.draining)
             || (s.main == Top && s'.main == Check && s'.draining == s.draining && (s.draining ==> s.drained < m))
             || (s.main == Top && s'.main == Done && s'.draining && s.draining && s.drained == m)
             || (s.main == Check && s'.main == Swap && s'.draining == s.draining && s.heads < |s.order|)
             || (s.main == Swap && s'.main == Check && s'.draining == s.draining)
    ensures Inv(m, s')
  {
    hide NextPow2, CellOf, Wrap32;
    assert Shape(m, s') && WordsOk(s') && MainOk(m, s') && PopsOk(s') && DrainOk(m, s');
    forall y: nat | y < m
      ensures LocOk(s', y)
    {
      assert LocOk(s, y);
    }
    forall q: nat | s'.heads <= q < |s'.order|
      ensures LiveOk(s', q)
    {
      assert LiveOk(s, q);
    }
  }

  lemma MainInv(m: Size, s: State, s': State, stop: bool)
    requires Inv(m, s) && MainStep(m, s, s', stop)
    ensures Inv(m, s')
  {
    WordsCompare(m, s);
    FullMeansAll(s.locs, Drained);
    hide NextPow2, CellOf, Index, Wrap32, LocsOk, OrderOk, CellsOk, WordsOk, PopsOk;
    match s.main
    case Fill(i) =>
      if i < m { ReserveInv(m, s, s', i); } else { MoveInv(m, s, s'); }
    case FillStore(i) => StoreInv(m, s, s', i);
    case Top => MoveInv(m, s, s');
    case Check => if s' != s { MoveInv(m, s, s'); }
    case Swap =>
      if s.cells[Index(m, s.head)].Null? { MoveInv(m, s, s'); } else { TakeInv(m, s); }
    case Bump(_) => BumpInv(m, s, s', stop);
    case Issue(_) => IssueInv(m, s, s', stop);
  }

  lemma ListenerInv(m: Size, s: State, s': State, x: nat)
    requires Inv(m, s) && x < m && ListenerStep(m, s, s', x)
    ensures Inv(m, s')
  {
    hide NextPow2, CellOf, Wrap32, LocsOk, OrderOk, CellsOk, WordsOk, PopsOk, MainOk, DrainOk;
    if s.locs[x].InFlight? { ReserveInv(m, s, s', x); } else { StoreInv(m, s, s', x); }
  }

  lemma NextInv(m: Size, s: State, s': State)
    requires Inv(m, s) && Next(m, s, s')
    ensures Inv(m, s')
  {
    hide Inv, MainStep, ListenerStep;
    if stop :| MainStep(m, s, s', stop) {
      MainInv(m, s, s', stop);
    } else {
      var x: nat :| x < m && ListenerStep(m, s, s', x);
      ListenerInv(m, s, s', x);
    }
  }

  /** The invariant holds at every point of every run. */
  lemma {:induction false} RunInv(m: Size, ss: seq<State>, k: nat)
    requires IsRun(m, ss) && k < |ss|
    ensures Inv(m, ss[k])
  {
    hide Inv, Init, MainStep, ListenerStep;
    if k == 0 {
      InitInv(m, ss[0]);
    } else {
      RunInv(m, ss, k - 1);
      assert Next(m, ss[k - 1], ss[k - 1 + 1]);
      NextInv(m, ss[k - 1], ss[k]);
    }
  }

  // ----- what the queue promises -----

  /** Every reservation made so far has been popped exactly once, in order, or is
      one of the at most m still held by a listener or stored in its own cell. */
  lemma PopsInOrder(m: Size, ss: seq<State>, k: nat)
    requires IsRun(m, ss) && k < |ss|
    ensures ss[k].popped <= ss[k].order
    ensures |ss[k].order| - |ss[k].popped| <= m
    ensures forall p: nat :: |ss[k].popped| <= p < |ss[k].order| ==>
      ss[k].order[p] < |ss[k].locs| && ss[k].locs[ss[k].order[p]] in {Reserved(p), Stored(p)}
  {
    RunInv(m, ss, k);
    var s := ss[k];
    hide NextPow2, CellOf, Wrap32, IsRun;
    Room(m, s);
    forall p: nat | |s.popped| <= p < |s.order|
      ensures s.order[p] < |s.locs| && s.locs[s.order[p]] in {Reserved(p), Stored(p)}
    {
      assert LiveOk(s, p);
    }
  }

  predicate Queued(l: Loc) {
    l.Reserved? || l.Stored?
  }

  /** How many slots are at a queue position. */
  function Population(locs: seq<Loc>): nat {
    if locs == [] then 0 else Population(locs[..|locs| - 1]) + if Queued(locs[|locs| - 1]) then 1 else 0
  }

  lemma {:induction false} PopulationUpdate(locs: seq<Loc>, x: nat, l: Loc)
    requires x < |locs|
    ensures Population(locs[x := l]) ==
      Population(locs) - (if Queued(locs[x]) then 1 else 0) + (if Queued(l) then 1 else 0)
  {
    var n := |locs| - 1;
    if x < n {
      PopulationUpdate(locs[..n], x, l);
      assert locs[x := l][..n] == locs[..n][x := l];
    } else {
      assert locs[x := l][..n] == locs[..n];
    }
  }

  lemma {:induction false} PopulationSplits(locs: seq<Loc>)
    ensures |locs| == Population(locs) + multiset(locs)[Fresh] + multiset(locs)[InFlight]
                      + multiset(locs)[Taken] + multiset(locs)[Drained]
  {
    if locs != [] {
      var n := |locs| - 1;
      PopulationSplits(locs[..n]);
      assert locs == locs[..n] + [locs[n]];
    }
  }

  lemma {:induction false} NobodyQueued(locs: seq<Loc>)
    requires forall x :: 0 <= x < |locs| ==> !Queued(locs[x])
    ensures Population(locs) == 0
  {
    if locs != [] { NobodyQueued(locs[..|locs| - 1]); }
  }

  /** Positions handed out and not popped are exactly the slots that hold one. */
  ghost predicate Balanced(s: State) {
    Population(s.locs) == |s.order| - |s.popped|
  }

  lemma NextBalanced(m: Size, s: State, s': State)
    requires Inv(m, s) && Next(m, s, s') && Balanced(s)
    ensures Balanced(s')
  {
    assert PopsOk(s);
    hide NextPow2, CellOf, Wrap32, CellsOk, OrderOk, PopsOk, DrainOk;
    if stop :| MainStep(m, s, s', stop) {
      MainBalanced(m, s, s', stop);
    } else {
      var x: nat :| x < m && ListenerStep(m, s, s', x);
      PopulationUpdate(s.locs, x, s'.locs[x]);
    }
  }

  lemma MainBalanced(m: Size, s: State, s': State, stop: bool)
    requires Inv(m, s) && MainStep(m, s, s', stop) && Balanced(s)
    ensures Balanced(s')
  {
    match s.main
    case Fill(i) =>
      if i < m { PopulationUpdate(s.locs, i, s'.locs[i]); assert LocOk(s, i); }
    case FillStore(i) => PopulationUpdate(s.locs, i, s'.locs[i]);
    case Swap =>
      if s.cells[Index(m, s.head)].Item? {
        SwapFindsOldest(m, s);
        PopulationUpdate(s.locs, s.cells[Index(m, s.head)].id, Taken);
      }
    case Bump(x) =>
      assert LocOk(s, x);
      PopulationUpdate(s.locs, x, s'.locs[x]);
    case Issue(x) =>
      assert LocOk(s, x);
      PopulationUpdate(s.locs, x, s'.locs[x]);
    case _ =>
  }

  lemma {:induction false} RunBalanced(m: Size, ss: seq<State>, k: nat)
    requires IsRun(m, ss) && k < |ss|
    ensures Balanced(ss[k])
  {
    if k == 0 {
      NobodyQueued(ss[0].locs);
    } else {
      RunBalanced(m, ss, k - 1);
      RunInv(m, ss, k - 1);
      hide Inv, Next, Balanced;
      assert Next(m, ss[k - 1], ss[k - 1 + 1]);
      NextBalanced(m, ss[k - 1], ss[k]);
    }
  }

  /** Slots are conserved: not yet pushed, with a call, between push and pop, in the
      worker's hands, and drained always add up to all of them. */
  lemma Conserved(m: Size, ss: seq<State>, k: nat)
    requires IsRun(m, ss) && k < |ss|
    ensures var locs := multiset(ss[k].locs);
      locs[Fresh] + locs[InFlight] + (|ss[k].order| - |ss[k].popped|) + locs[Taken] + ss[k].drained == m
  {
    RunInv(m, ss, k);
    RunBalanced(m, ss, k);
    PopulationSplits(ss[k].locs);
  }

  /** When the final drain ends no call is outstanding and the ring is empty. */
  lemma DrainedMeansIdle(m: Size, ss: seq<State>, k: nat)
    requires IsRun(m, ss) && k < |ss| && ss[k].main.Done?
    ensures |ss[k].locs| == m && forall x: nat :: x < m ==> ss[k].locs[x] == Drained
    ensures ss[k].popped == ss[k].order && ss[k].head == ss[k].pos
    ensures forall i :: 0 <= i < |ss[k].cells| ==> ss[k].cells[i] == Null
  {
    RunInv(m, ss, k);
    hide Inv, IsRun;
    DoneMeansIdle(m, ss[k]);
  }

  lemma DoneMeansIdle(m: Size, s: State)
    requires Inv(m, s) && s.main.Done?
    ensures |s.locs| == m && forall x: nat :: x < m ==> s.locs[x] == Drained
    ensures s.popped == s.order && s.head == s.pos
    ensures forall i :: 0 <= i < |s.cells| ==> s.cells[i] == Null
  {
    hide NextPow2, CellOf, Wrap32, LocsOk;
    assert s.heads < |s.order| ==> LiveOk(s, s.heads);
    assert forall i: nat :: i < |s.cells| && s.cells[i].Item? ==> s.cells[i].id < m && s.locs[s.cells[i].id].Stored?;
    FullMeansAll(s.locs, Drained);
    hide CellsOk, OrderOk;
  }

  // ----- progress -----

  function MainRank(m: Size, s: State): int {
    if s.draining then
      match s.main
      case Done => 0
      case Top => 1 + 4 * (m - s.drained)
      case Check => 4 * (m - s.drained)
      case Swap => 4 * (m - s.drained) - 1
      case _ => 4 * (m - s.drained) - 2
    else
      4 * m + 2 + match s.main
                  case Top => 0
                  case Issue(_) => 1
                  case Bump(_) => 2
                  case Swap => 3
                  case Check => 4
                  case Fill(i) => 5 + 2 * (m - i)
                  case FillStore(i) => 4 + 2 * (m - i)
                  case Done => 0
  }

  /** Half-pushes still owed by listeners. */
  function Owed(locs: seq<Loc>): nat {
    if locs == [] then 0
    else Owed(locs[..|locs| - 1]) + match locs[|locs| - 1] case InFlight => 2 case Reserved(_) => 1 case _ => 0
  }

  lemma {:induction false} OwedDrops(locs: seq<Loc>, x: nat, l: Loc)
    requires x < |locs|
    requires (locs[x].InFlight? && l.Reserved?) || (locs[x].Reserved? && l.Stored?)
    ensures Owed(locs[x := l]) == Owed(locs) - 1
  {
    var n := |locs| - 1;
    if x < n {
      OwedDrops(locs[..n], x, l);
      assert locs[x := l][..n] == locs[..n][x := l];
    } else {
      assert locs[x := l][..n] == locs[..n];
    }
  }

  /** The worker waits only for a listener that still owes a push: an empty ring
      leaves some call outstanding. */
  lemma EmptyMeansInFlight(m: Size, s: State) returns (x: nat)
    requires Inv(m, s) && s.main.Check? && s.heads == |s.order|
    ensures x < m && s.locs[x].InFlight?
  {
    hide NextPow2, CellOf, Wrap32;
    FullMeansAll(s.locs, Drained);
    if forall y: nat :: y < m ==> s.locs[y] == Drained {
      assert false;
    }
    x :| x < m && s.locs[x] != Drained;
    assert LocOk(s, x);
  }

  /** ... and an empty cell at the head belongs to a half-finished push. */
  lemma NullMeansReserved(m: Size, s: State) returns (x: nat)
    requires Inv(m, s) && s.main.Swap? && s.cells[Index(m, s.head)].Null?
    ensures x < m && s.locs[x].Reserved?
  {
    assert Index(m, s.head) == CellOf(m, s.heads);
    hide NextPow2, Index, CellOf, Wrap32;
    assert LiveOk(s, s.heads);
    x := s.order[s.heads];
  }

  ghost predicate IsPath(m: Size, ss: seq<State>) {
    |ss| > 0 && forall k :: 0 <= k < |ss| - 1 ==> Next(m, ss[k], ss[k + 1])
  }

  /** A step that brings the drain nearer. */
  lemma Nearer(m: Size, s: State) returns (s': State)
    requires Inv(m, s) && !s.main.Done?
    ensures Next(m, s, s')
    ensures 0 <= MainRank(m, s')
    ensures MainRank(m, s') < MainRank(m, s) || (MainRank(m, s') == MainRank(m, s) && Owed(s'.locs) < Owed(s.locs))
  {
    WordsCompare(m, s);
    if s.main.Check? && s.heads == |s.order| {
      var x := EmptyMeansInFlight(m, s);
      s' := Reserve(s, x);
      OwedDrops(s.locs, x, Reserved(|s.order|));
      assert ListenerStep(m, s, s', x);
    } else if s.main.Swap? && s.cells[Index(m, s.head)].Null? {
      var x := NullMeansReserved(m, s);
      s' := Store(m, s, x, s.locs[x].p);
      OwedDrops(s.locs, x, Stored(s.locs[x].p));
      assert ListenerStep(m, s, s', x);
    } else {
      s' := WorkerMoves(m, s);
    }
  }

  lemma WorkerMoves(m: Size, s: State) returns (s': State)
    requires Inv(m, s) && !s.main.Done?
    requires s.main.Check? ==> s.head != s.pos
    requires s.main.Swap? ==> s.cells[Index(m, s.head)].Item?
    ensures MainStep(m, s, s', true) && 0 <= MainRank(m, s') < MainRank(m, s)
  {
    FullMeansAll(s.locs, Drained);
    hide NextPow2, CellOf, Index, Wrap32, OrderOk, CellsOk, PopsOk;
    match s.main
    case Fill(i) => s' := if i < m then Reserve(s, i).(main := FillStore(i)) else s.(main := Top);
    case FillStore(i) =>
      assert LocOk(s, i);
      s' := Store(m, s, i, s.locs[i].p).(main := Fill(i + 1));
    case Top =>
      s' := if !s.draining then s.(draining := true) else s.(main := if s.drained < m then Check else Done);
    case Check => s' := s.(main := Swap);
    case Swap => s' := Take(s, Index(m, s.head), s.cells[Index(m, s.head)].id);
    case Bump(x) =>
      s' := (if s.draining then s.(main := Top, locs := s.locs[x := Drained], drained := s.drained + 1) else s.(main := Issue(x)))
            .(head := Wrap32(s.head + 1), heads := s.heads + 1);
    case Issue(x) => s' := s.(main := Top, locs := s.locs[x := InFlight]);
  }

  /** From every reachable state the worker can stop and the drain can end. */
  lemma {:induction false} CanDrain(m: Size, s: State) returns (ss: seq<State>)
    requires Inv(m, s) && 0 <= MainRank(m, s)
    ensures IsPath(m, ss) && ss[0] == s && ss[|ss| - 1].main.Done?
    decreases MainRank(m, s), Owed(s.locs)
  {
    hide Inv, Next, MainRank, Owed;
    if s.main.Done? {
      ss := [s];
    } else {
      var s' := Nearer(m, s);
      NextInv(m, s, s');
      var rest := CanDrain(m, s');
      ss := [s] + rest;
      forall k | 0 <= k < |ss| - 1
        ensures Next(m, ss[k], ss[k + 1])
      {
        if k > 0 { assert Next(m, rest[k - 1], rest[k - 1 + 1]); }
      }
    }
  }

  lemma EveryRunCanDrain(m: Size, run: seq<State>) returns (ss: seq<State>)
    requires IsRun(m, run)
    ensures IsPath(m, ss) && ss[0] == run[|run| - 1] && ss[|ss| - 1].main.Done?
  {
    var s := run[|run| - 1];
    RunInv(m, run, |run| - 1);
    FullMeansAll(s.locs, Drained);
    ss := CanDrain(m, s);
  }
}

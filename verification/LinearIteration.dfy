/** Linear iteration: reporting in steps of a fixed number of units, with the
    reporting level a signed 64-bit word. */
module LinearIteration {
  import opened Bits
  import opened SlotIndex
  import opened HistogramState
  import opened Percentile
  import opened Histogram
  import opened Iterators
  import opened CountsCodec

  type Level = x: int | 0 - TWO_63 <= x < TWO_63

  /** A positive step, as a 64-bit word. */
  type Units = x: int | 1 <= x < TWO_63 witness 1

  /** A sum of two words, or 2^63 itself, in two's complement. */
  function Signed64(x: int): Level
    requires 0 - TWO_63 <= x < TWO_64
  {
    if x < TWO_63 then x else x - TWO_64
  }

  // ----- one call, on values -----

  /** Lowest equivalent of any level: a negative one has all 64 bits in use, and its
      shift right rounds down. */
  function LowOf(c: Config, v: Level): int {
    HalfMagnitude(c);
    if v >= 0 then LowestEquivalent(c, v)
    else v / Pow2(63 - c.halfCountMagnitude) * Pow2(63 - c.halfCountMagnitude)
  }

  lemma HalfMagnitude(c: Config)
    ensures c.halfCountMagnitude <= 62 && c.countsLen >= 2
  {
    MulMono(2, c.bucketCount + 1, c.halfCount);
  }

  lemma LowOfNegative(c: Config, v: Level)
    requires v < 0
    ensures LowOf(c, v) <= v
  {
    hide Pow2, Valid;
    HalfMagnitude(c);
    DivMod(v, Pow2(63 - c.halfCountMagnitude));
  }

  /** Where the iteration stands: a slot (before the first: -1, past the last: their
      number), the next reporting level, and whether a raise of it ever overflowed. */
  datatype Walk = Walk(index: int, level: Level, overflow: bool)

  predicate Within(c: Config, w: Walk) {
    -1 <= w.index <= c.countsLen
  }

  /** The value the iterator shows: 0 before the first slot, the last one past the end. */
  function Shown(c: Config, index: int): nat
    requires -1 <= index <= c.countsLen
  {
    if index < 0 then 0 else if index < c.countsLen then ValueAtIndex(c, index) else ValueAtIndex(c, c.countsLen - 1)
  }

  /** Slots counted when standing at an index. */
  function Seen(len: nat, index: int): nat
    requires -1 <= index <= len
  {
    if index < len then index + 1 else len
  }

  predicate HasNext(xs: seq<int>, index: int)
    requires -1 <= index <= |xs|
  {
    Sum(xs[..Seen(|xs|, index)]) < Sum(xs)
  }

  /** The do-while loop: on from a slot until the level is reached, or past the end. */
  function Stroll(c: Config, index: int, low: int): (i: int)
    requires -1 <= index < c.countsLen
    ensures index <= i <= c.countsLen
    decreases c.countsLen - index
  {
    if Shown(c, index) >= low then index
    else if index + 1 == c.countsLen then c.countsLen
    else Stroll(c, index + 1, low)
  }

  lemma StrollStep(c: Config, index: int, low: int)
    requires -1 <= index < c.countsLen
    ensures Stroll(c, index, low) ==
      if Shown(c, index) >= low then index
      else if index + 1 == c.countsLen then c.countsLen else Stroll(c, index + 1, low)
  {
    hide Shown;
  }

  datatype Turn = Over | On(w: Walk)

  /** The start of the next slot, as the peek reads it. */
  function Peek(c: Config, index: int): Level
    requires -1 <= index < c.countsLen
  {
    hide ValueAtIndex, Limit;
    PeekFits(c, index + 1);
    Signed64(ValueAtIndex(c, index + 1))
  }

  lemma PeekFits(c: Config, i: nat)
    requires i <= c.countsLen
    ensures ValueAtIndex(c, i) <= Limit(c) <= TWO_63
  {
    hide ValueAtIndex, Limit;
    SlotsEndAtLimit(c);
    if i < c.countsLen { ValueAtIndexMonotone(c, i, c.countsLen); }
  }

  function Step(c: Config, xs: seq<int>, units: Units, w: Walk): (t: Turn)
    requires |xs| == c.countsLen && Within(c, w)
    ensures t.On? ==> Within(c, t.w) && w.index <= t.w.index && (w.overflow ==> t.w.overflow)
  {
    hide Sum, LowestEquivalent, ValueAtIndex;
    if w.index < c.countsLen && (HasNext(xs, w.index) || Peek(c, w.index) > LowOf(c, w.level)) then
      var i := Stroll(c, w.index, LowOf(c, w.level));
      if i == c.countsLen then On(w.(index := i))
      else On(Walk(i, Signed64(w.level + units), w.overflow || w.level + units >= TWO_63))
    else Over
  }

  lemma StepIs(c: Config, xs: seq<int>, units: Units, w: Walk)
    requires |xs| == c.countsLen && Within(c, w)
    ensures w.index < c.countsLen && (HasNext(xs, w.index) || Peek(c, w.index) > LowOf(c, w.level)) ==>
      var i := Stroll(c, w.index, LowOf(c, w.level));
      Step(c, xs, units, w) == On(if i == c.countsLen then w.(index := i)
        else Walk(i, Signed64(w.level + units), w.overflow || w.level + units >= TWO_63))
    ensures !(w.index < c.countsLen && (HasNext(xs, w.index) || Peek(c, w.index) > LowOf(c, w.level))) ==>
      Step(c, xs, units, w) == Over
  {
    hide HasNext, Peek, LowOf, Stroll;
  }

  /** After n calls, the last of which returned true; Over once one returned false. */
  function After(c: Config, xs: seq<int>, units: Units, n: nat): (t: Turn)
    requires |xs| == c.countsLen
    ensures t.On? ==> Within(c, t.w)
  {
    hide Step;
    if n == 0 then On(Walk(-1, units, false))
    else
      var t := After(c, xs, units, n - 1);
      if t.Over? then Over else Step(c, xs, units, t.w)
  }

  /** The iteration comes to its end, no level having overflowed on the way. */
  ghost predicate EndsClean(c: Config, xs: seq<int>, units: Units)
    requires |xs| == c.countsLen
  {
    exists n: nat :: CleanAt(c, xs, units, n) && After(c, xs, units, n + 1) == Over
  }

  ghost predicate CleanAt(c: Config, xs: seq<int>, units: Units, n: nat)
    requires |xs| == c.countsLen
  {
    After(c, xs, units, n).On? && !After(c, xs, units, n).w.overflow
  }

  // ----- the last level -----

  /** The first multiple of the units at or past x. */
  function FirstMultiple(units: Units, x: nat): (r: nat)
    requires x > 0
    ensures r % units == 0 && x <= r < x + units && units <= r
  {
    MultipleAt(units, x);
    ((x - 1) / units + 1) * units
  }

  lemma MultipleAt(units: int, x: nat)
    requires x > 0 && units > 0
    ensures var r := ((x - 1) / units + 1) * units; r % units == 0 && x <= r < x + units && units <= r
  {
    var q := (x - 1) / units;
    DivMod(x - 1, units);
    QuotientNat(x - 1, units);
    MulSucc(q, units);
    MulMono(0, q, units);
    DivModUnique((q + 1) * units, units, q + 1, 0);
  }

  /** Two multiples are a step apart at least. */
  lemma MultipleGap(units: int, a: nat, b: nat)
    requires units > 0 && a % units == 0 && b % units == 0 && a < b
    ensures a + units <= b
  {
    DivMod(a, units);
    DivMod(b, units);
    if a / units >= b / units { MulMono(b / units, a / units, units); }
    MulMono(a / units + 1, b / units, units);
    MulSucc(a / units, units);
  }

  lemma NextMultiple(units: int, a: nat)
    requires units > 0 && a % units == 0
    ensures (a + units) % units == 0
  {
    DivMod(a, units);
    MulSucc(a / units, units);
    DivModUnique(a + units, units, a / units + 1, 0);
  }

  /** The slot the walk must get to: the last used one, and at least the first. */
  function Goal(xs: seq<int>): (m: nat)
    ensures m >= 1
  {
    var last := LastUsed(xs);
    if last < 1 then 1 else last
  }

  function GoalLevel(c: Config, xs: seq<int>, units: Units): nat
    requires |xs| == c.countsLen
  {
    hide ValueAtIndex;
    SlotPositive(c, Goal(xs));
    FirstMultiple(units, ValueAtIndex(c, Goal(xs)))
  }

  lemma SlotPositive(c: Config, i: nat)
    requires i >= 1
    ensures ValueAtIndex(c, i) > 0
  {
    hide ValueAtIndex;
    ValueAtIndexMonotone(c, 0, i);
  }

  /** The largest level the iteration computes, over unbounded numbers: the first
      multiple of the units in or past the goal; if inside the array also the first
      past that multiple's slot, or one step on when that slot ends at 2^63. */
  function TopLevel(c: Config, xs: seq<int>, units: Units): nat
    requires |xs| == c.countsLen
  {
    hide ValueAtIndex, IndexFor, Limit;
    var l := GoalLevel(c, xs, units);
    if LastUsed(xs) < 0 then units
    else if l >= Limit(c) then l
    else
      SlotPositive(c, IndexFor(c, l) + 1);
      var end := ValueAtIndex(c, IndexFor(c, l) + 1);
      if end == TWO_63 then l + units else FirstMultiple(units, end)
  }

  // ----- how levels and slots compare -----

  /** A level is at or past a slot's start exactly when its own slot is. */
  lemma SlotOrder(c: Config, i: nat, v: nat)
    ensures ValueAtIndex(c, i) <= v <==> i <= IndexFor(c, v)
  {
    hide IndexFor, ValueAtIndex;
    var j := IndexFor(c, v);
    IndexCharacterization(c, v, j);
    if i < j { ValueAtIndexMonotone(c, i, j); }
    if j + 1 < i { ValueAtIndexMonotone(c, j + 1, i); }
  }

  lemma LowIsSlotStart(c: Config, v: Level)
    requires v >= 0
    ensures LowOf(c, v) == ValueAtIndex(c, IndexFor(c, v))
  {
    hide IndexFor, ValueAtIndex, LowestEquivalent;
    EquivalentRange(c, v);
  }

  lemma ShownReaches(c: Config, index: int, v: Level)
    requires v >= 0 && -1 <= index < c.countsLen
    ensures Shown(c, index) >= LowOf(c, v) <==> IndexFor(c, v) <= (if index < 0 then 0 else index)
  {
    hide IndexFor, ValueAtIndex, LowOf;
    LowIsSlotStart(c, v);
    ZeroInSlotZero(c);
    var i := if index < 0 then 0 else index;
    var j := IndexFor(c, v);
    if i < j { ValueAtIndexMonotone(c, i, j); }
    if j < i { ValueAtIndexMonotone(c, j, i); }
  }

  /** The walk stays where the level's slot is already reached, else goes to it, or
      past the end. */
  lemma {:induction false} StrollIs(c: Config, index: int, v: Level)
    requires v >= 0 && -1 <= index < c.countsLen
    ensures Stroll(c, index, LowOf(c, v)) ==
      if IndexFor(c, v) <= (if index < 0 then 0 else index) then index
      else if IndexFor(c, v) < c.countsLen then IndexFor(c, v) else c.countsLen
    decreases c.countsLen - index
  {
    hide IndexFor, ValueAtIndex, LowOf, Shown;
    ShownReaches(c, index, v);
    if IndexFor(c, v) > (if index < 0 then 0 else index) && index + 1 < c.countsLen {
      StrollIs(c, index + 1, v);
    }
  }

  /** Counts remain exactly before the last used slot. */
  lemma HasNextIff(xs: seq<int>, index: int)
    requires -1 <= index <= |xs| && forall i :: 0 <= i < |xs| ==> xs[i] >= 0
    ensures HasNext(xs, index) <==> index < LastUsed(xs)
  {
    hide Sum;
    var k, last := Seen(|xs|, index), LastUsed(xs);
    assert xs[..|xs|] == xs;
    SumPrefixMono(xs, k, |xs|);
    if index < last {
      SumPrefixMono(xs, k, last);
      SumPrefixStep(xs, last);
      SumPrefixMono(xs, last + 1, |xs|);
    } else {
      RestSumsToNothing(xs, k, |xs|);
    }
  }

  lemma {:induction false} RestSumsToNothing(xs: seq<int>, k: nat, n: nat)
    requires k <= n <= |xs| && forall i :: k <= i < n ==> xs[i] == 0
    ensures Sum(xs[..n]) == Sum(xs[..k])
    decreases n
  {
    hide Sum;
    if k < n {
      RestSumsToNothing(xs, k, n - 1);
      SumPrefixStep(xs, n - 1);
    }
  }

  ghost predicate NonNegative(xs: seq<int>) {
    forall i :: 0 <= i < |xs| ==> xs[i] >= 0
  }

  lemma GoalInArray(c: Config, xs: seq<int>)
    requires |xs| == c.countsLen
    ensures 1 <= Goal(xs) < c.countsLen
  {
    HalfMagnitude(c);
  }

  // ----- what holds while no level has overflowed -----

  ghost predicate Sound(c: Config, xs: seq<int>, units: Units, w: Walk)
    requires |xs| == c.countsLen
  {
    var l := GoalLevel(c, xs, units);
    && Within(c, w) && !w.overflow && w.level >= units && w.level % units == 0 && w.index != 0
    && (if w.index < Goal(xs) then w.level <= l
        else if w.index < c.countsLen then w.index == IndexFor(c, l) && l < w.level <= TopLevel(c, xs, units)
        else w.level == l >= Limit(c))
  }

  lemma StartIsSound(c: Config, xs: seq<int>, units: Units)
    requires |xs| == c.countsLen
    ensures Sound(c, xs, units, Walk(-1, units, false))
  {
    hide ValueAtIndex, IndexFor, Limit;
    GoalInArray(c, xs);
    DivModUnique(units, units, 1, 0);
  }

  lemma TopAtLeastGoal(c: Config, xs: seq<int>, units: Units)
    requires |xs| == c.countsLen && LastUsed(xs) >= 0
    ensures var l := GoalLevel(c, xs, units);
      && TopLevel(c, xs, units) >= l && l % units == 0 && l >= units
      && (l < Limit(c) ==> l + units <= TopLevel(c, xs, units) && Goal(xs) <= IndexFor(c, l) < c.countsLen)
      && ValueAtIndex(c, Goal(xs)) <= l
  {
    hide ValueAtIndex, IndexFor, Limit;
    var l := GoalLevel(c, xs, units);
    SlotPositive(c, Goal(xs));
    if l < Limit(c) {
      AcceptedIff(c, l);
      SlotOrder(c, Goal(xs), l);
      SlotOrder(c, IndexFor(c, l) + 1, l);
      SlotPositive(c, IndexFor(c, l) + 1);
      var end := ValueAtIndex(c, IndexFor(c, l) + 1);
      if end != TWO_63 { MultipleGap(units, l, FirstMultiple(units, end)); }
    }
  }

  /** From before the goal: the level stays at most the goal's, and the walk gets to
      the goal only with the goal's level. */
  lemma BeforeGoal(c: Config, xs: seq<int>, units: Units, w: Walk)
    requires |xs| == c.countsLen && NonNegative(xs) && LastUsed(xs) >= 0
    requires Sound(c, xs, units, w) && w.index < Goal(xs)
    ensures var t := Step(c, xs, units, w);
      && t.On? && (t.w.overflow <==> t.w.level != w.level && w.level + units >= TWO_63)
      && w.level + (if t.w.index < c.countsLen then units else 0) <= TopLevel(c, xs, units)
      && (!t.w.overflow ==> Sound(c, xs, units, t.w))
      && (t.w.index > w.index || t.w.level != w.level)
  {
    hide ValueAtIndex, IndexFor, Limit, LowOf, HasNext, GoalLevel, TopLevel, Stroll, Peek;
    var l, m, j := GoalLevel(c, xs, units), Goal(xs), IndexFor(c, w.level);
    GoalInArray(c, xs);
    HasNextIff(xs, w.index);
    StrollIs(c, w.index, w.level);
    TopAtLeastGoal(c, xs, units);
    AcceptedIff(c, w.level);
    NextMultiple(units, w.level);
    SlotOrder(c, m, w.level);
    if w.level < l { MultipleGap(units, w.level, l); }
    BelowGoal(c, xs, units, w.level);
  }

  /** A smaller multiple than the goal's level is in an earlier slot than the goal. */
  lemma BelowGoal(c: Config, xs: seq<int>, units: Units, v: nat)
    requires |xs| == c.countsLen && v % units == 0
    ensures v < GoalLevel(c, xs, units) <==> v < ValueAtIndex(c, Goal(xs))
  {
    hide ValueAtIndex;
    SlotPositive(c, Goal(xs));
    if ValueAtIndex(c, Goal(xs)) <= v < GoalLevel(c, xs, units) {
      MultipleGap(units, v, GoalLevel(c, xs, units));
    }
  }

  /** From the goal on: raises go on exactly below the top level. */
  lemma PastGoal(c: Config, xs: seq<int>, units: Units, w: Walk)
    requires |xs| == c.countsLen && NonNegative(xs) && LastUsed(xs) >= 0
    requires Sound(c, xs, units, w) && w.index >= Goal(xs)
    ensures var t := Step(c, xs, units, w);
      && (t.Over? <==> w.level == TopLevel(c, xs, units))
      && (t.On? ==>
            && t.w == Walk(w.index, Signed64(w.level + units), w.level + units >= TWO_63)
            && w.level + units <= TopLevel(c, xs, units)
            && (!t.w.overflow ==> Sound(c, xs, units, t.w)))
  {
    hide ValueAtIndex, IndexFor, Limit, LowOf, HasNext, GoalLevel, Stroll;
    HasNextIff(xs, w.index);
    TopAtLeastGoal(c, xs, units);
    if w.index < c.countsLen {
      PeekBelowTop(c, xs, units, w);
      StrollIs(c, w.index, w.level);
      NextMultiple(units, w.level);
    }
  }

  lemma PeekBelowTop(c: Config, xs: seq<int>, units: Units, w: Walk)
    requires |xs| == c.countsLen && LastUsed(xs) >= 0
    requires Sound(c, xs, units, w) && Goal(xs) <= w.index < c.countsLen
    ensures Peek(c, w.index) > LowOf(c, w.level) <==> w.level < TopLevel(c, xs, units)
    ensures w.level < TopLevel(c, xs, units) ==>
      IndexFor(c, w.level) <= w.index && w.level + units <= TopLevel(c, xs, units)
  {
    hide ValueAtIndex, IndexFor, Limit, LowOf, GoalLevel;
    var l, i := GoalLevel(c, xs, units), w.index;
    TopAtLeastGoal(c, xs, units);
    PeekFits(c, i + 1);
    SlotPositive(c, i + 1);
    LowIsSlotStart(c, w.level);
    SlotOrder(c, i + 1, w.level);
    var j, end := IndexFor(c, w.level), ValueAtIndex(c, i + 1);
    if l >= Limit(c) {
      AcceptedIff(c, l);
    }
    if end == TWO_63 {
      SlotStartsPositive(c, j);
      if w.level < TopLevel(c, xs, units) { MultipleGap(units, l, w.level); }
    } else {
      var top := FirstMultiple(units, end);
      if j < i + 1 { ValueAtIndexMonotone(c, j, i + 1); }
      if i + 1 < j { ValueAtIndexMonotone(c, i + 1, j); }
      if w.level < top { MultipleGap(units, w.level, top); }
    }
  }

  lemma SlotStartsPositive(c: Config, j: nat)
    ensures ValueAtIndex(c, j) >= 0
  {
  }

  // ----- when a level overflows -----

  lemma {:induction false} SoundUntilOverflow(c: Config, xs: seq<int>, units: Units, n: nat)
    requires |xs| == c.countsLen && NonNegative(xs) && LastUsed(xs) >= 0 && CleanAt(c, xs, units, n)
    ensures Sound(c, xs, units, After(c, xs, units, n).w)
  {
    hide Sound, Step, TopLevel;
    if n == 0 {
      StartIsSound(c, xs, units);
    } else {
      SoundUntilOverflow(c, xs, units, n - 1);
      StepFrom(c, xs, units, After(c, xs, units, n - 1).w);
    }
  }

  /** One call from a sound place: it ends the iteration at the top level, moves on
      soundly, or overflows because the top level is out of range. */
  lemma StepFrom(c: Config, xs: seq<int>, units: Units, w: Walk)
    requires |xs| == c.countsLen && NonNegative(xs) && LastUsed(xs) >= 0 && Sound(c, xs, units, w)
    ensures w.level <= TopLevel(c, xs, units)
    ensures var t := Step(c, xs, units, w);
      if t.Over? then w.level == TopLevel(c, xs, units) && w.index >= Goal(xs)
      else if t.w.overflow then TopLevel(c, xs, units) >= TWO_63
      else Sound(c, xs, units, t.w) && (w.index < t.w.index || (w.index == t.w.index && w.level < t.w.level))
  {
    hide Step, TopLevel, IndexFor, ValueAtIndex, GoalLevel, Limit;
    TopAtLeastGoal(c, xs, units);
    if w.index < Goal(xs) {
      BeforeGoal(c, xs, units, w);
      RaisedOnly(c, xs, units, w);
    } else {
      PastGoal(c, xs, units, w);
    }
  }

  lemma RaisedOnly(c: Config, xs: seq<int>, units: Units, w: Walk)
    requires |xs| == c.countsLen && Within(c, w)
    ensures var t := Step(c, xs, units, w);
      t.On? ==>
        && w.index < c.countsLen
        && (if t.w.index == c.countsLen then t.w.level == w.level && t.w.overflow == w.overflow
            else && t.w.level == Signed64(w.level + units)
                 && t.w.overflow == (w.overflow || w.level + units >= TWO_63))
  {
    hide Sum, LowOf, ValueAtIndex;
  }

  ghost predicate Overflows(c: Config, xs: seq<int>, units: Units)
    requires |xs| == c.countsLen
  {
    exists n: nat :: OverflowAt(c, xs, units, n)
  }

  ghost predicate OverflowAt(c: Config, xs: seq<int>, units: Units, n: nat)
    requires |xs| == c.countsLen
  {
    After(c, xs, units, n).On? && After(c, xs, units, n).w.overflow
  }

  /** From any clean place the iteration goes on to its end, or to an overflow. */
  lemma {:induction false} EndsOrOverflows(c: Config, xs: seq<int>, units: Units, n: nat)
    requires |xs| == c.countsLen && NonNegative(xs) && LastUsed(xs) >= 0 && CleanAt(c, xs, units, n)
    ensures EndsClean(c, xs, units) || Overflows(c, xs, units)
    decreases c.countsLen - After(c, xs, units, n).w.index, TopLevel(c, xs, units) - After(c, xs, units, n).w.level
  {
    hide Sound, Step, TopLevel;
    var w := After(c, xs, units, n).w;
    SoundUntilOverflow(c, xs, units, n);
    StepFrom(c, xs, units, w);
    var t := After(c, xs, units, n + 1);
    assert t == Step(c, xs, units, w);
    if t.Over? {
      assert CleanAt(c, xs, units, n) && After(c, xs, units, n + 1) == Over;
    } else if t.w.overflow {
      assert OverflowAt(c, xs, units, n + 1);
    } else {
      StepFrom(c, xs, units, t.w) by { SoundUntilOverflow(c, xs, units, n + 1); }
      EndsOrOverflows(c, xs, units, n + 1);
    }
  }

  lemma {:induction false} OverflowMeansTop(c: Config, xs: seq<int>, units: Units, n: nat)
    requires |xs| == c.countsLen && NonNegative(xs) && LastUsed(xs) >= 0 && OverflowAt(c, xs, units, n)
    ensures TopLevel(c, xs, units) >= TWO_63
  {
    hide Sound, Step, TopLevel;
    if OverflowAt(c, xs, units, n - 1) {
      OverflowMeansTop(c, xs, units, n - 1);
    } else {
      SoundUntilOverflow(c, xs, units, n - 1);
      StepFrom(c, xs, units, After(c, xs, units, n - 1).w);
    }
  }

  lemma EmptyEndsAtOnce(c: Config, xs: seq<int>, units: Units)
    requires |xs| == c.countsLen && NonNegative(xs) && LastUsed(xs) < 0
    ensures After(c, xs, units, 1) == Over
  {
    hide ValueAtIndex, IndexFor, Limit, LowOf, HasNext;
    HasNextIff(xs, -1);
    ZeroInSlotZero(c);
    LowIsSlotStart(c, units);
  }

  lemma {:induction false} OverStays(c: Config, xs: seq<int>, units: Units, k: nat, n: nat)
    requires |xs| == c.countsLen && k <= n && After(c, xs, units, k) == Over
    ensures After(c, xs, units, n) == Over
    decreases n
  {
    hide Step;
    if k < n { OverStays(c, xs, units, k, n - 1); }
  }

  /** A linear iteration ends with every level in range exactly when the top level
      is below 2^63, and otherwise some raise of the level overflows. */
  lemma LinearEndsIff(c: Config, xs: seq<int>, units: Units)
    requires |xs| == c.countsLen && NonNegative(xs)
    ensures EndsClean(c, xs, units) <==> TopLevel(c, xs, units) < TWO_63
    ensures Overflows(c, xs, units) <==> TopLevel(c, xs, units) >= TWO_63
  {
    hide Step, IndexFor, ValueAtIndex, Limit, GoalLevel;
    assert CleanAt(c, xs, units, 0);
    if LastUsed(xs) < 0 {
      EmptyEndsAtOnce(c, xs, units);
      assert After(c, xs, units, 0 + 1) == Over;
      forall n: nat ensures !OverflowAt(c, xs, units, n) {
        if n > 0 { OverStays(c, xs, units, 1, n); }
      }
    } else {
      EndsOrOverflows(c, xs, units, 0);
      NotBoth(c, xs, units);
    }
  }

  lemma NotBoth(c: Config, xs: seq<int>, units: Units)
    requires |xs| == c.countsLen && NonNegative(xs) && LastUsed(xs) >= 0
    ensures EndsClean(c, xs, units) ==> TopLevel(c, xs, units) < TWO_63
    ensures Overflows(c, xs, units) ==> TopLevel(c, xs, units) >= TWO_63
  {
    hide Step, Sound, TopLevel;
    if EndsClean(c, xs, units) {
      var n: nat :| CleanAt(c, xs, units, n) && After(c, xs, units, n + 1) == Over;
      SoundUntilOverflow(c, xs, units, n);
      StepFrom(c, xs, units, After(c, xs, units, n).w);
    }
    if Overflows(c, xs, units) {
      var n: nat :| OverflowAt(c, xs, units, n);
      OverflowMeansTop(c, xs, units, n);
    }
  }

  /** Below the widest range no iteration can overflow, whatever the units. */
  lemma SmallRangeFits(c: Config, xs: seq<int>, units: Units)
    requires |xs| == c.countsLen && Limit(c) < TWO_63
    ensures TopLevel(c, xs, units) < TWO_63
  {
    hide IndexFor, ValueAtIndex, Limit, Valid, FirstMultiple, LastUsed;
    HalfLimit(c);
    GoalInArray(c, xs);
    SlotsEndAtLimit(c);
    ValueAtIndexMonotone(c, Goal(xs), c.countsLen);
    var l := GoalLevel(c, xs, units);
    MultipleCap(units, ValueAtIndex(c, Goal(xs)));
    if LastUsed(xs) >= 0 && l < Limit(c) {
      AcceptedIff(c, l);
      PeekFits(c, IndexFor(c, l) + 1);
      SlotPositive(c, IndexFor(c, l) + 1);
      MultipleCap(units, ValueAtIndex(c, IndexFor(c, l) + 1));
    }
  }

  lemma HalfLimit(c: Config)
    requires Limit(c) < TWO_63
    ensures 2 * Limit(c) <= TWO_63
  {
    hide Limit, Valid;
    LimitIsPow2(c);
    var e := c.unitMagnitude + c.halfCountMagnitude + c.bucketCount;
    Pow2Constants();
    if e >= 63 { Pow2Mono(63, e); }
    Pow2Mono(e + 1, 63);
  }

  /** The first multiple is the step itself or less than twice its bound. */
  lemma MultipleCap(units: Units, x: nat)
    requires x > 0
    ensures FirstMultiple(units, x) == units || FirstMultiple(units, x) < 2 * x
  {
    var r := FirstMultiple(units, x);
    if units >= x && r > units {
      DivModUnique(units, units, 1, 0);
      MultipleGap(units, units, r);
    }
  }

  // ----- an iteration that never ends -----

  const TWO_62: nat := 0x4000_0000_0000_0000

  /** With every 63-bit value recordable, 2^62 starts a slot that ends below 2^63. */
  lemma MiddleSlot(c: Config) returns (i: nat)
    requires Limit(c) == TWO_63
    ensures 0 < i < c.countsLen && ValueAtIndex(c, i) == TWO_62 < ValueAtIndex(c, i + 1) < TWO_63
    ensures IndexFor(c, TWO_62) == i
  {
    hide IndexFor, ValueAtIndex, Limit, Valid, LowestValue, Pow2;
    i := MiddleIndex(c);
    MiddleValue(c);
    ValueAtSlot(c, c.bucketCount - 1, c.halfCount);
    SlotsEndAtLimit(c);
    ValueAtIndexMonotone(c, i, i + 1);
    ValueAtIndexMonotone(c, i + 1, c.countsLen);
    IndexOfValueAt(c, i);
  }

  lemma MiddleIndex(c: Config) returns (i: nat)
    ensures c.bucketCount >= 1 && i == (c.bucketCount - 1) * c.halfCount + c.halfCount
    ensures 0 < i && i + 1 < c.countsLen && 0 <= c.halfCount < c.subBucketCount
  {
    var b, half := c.bucketCount, c.halfCount;
    AtLeastSixteen(c);
    HalfOfCount(c);
    MulSucc(b - 1, half);
    MulSucc(b, half);
    MulMono(1, b, half);
    i := b * half;
  }

  lemma MiddleValue(c: Config)
    requires Limit(c) == TWO_63
    ensures LowestValue(c, c.bucketCount - 1, c.halfCount) == TWO_62
  {
    hide Limit;
    LimitIsPow2(c);
    var h, e := c.halfCountMagnitude, c.bucketCount - 1 + c.unitMagnitude;
    Pow2Add(h, e);
    assert Pow2(h + e + 1) == 2 * Pow2(h + e);
  }

  lemma AtLeastSixteen(c: Config)
    ensures c.halfCount >= 16
  {
    PowTenMono(1, c.significantFigures);
    assert Pow10(1) == 10 && Pow2(4) == 16;
    if c.halfCountMagnitude < 4 {
      Pow2Mono(c.halfCountMagnitude + 1, 4);
    } else {
      Pow2Mono(4, c.halfCountMagnitude);
    }
  }

  /** The levels that follow one another once the first raise has overflowed. */
  predicate OnCycle(v: Level) {
    v == TWO_62 || v == 0 - TWO_63 || v == 0 - TWO_62 || v == 0
  }

  /** With every 63-bit value recordable and something recorded, units of 2^62 never
      come to an end: each call returns true at the slot of 2^62, the level going
      round, so that counts in later slots are never reached. */
  lemma {:induction false} NeverEnds(c: Config, xs: seq<int>, n: nat)
    requires |xs| == c.countsLen && NonNegative(xs) && LastUsed(xs) >= 0
    requires Limit(c) == TWO_63 && n >= 1
    ensures var t := After(c, xs, TWO_62, n);
      t.On? && t.w.overflow && OnCycle(t.w.level) && t.w.index == IndexFor(c, TWO_62) < c.countsLen
  {
    hide ValueAtIndex, IndexFor, Limit, LowOf, HasNext, Stroll;
    var i := MiddleSlot(c);
    if n == 1 {
      HasNextIff(xs, -1);
      StrollIs(c, -1, TWO_62);
      assert After(c, xs, TWO_62, 0) == On(Walk(-1, TWO_62, false));
    } else {
      NeverEnds(c, xs, n - 1);
      var w := After(c, xs, TWO_62, n - 1).w;
      assert LowOf(c, w.level) <= TWO_62 by {
        if w.level < 0 { LowOfNegative(c, w.level); } else { LowAtMost(c, w.level); }
      }
      StrollStep(c, w.index, LowOf(c, w.level));
    }
  }

  lemma LowAtMost(c: Config, v: Level)
    requires v >= 0
    ensures LowOf(c, v) <= v
  {
    hide ValueAtIndex, IndexFor;
    LowIsSlotStart(c, v);
    SlotOrder(c, IndexFor(c, v), v);
  }

  /** For example the layout made for 1, INT64_MAX and one figure, with 3 recorded. */
  lemma NeverEndsExample(n: nat)
    requires n >= 1
    ensures Valid(Widest()) && var c: Config := Widest(); var xs := Record(c, Empty(c), 3, 1).counts;
      After(c, xs, TWO_62, n).On? && OverflowAt(c, xs, TWO_62, n)
  {
    WidestIsValid();
    hide Limit, SlotIndex.Valid, Step, Record;
    var c: Config := Widest();
    RecordOne(c, 3);
    var s := Record(c, Empty(c), 3, 1);
    RecordedIsUsed(c, s);
    NeverEnds(c, s.counts, n);
  }

  lemma RecordedIsUsed(c: Config, s: State)
    requires Consistent(c, s) && s.total > 0
    ensures NonNegative(s.counts) && LastUsed(s.counts) >= 0
  {
    hide SlotIndex.Valid, ValueAtIndex, HighestEquivalent, LowestEquivalent;
    assert s.counts[..|s.counts|] == s.counts;
    if LastUsed(s.counts) < 0 {
      RestSumsToNothing(s.counts, 0, |s.counts|);
    }
  }

  // ----- the iterator -----

  class LinearIter {
    const h: Histogram
    const base: Iter
    const units: Units
    var added: int
    var level: Level
    var levelLow: int
    ghost var overflow: bool

    ghost predicate Valid()
      reads this, base, h, h.counts
    {
      && base.h == h && base.Valid()
      && levelLow == LowOf(h.c, level)
      && base.value == Shown(h.c, base.countsIndex)
    }

    /** Where it stands. */
    ghost function At(): (w: Walk)
      requires Valid()
      reads this, base, h, h.counts
      ensures Within(h.c, w)
    {
      Walk(base.countsIndex, level, overflow)
    }

    constructor (h: Histogram, units: Units)
      requires Counted(h)
      ensures Valid() && fresh(base) && this.h == h && this.units == units && base.cumulative == 0
      ensures At() == Walk(-1, units, false)
    {
      hide LowestEquivalent, ValueAtIndex;
      var b := new Iter(h);
      this.h, base, this.units := h, b, units;
      added, level, levelLow, overflow := 0, units, LowOf(h.c, units), false;
    }

    /** One reporting step is one turn of the walk, and the counts it adds are those
        of the slots it walked. */
    method Next() returns (more: bool)
      requires Valid()
      modifies this, base
      ensures Valid()
      ensures Step(h.c, h.counts[..], units, old(At())) == if more then On(At()) else Over
      ensures added == base.cumulative - old(base.cumulative)
      ensures !more ==> At() == old(At())
    {
      hide LowOf, ValueAtIndex, Limit, Sum, SlotIndex.Valid, Stroll, HasNext, Step, Counted, Peek;
      ghost var xs, w := h.counts[..], At();
      SeenSums();
      StepIs(h.c, xs, units, w);
      HalfMagnitude(h.c);
      added := 0;
      if base.cumulative < base.totalCount ||
         (base.countsIndex < h.counts.Length && Peek(h.c, base.countsIndex) > levelLow)
      {
        while true
          invariant Valid() && base.countsIndex < h.counts.Length
          invariant Stroll(h.c, w.index, levelLow) == Stroll(h.c, base.countsIndex, levelLow)
          invariant added == base.cumulative - old(base.cumulative)
          invariant level == w.level && overflow == w.overflow
          decreases h.counts.Length - base.countsIndex
        {
          StrollStep(h.c, base.countsIndex, levelLow);
          if base.value >= levelLow {
            overflow := overflow || level + units >= TWO_63;
            level := Signed64(level + units);
            levelLow := LowOf(h.c, level);
            return true;
          }
          var moved := base.MoveNext();
          if !moved {
            return true;
          }
          added := added + base.count;
        }
      }
      return false;
    }

    lemma SeenSums()
      requires Valid()
      ensures Counted(h) && h.counts.Length == h.c.countsLen
      ensures base.cumulative < base.totalCount <==> HasNext(h.counts[..], base.countsIndex)
      ensures base.countsIndex >= h.counts.Length ==> base.cumulative == h.total
    {
      var xs := h.counts[..];
      assert xs[..base.Seen()] == h.counts[..base.Seen()];
      assert xs[..|xs|] == xs;
    }
  }

  lemma EndCountsAll(iter: LinearIter)
    requires iter.Valid() && Step(iter.h.c, iter.h.counts[..], iter.units, iter.At()).Over?
    ensures iter.base.cumulative == iter.h.total
  {
    hide LowOf, ValueAtIndex, Limit, Sum, SlotIndex.Valid;
    var xs := iter.h.counts[..];
    iter.SeenSums();
    SumPrefixMono(xs, iter.base.Seen(), |xs|);
    assert xs[..iter.base.Seen()] == iter.h.counts[..iter.base.Seen()];
    assert xs[..|xs|] == xs;
  }

  /** Runs an iteration to its end, giving up when a raise turns the level negative:
      it ends exactly when the top level is below 2^63, and then the steps account
      for every count. */
  method LinearSteps(h: Histogram, units: Units) returns (steps: seq<int>, ended: bool)
    requires Counted(h)
    ensures ended <==> TopLevel(h.c, h.counts[..], units) < TWO_63
    ensures ended ==> Sum(steps) == h.total
  {
    hide LowOf, ValueAtIndex, Limit, Step, TopLevel, Sound;
    ghost var xs := h.counts[..];
    ghost var n: nat := 0;
    LinearEndsIff(h.c, xs, units);
    var iter := new LinearIter(h, units);
    steps := [];
    while true
      invariant iter.Valid() && iter.h == h && iter.units == units && fresh(iter) && fresh(iter.base)
      invariant iter.level >= 0 && !iter.overflow
      invariant Sum(steps) == iter.base.cumulative
      invariant After(h.c, xs, units, n) == On(iter.At())
      decreases h.counts.Length - iter.base.countsIndex, TWO_63 - iter.level
    {
      ghost var was := iter.At();
      RaisedOnly(h.c, xs, units, was);
      var more := iter.Next();
      assert CleanAt(h.c, xs, units, n) && After(h.c, xs, units, n + 1) == Step(h.c, xs, units, was);
      if !more {
        assert EndsClean(h.c, xs, units);
        EndCountsAll(iter);
        return steps, true;
      }
      n := n + 1;
      assert (steps + [iter.added])[..|steps|] == steps;
      steps := steps + [iter.added];
      if iter.level < 0 {
        assert OverflowAt(h.c, xs, units, n);
        return steps, false;
      }
    }
  }
}

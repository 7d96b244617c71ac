/** The stack-machine parser accepts exactly the grammar, and gives each text the bins
    its syntax tree stands for. */
module SpecAccepts {
  import opened Bits
  import opened Sequences
  import opened SpecSyntax
  import opened SpecGrammar
  import opened SpecParser

  // ----- the pieces of a text -----

  /** Text that starts with a type letter or an opening bracket. */
  predicate Letter(t: string) {
    t != [] && t[0] in {'b', 'I', 'S', 'B', 'D', '[', '{'}
  }

  predicate Start(t: string) {
    t != [] && (Digit(t[0]) || t[0] in {'b', 'I', 'S', 'B', 'D', '[', '{'})
  }

  lemma GapSkipped(gap: bool, t: string)
    requires Peek(t) != ' '
    ensures SkipSpace(GapThen(gap, t)) == t
  {
    if gap { DropFirst(' ', t); }
  }

  /** What one optional space leaves. */
  lemma GapFound(t: string) returns (gap: bool)
    ensures t == GapThen(gap, SkipSpace(t))
  {
    gap := Peek(t) == ' ';
    if gap { assert t == [' '] + t[1..]; }
  }

  lemma FormStarts(f: Form, t: string)
    ensures Letter(FormThen(f, t))
  {
  }

  lemma ElemStarts(e: Elem, t: string)
    requires LegalElem(e)
    ensures Start(ElemThen(e, t))
  {
    FormStarts(e.form, t);
  }

  lemma ItemsStart(items: Items, t: string)
    requires LegalItems(items)
    ensures Start(ItemsThen(items, t))
  {
    hide ElemThen, Start;
    match items
    case LastItem(e, comma, gap) => ElemStarts(e, if comma then "," + GapThen(gap, t) else GapThen(gap, t));
    case MoreItems(e, gap, rest) => ElemStarts(e, "," + GapThen(gap, ItemsThen(rest, t)));
  }

  lemma PairsStart(pairs: Pairs, t: string)
    requires LegalPairs(pairs)
    ensures Start(PairsThen(pairs, t))
  {
    hide ElemThen, Start;
    match pairs
    case LastPair(p, gap) => EntryStarts(p, GapThen(gap, t));
    case MorePairs(p, before, after, rest) => EntryStarts(p, GapThen(before, "," + GapThen(after, PairsThen(rest, t))));
  }

  lemma EntryStarts(p: Entry, t: string)
    requires LegalElem(p.key)
    ensures Start(EntryThen(p, t))
  {
    hide ElemThen, Start;
    ElemStarts(p.key, GapThen(p.before, ":" + GapThen(p.after, ElemThen(p.val, t))));
  }

  // ----- multipliers -----

  lemma DigitsRead(ds: string, t: string)
    requires Digits(ds) && Value(ds) < TWO_64 && !Digit(Peek(t))
    ensures StrToUL(ds + t) == Number(Value(ds), false, t)
  {
    hide Scan, Value;
    ScanDigits(ds, t);
  }

  lemma TimesRead(x: Times, t: string, f: Frame)
    requires LegalTimes(x) && Peek(t) != ' ' && (x.Once? ==> !Digit(Peek(t))) && (AtVal(f) ==> Repeats(x) == 1)
    ensures ReadMultiplier(TimesThen(x, t), f) == Multiplier(Repeats(x), t)
  {
    hide StrToUL, Value;
    if x.Times? {
      var star := "*" + GapThen(x.after, t);
      DigitsRead(x.digits, GapThen(x.before, star));
      assert TimesThen(x, t)[0] == x.digits[0];
      GapSkipped(x.before, star);
      DropFirst('*', GapThen(x.after, t));
      GapSkipped(x.after, t);
    }
  }

  lemma DigitsFound(t: string)
    requires Digit(Peek(t))
    ensures var s := Scan(t); !s.negative && s.digits != [] && t == s.digits + s.rest && !Digit(Peek(s.rest))
  {
    hide DigitRun;
    NoSpaces(t);
  }

  lemma TimesFound(t: string, f: Frame) returns (x: Times)
    requires ReadMultiplier(t, f).repeats != 0
    ensures var m := ReadMultiplier(t, f);
      LegalTimes(x) && t == TimesThen(x, m.rest) && Repeats(x) == m.repeats && (AtVal(f) ==> m.repeats == 1)
  {
    hide Scan, Value, SkipSpace;
    var m := ReadMultiplier(t, f);
    x := Once;
    if Digit(Peek(t)) && !StrToUL(t).outOfRange && Peek(SkipSpace(StrToUL(t).rest)) == '*' {
      var n := StrToUL(t);
      DigitsFound(t);
      var u := SkipSpace(n.rest);
      var before := GapFound(n.rest);
      var after := GapFound(u[1..]);
      assert u == "*" + u[1..];
      x := Times(Scan(t).digits, before, after);
    }
  }

  // ----- lengths -----

  lemma {:induction false} BlanksSkipped(blanks: string, t: string)
    requires (forall i :: 0 <= i < |blanks| ==> Space(blanks[i])) && t != [] && !Space(t[0])
    ensures SkipSpaces(blanks + t) == t
  {
    if blanks == [] {
      NoPrefix(t);
      NoSpaces(t);
    } else {
      BlanksSkipped(blanks[1..], t);
      assert (blanks + t)[1..] == blanks[1..] + t;
    }
  }

  lemma NumeralRead(n: Numeral, t: string)
    requires LegalNumeral(n) && !Digit(Peek(t))
    ensures StrToUL(NumeralThen(n, t)) == Number(LengthOf(n), false, t) && t != NumeralThen(n, t)
  {
    hide Scan, Value;
    NumeralScanned(n, t);
    SmallModulus(Value(n.digits));
    assert |NumeralThen(n, t)| > |t|;
  }

  lemma NumeralScanned(n: Numeral, t: string)
    requires LegalNumeral(n) && !Digit(Peek(t))
    ensures Scan(NumeralThen(n, t)) == Scanned(n.sign == "-", n.digits, t)
  {
    hide SkipSpaces, DigitRun, Value, Length;
    var v := n.digits + t;
    var u := n.sign + v;
    assert v[0] == n.digits[0];
    SignSkipped(n.sign, v);
    BlanksSkipped(n.blanks, u);
    DigitRunExact(n.digits, t);
    CutAt(n.digits, t);
  }

  lemma SignSkipped(sign: string, v: string)
    requires sign in {"", "+", "-"} && v != [] && Digit(v[0])
    ensures var u := sign + v;
      && u != [] && !Space(u[0]) && (u[0] == '-' <==> sign == "-")
      && (if u[0] == '-' || u[0] == '+' then u[1..] else u) == v
  {
    if sign == "" { NoPrefix(v); } else { DropFirst(sign[0], v); assert sign == [sign[0]]; }
  }

  lemma {:induction false} BlanksFound(t: string) returns (blanks: string)
    ensures t == blanks + SkipSpaces(t) && forall i :: 0 <= i < |blanks| ==> Space(blanks[i])
  {
    blanks := [];
    if t != [] && Space(t[0]) {
      var more := BlanksFound(t[1..]);
      blanks := [t[0]] + more;
      assert t == [t[0]] + t[1..];
    }
  }

  lemma SmallModulus(n: nat)
    ensures n < TWO_64 ==> (TWO_64 - n) % TWO_64 == if n > 0 then TWO_64 - n else 0
  {
  }

  lemma NumeralFound(t: string) returns (n: Numeral)
    requires StrToUL(t).rest != t && StrToUL(t).value < TWO_32
    ensures LegalNumeral(n) && t == NumeralThen(n, StrToUL(t).rest) && LengthOf(n) == StrToUL(t).value
  {
    hide SkipSpaces, DigitRun, Value;
    var s := Scan(t);
    var blanks := BlanksFound(t);
    var u := SkipSpaces(t);
    var sign := if u != [] && (u[0] == '-' || u[0] == '+') then u[..1] else "";
    assert u == sign + (s.digits + s.rest);
    assert sign == "" || sign == [u[0]];
    SmallModulus(Value(s.digits));
    n := Numeral(blanks, sign, s.digits);
  }

  // ----- a legal text is accepted -----

  /** The element may stand where the frame is. */
  predicate Suits(f: Frame, e: Elem)
    requires LegalElem(e)
  {
    (AtKey(f) ==> KeyForm(e.form)) && (AtVal(f) ==> Repeats(e.times) == 1)
  }

  /** A collection that is open and wants an element. */
  predicate Wants(f: Frame) {
    f.len < TWO_32 && if f.ListFrame? then f.closing in {']', '\0'} else !f.want.End?
  }

  lemma OneTurn(c: Config)
    ensures Run(c) == Resume(Step(c))
  {
  }

  /** A scalar or an opening bracket after its multiplier. */
  lemma FormRead(e: Elem, t: string, f: Frame, stack: seq<Frame>)
    requires LegalElem(e) && Suits(f, e) && Wants(f)
    ensures Step(Config(ElemThen(e, t), f, stack)) == Specifier(Repeats(e.times), FormThen(e.form, t), f, stack)
  {
    hide Specifier, ReadMultiplier, FormThen;
    var body := FormThen(e.form, t);
    FormStarts(e.form, t);
    TimesRead(e.times, body, f);
    ElemStarts(e, t);
  }

  lemma ScalarRead(e: Elem, t: string, f: Frame, stack: seq<Frame>)
    requires LegalElem(e) && Suits(f, e) && !e.form.ListForm? && !e.form.MapForm? && !Digit(Peek(t))
    ensures Specifier(Repeats(e.times), FormThen(e.form, t), f, stack) == Placed(SpecOf(e), t, f, stack)
  {
    hide Placed, StrToUL, NumeralThen, LegalNumeral, Value;
    var body := FormThen(e.form, t);
    match e.form
    case BoolForm => DropFirst('b', t);
    case DoubleForm => DropFirst('D', t);
    case IntForm(digit) =>
      if digit == "" {
        NoPrefix(t);
        assert body == "I" + t;
        DropFirst('I', t);
      } else {
        assert body == "I" + digit + t && body[2..] == t;
      }
    case StrForm(n) => DropFirst('S', NumeralThen(n, t)); NumeralRead(n, t);
    case BytesForm(n) => DropFirst('B', NumeralThen(n, t)); NumeralRead(n, t);
  }

  lemma {:induction false} ElemAccepted(e: Elem, t: string, f: Frame, stack: seq<Frame>)
    requires LegalElem(e) && Suits(f, e) && Wants(f) && !Digit(Peek(t))
    ensures Run(Config(ElemThen(e, t), f, stack)) == Resume(Placed(SpecOf(e), t, f, stack))
    decreases e
  {
    hide Specifier, Placed, Run, FormThen, Step, ElemThen, LegalItems, LegalPairs, ItemsThen, PairsThen;
    OneTurn(Config(ElemThen(e, t), f, stack));
    FormRead(e, t, f, stack);
    match e.form
    case ListForm(gap, items) => ListAccepted(e, gap, items, t, f, stack);
    case MapForm(gap, pairs) => MapAccepted(e, gap, pairs, t, f, stack);
    case _ => ScalarRead(e, t, f, stack);
  }

  lemma OpenList(repeats: nat, t: string, f: Frame, stack: seq<Frame>)
    requires !AtKey(f)
    ensures Specifier(repeats, "[" + t, f, stack) == Go(Config(SkipSpace(t), ListFrame(']', repeats, [], 0), stack + [f]))
  {
    DropFirst('[', t);
  }

  lemma OpenMap(repeats: nat, t: string, f: Frame, stack: seq<Frame>)
    requires !AtKey(f)
    ensures Specifier(repeats, "{" + t, f, stack) == Go(Config(SkipSpace(t), MapFrame(repeats, [], Key, 0), stack + [f]))
  {
    DropFirst('{', t);
  }

  lemma NoItems()
    ensures SumRepeats([]) == 0 && SumKeys([]) == 0
  {
  }

  lemma ListAccepted(e: Elem, gap: bool, items: Items, t: string, f: Frame, stack: seq<Frame>)
    requires LegalElem(e) && Suits(f, e) && e.form == ListForm(gap, items)
    ensures Resume(Specifier(Repeats(e.times), FormThen(e.form, t), f, stack)) == Resume(Placed(SpecOf(e), t, f, stack))
    decreases e, 0
  {
    hide Placed, Run, Step, LegalItems, ItemsThen, Value, Specifier, SumRepeats, SkipSpace;
    var tail := "]" + t;
    var open := ListFrame(']', Repeats(e.times), [], 0);
    ItemsStart(items, tail);
    NoItems();
    OpenList(Repeats(e.times), GapThen(gap, ItemsThen(items, tail)), f, stack);
    GapSkipped(gap, ItemsThen(items, tail));
    ItemsAccepted(items, tail, open, stack + [f]);
    var full := Extended(open, ItemsOf(items));
    NoPrefix(ItemsOf(items));
    OneTurn(Config(tail, full, stack + [f]));
    CloseList(full, t, f, stack);
  }

  lemma CloseList(full: Frame, t: string, f: Frame, stack: seq<Frame>)
    requires full.ListFrame? && full.closing == ']' && full.items != []
    ensures Step(Config("]" + t, full, stack + [f])) == Placed(Spec(full.repeats, List(full.len, full.items)), t, f, stack)
  {
    hide Placed;
    DropFirst(']', t);
    assert (stack + [f])[..|stack|] == stack;
  }

  lemma MapAccepted(e: Elem, gap: bool, pairs: Pairs, t: string, f: Frame, stack: seq<Frame>)
    requires LegalElem(e) && Suits(f, e) && e.form == MapForm(gap, pairs)
    ensures Resume(Specifier(Repeats(e.times), FormThen(e.form, t), f, stack)) == Resume(Placed(SpecOf(e), t, f, stack))
    decreases e, 0
  {
    hide Placed, Run, Step, LegalPairs, PairsThen, Value, Specifier, SumKeys, SkipSpace;
    var tail := "}" + t;
    var open := MapFrame(Repeats(e.times), [], Key, 0);
    PairsStart(pairs, tail);
    NoItems();
    OpenMap(Repeats(e.times), GapThen(gap, PairsThen(pairs, tail)), f, stack);
    GapSkipped(gap, PairsThen(pairs, tail));
    PairsAccepted(pairs, tail, open, stack + [f]);
    var full := Ended(open, PairsOf(pairs));
    NoPrefix(PairsOf(pairs));
    OneTurn(Config(tail, full, stack + [f]));
    CloseMap(full, t, f, stack);
  }

  lemma CloseMap(full: Frame, t: string, f: Frame, stack: seq<Frame>)
    requires full.MapFrame? && full.want.End? && full.pairs != []
    ensures Step(Config("}" + t, full, stack + [f])) == Placed(Spec(full.repeats, Map(full.len, full.pairs)), t, f, stack)
  {
    hide Placed;
    DropFirst('}', t);
    assert (stack + [f])[..|stack|] == stack;
  }

  /** The list frame with more elements. */
  function Extended(f: Frame, items: seq<Spec>): Frame
    requires f.ListFrame?
  {
    f.(items := f.items + items, len := f.len + SumRepeats(items))
  }

  /** The map frame with more entries, complete. */
  function Ended(f: Frame, pairs: seq<Pair>): Frame
    requires f.MapFrame?
  {
    f.(pairs := f.pairs + pairs, len := f.len + SumKeys(pairs), want := End)
  }

  lemma {:induction false} ItemsAccepted(items: Items, tail: string, f: Frame, stack: seq<Frame>)
    requires LegalItems(items) && f.ListFrame? && Wants(f) && Peek(tail) == f.closing
    requires f.len + SumRepeats(ItemsOf(items)) < TWO_32
    ensures Run(Config(ItemsThen(items, tail), f, stack)) == Run(Config(tail, Extended(f, ItemsOf(items)), stack))
    decreases items
  {
    hide Run, ItemsThen, ItemsOf, SumRepeats, SpecOf, LegalElem;
    FirstItem(items);
    var s := SpecOf(items.e);
    match items
    case LastItem(e, comma, gap) =>
      var t := if comma then "," + GapThen(gap, tail) else GapThen(gap, tail);
      ItemText(items, tail);
      ElemAccepted(e, t, f, stack);
      LastPlaced(s, comma, gap, tail, f, stack);
    case MoreItems(e, gap, rest) =>
      var more := ItemsThen(rest, tail);
      ItemText(items, tail);
      ElemAccepted(e, "," + GapThen(gap, more), f, stack);
      ItemsStart(rest, tail);
      CommaPlaced(s, gap, more, f, stack);
      ItemsAccepted(rest, tail, Extended(f, [s]), stack);
      ExtendTwice(f, s, ItemsOf(rest));
  }

  lemma ItemText(items: Items, tail: string)
    ensures ItemsThen(items, tail) == ElemThen(items.e,
      if items.MoreItems? then "," + GapThen(items.gap, ItemsThen(items.rest, tail))
      else if items.comma then "," + GapThen(items.gap, tail)
      else GapThen(items.gap, tail))
  {
    hide ElemThen;
  }

  lemma ExtendTwice(f: Frame, s: Spec, items: seq<Spec>)
    requires f.ListFrame?
    ensures Extended(Extended(f, [s]), items) == Extended(f, [s] + items)
  {
    hide SumRepeats;
    SumJoin([s], items);
    assert f.items + [s] + items == f.items + ([s] + items);
  }

  lemma {:induction false} SumJoin(a: seq<Spec>, b: seq<Spec>)
    ensures SumRepeats(a + b) == SumRepeats(a) + SumRepeats(b)
    decreases |b|
  {
    if b == [] {
      NoPrefix(a);
    } else {
      var n := |b| - 1;
      SumJoin(a, b[..n]);
      assert (a + b)[..|a| + n] == a + b[..n];
    }
  }

  lemma SumOne(s: Spec)
    ensures SumRepeats([s]) == s.repeats
  {
    assert [s][..0] == [];
  }

  lemma FirstItem(items: Items)
    requires LegalItems(items)
    ensures LegalElem(items.e) && (items.MoreItems? ==> LegalItems(items.rest))
    ensures var s := SpecOf(items.e);
      && 1 <= s.repeats < TWO_32 && SumRepeats([s]) == s.repeats
      && ItemsOf(items) == (if items.MoreItems? then [s] + ItemsOf(items.rest) else [s])
      && SumRepeats(ItemsOf(items)) == s.repeats + (if items.MoreItems? then SumRepeats(ItemsOf(items.rest)) else 0)
  {
    hide KindOf, SumRepeats;
    SumOne(SpecOf(items.e));
    if items.MoreItems? {
      SumJoin([SpecOf(items.e)], ItemsOf(items.rest));
    } else {
      NoPrefix([SpecOf(items.e)]);
    }
  }

  lemma AddItem(f: Frame, s: Spec)
    requires f.ListFrame? && f.len < TWO_32 && s.repeats < TWO_32
    ensures f.len + s.repeats < TWO_32 ==> WithItem(f, s) == Extended(f, [s])
    ensures WithItem(f, s).len < s.repeats <==> f.len + s.repeats >= TWO_32
  {
    hide SumRepeats, Wrap32;
    WrapTest(f.len, s.repeats);
    SumOne(s);
  }

  lemma LastPlaced(s: Spec, comma: bool, gap: bool, tail: string, f: Frame, stack: seq<Frame>)
    requires f.ListFrame? && Wants(f) && Peek(tail) == f.closing && f.len + s.repeats < TWO_32
    ensures Placed(s, if comma then "," + GapThen(gap, tail) else GapThen(gap, tail), f, stack) == Go(Config(tail, Extended(f, [s]), stack))
  {
    hide WithItem, Extended;
    AddItem(f, s);
    GapSkipped(gap, tail);
    DropFirst(',', GapThen(gap, tail));
  }

  lemma CommaPlaced(s: Spec, gap: bool, more: string, f: Frame, stack: seq<Frame>)
    requires f.ListFrame? && Start(more) && f.len + s.repeats < TWO_32
    ensures Placed(s, "," + GapThen(gap, more), f, stack) == Go(Config(more, Extended(f, [s]), stack))
  {
    hide WithItem, Extended;
    AddItem(f, s);
    GapSkipped(gap, more);
    DropFirst(',', GapThen(gap, more));
  }

  lemma {:induction false} PairsAccepted(pairs: Pairs, tail: string, f: Frame, stack: seq<Frame>)
    requires LegalPairs(pairs) && AtKey(f) && f.len < TWO_32 && Peek(tail) == '}'
    requires f.len + SumKeys(PairsOf(pairs)) < TWO_32
    ensures Run(Config(PairsThen(pairs, tail), f, stack)) == Run(Config(tail, Ended(f, PairsOf(pairs)), stack))
    decreases pairs, 1
  {
    hide Run, PairsThen, PairsOf, SumKeys, LegalEntry, SpecOf, Repeats, LegalPairs;
    FirstPair(pairs);
    FirstAccepted(pairs, tail, f, stack);
    if pairs.MorePairs? {
      PairsAccepted(pairs.rest, tail, Paired(f, pairs.p, Key), stack);
      EndTwice(f, pairs.p, PairsOf(pairs.rest));
    }
  }

  /** The first entry, up to the next or to the end. */
  lemma FirstAccepted(pairs: Pairs, tail: string, f: Frame, stack: seq<Frame>)
    requires LegalPairs(pairs) && LegalEntry(pairs.p) && AtKey(f) && Peek(tail) == '}'
    requires f.len + Repeats(pairs.p.key.times) < TWO_32
    ensures Run(Config(PairsThen(pairs, tail), f, stack)) ==
      if pairs.MorePairs? then Run(Config(PairsThen(pairs.rest, tail), Paired(f, pairs.p, Key), stack))
      else Run(Config(tail, Paired(f, pairs.p, End), stack))
    decreases pairs, 0
  {
    hide Run, PairsThen, LegalEntry, SpecOf, Repeats, Placed, Paired, LegalElem;
    PairText(pairs, tail);
    match pairs
    case LastPair(p, gap) =>
      EntryAccepted(p, GapThen(gap, tail), f, stack);
      LastValPlaced(p, gap, tail, f, stack);
    case MorePairs(p, before, after, rest) =>
      var more := PairsThen(rest, tail);
      EntryAccepted(p, GapThen(before, "," + GapThen(after, more)), f, stack);
      PairsStart(rest, tail);
      NextValPlaced(p, before, after, more, f, stack);
  }

  lemma EndTwice(f: Frame, p: Entry, pairs: seq<Pair>)
    requires f.MapFrame? && LegalEntry(p)
    ensures Ended(Paired(f, p, Key), pairs) == Ended(f, [PairOf(p)] + pairs)
  {
    hide SumKeys, KindOf, LegalElem;
    SumKeysOne(PairOf(p));
    SumKeysJoin([PairOf(p)], pairs);
    assert f.pairs + [PairOf(p)] + pairs == f.pairs + ([PairOf(p)] + pairs);
  }

  lemma PairText(pairs: Pairs, tail: string)
    ensures PairsThen(pairs, tail) == EntryThen(pairs.p,
      if pairs.MorePairs? then GapThen(pairs.before, "," + GapThen(pairs.after, PairsThen(pairs.rest, tail)))
      else GapThen(pairs.gap, tail))
  {
    hide EntryThen;
  }

  predicate LegalEntry(p: Entry) {
    LegalElem(p.key) && KeyForm(p.key.form) && LegalElem(p.val) && Repeats(p.val.times) == 1
  }

  function PairOf(p: Entry): Pair
    requires LegalEntry(p)
  {
    Pair(SpecOf(p.key), SpecOf(p.val))
  }

  /** The map frame with one more entry. */
  function Paired(f: Frame, p: Entry, want: Want): Frame
    requires f.MapFrame? && LegalEntry(p)
  {
    f.(pairs := f.pairs + [PairOf(p)], len := f.len + Repeats(p.key.times), want := want)
  }

  lemma {:induction false} SumKeysJoin(a: seq<Pair>, b: seq<Pair>)
    ensures SumKeys(a + b) == SumKeys(a) + SumKeys(b)
    decreases |b|
  {
    if b == [] {
      NoPrefix(a);
    } else {
      var n := |b| - 1;
      SumKeysJoin(a, b[..n]);
      assert (a + b)[..|a| + n] == a + b[..n];
    }
  }

  lemma SumKeysOne(p: Pair)
    ensures SumKeys([p]) == p.key.repeats
  {
    assert [p][..0] == [];
  }

  lemma FirstPair(pairs: Pairs)
    requires LegalPairs(pairs)
    ensures LegalEntry(pairs.p) && (pairs.MorePairs? ==> LegalPairs(pairs.rest))
    ensures var p := PairOf(pairs.p);
      && 1 <= p.key.repeats == Repeats(pairs.p.key.times) < TWO_32 && SumKeys([p]) == p.key.repeats
      && PairsOf(pairs) == (if pairs.MorePairs? then [p] + PairsOf(pairs.rest) else [p])
      && SumKeys(PairsOf(pairs)) == p.key.repeats + (if pairs.MorePairs? then SumKeys(PairsOf(pairs.rest)) else 0)
  {
    hide KindOf, SumKeys, Value;
    SumKeysOne(PairOf(pairs.p));
    if pairs.MorePairs? {
      SumKeysJoin([PairOf(pairs.p)], PairsOf(pairs.rest));
    } else {
      NoPrefix([PairOf(pairs.p)]);
    }
  }

  /** Key, colon and value, up to the value's end. */
  lemma EntryAccepted(p: Entry, t: string, f: Frame, stack: seq<Frame>)
    requires LegalEntry(p) && AtKey(f) && f.len + Repeats(p.key.times) < TWO_32 && !Digit(Peek(t))
    ensures Run(Config(EntryThen(p, t), f, stack)) ==
      Resume(Placed(SpecOf(p.val), t, f.(want := Val(SpecOf(p.key)), len := f.len + Repeats(p.key.times)), stack))
    decreases p
  {
    hide Placed, Run, Step, ElemThen, LegalElem, Value, KindOf;
    var val := ElemThen(p.val, t);
    var key := SpecOf(p.key);
    ElemAccepted(p.key, GapThen(p.before, ":" + GapThen(p.after, val)), f, stack);
    ElemStarts(p.val, t);
    KeyPlaced(key, p.before, p.after, val, f, stack);
    ElemAccepted(p.val, t, f.(want := Val(key), len := f.len + key.repeats), stack);
  }

  lemma KeyPlaced(key: Spec, before: bool, after: bool, val: string, f: Frame, stack: seq<Frame>)
    requires AtKey(f) && f.len + key.repeats < TWO_32 && Start(val)
    ensures Placed(key, GapThen(before, ":" + GapThen(after, val)), f, stack) ==
      Go(Config(val, f.(want := Val(key), len := f.len + key.repeats), stack))
  {
    hide Wrap32;
    WrapTest(f.len, key.repeats);
    GapSkipped(after, val);
    GapSkipped(before, ":" + GapThen(after, val));
    DropFirst(':', GapThen(after, val));
  }

  lemma LastValPlaced(p: Entry, gap: bool, tail: string, f: Frame, stack: seq<Frame>)
    requires LegalEntry(p) && f.MapFrame? && Peek(tail) == '}'
    ensures var g := f.(want := Val(SpecOf(p.key)), len := f.len + Repeats(p.key.times));
      Placed(SpecOf(p.val), GapThen(gap, tail), g, stack) == Go(Config(tail, Paired(f, p, End), stack))
  {
    hide KindOf, Value, LegalElem;
    GapSkipped(gap, tail);
  }

  lemma NextValPlaced(p: Entry, before: bool, after: bool, more: string, f: Frame, stack: seq<Frame>)
    requires LegalEntry(p) && f.MapFrame? && Start(more)
    ensures var g := f.(want := Val(SpecOf(p.key)), len := f.len + Repeats(p.key.times));
      Placed(SpecOf(p.val), GapThen(before, "," + GapThen(after, more)), g, stack) == Go(Config(more, Paired(f, p, Key), stack))
  {
    hide KindOf, Value, LegalElem;
    GapSkipped(after, more);
    GapSkipped(before, "," + GapThen(after, more));
    DropFirst(',', GapThen(after, more));
  }

  // ----- an accepted text is legal -----

  lemma ScalarFound(repeats: nat, t: string, f: Frame, stack: seq<Frame>) returns (form: Form, rest: string)
    requires t != [] && t[0] in {'b', 'I', 'S', 'B', 'D'} && Resume(Specifier(repeats, t, f, stack)).Parsed?
    ensures LegalForm(form) && t == FormThen(form, rest) && |rest| < |t| && (AtKey(f) ==> KeyForm(form))
    ensures Specifier(repeats, t, f, stack) == Placed(Spec(repeats, KindOf(form)), rest, f, stack)
  {
    hide Placed, StrToUL, NumeralThen, LegalNumeral, Run;
    assert t == [t[0]] + t[1..];
    match t[0]
    case 'b' => form, rest := BoolForm, t[1..];
    case 'D' => form, rest := DoubleForm, t[1..];
    case 'I' =>
      if |t| > 1 && '1' <= t[1] <= '8' {
        form, rest := IntForm([t[1]]), t[2..];
        assert t == "I" + ([t[1]] + rest);
      } else {
        form, rest := IntForm(""), t[1..];
        NoPrefix(rest);
      }
    case 'S' =>
      var n := NumeralFound(t[1..]);
      form, rest := StrForm(n), StrToUL(t[1..]).rest;
    case 'B' =>
      var n := NumeralFound(t[1..]);
      form, rest := BytesForm(n), StrToUL(t[1..]).rest;
  }

  lemma FormFound(repeats: nat, t: string, f: Frame, stack: seq<Frame>) returns (form: Form, rest: string)
    requires t != [] && Resume(Specifier(repeats, t, f, stack)).Parsed?
    ensures LegalForm(form) && t == FormThen(form, rest) && |rest| < |t| && (AtKey(f) ==> KeyForm(form))
    ensures Resume(Specifier(repeats, t, f, stack)) == Resume(Placed(Spec(repeats, KindOf(form)), rest, f, stack))
    decreases |t|, 1
  {
    hide Placed, Run, Specifier, FormThen, KindOf, LegalForm;
    OnlyForms(repeats, t, f, stack);
    if t[0] == '[' {
      form, rest := ListFound(repeats, t, f, stack);
    } else if t[0] == '{' {
      form, rest := MapFound(repeats, t, f, stack);
    } else {
      form, rest := ScalarFound(repeats, t, f, stack);
    }
  }

  /** Any other character starts a constant, and no key is a collection. */
  lemma OnlyForms(repeats: nat, t: string, f: Frame, stack: seq<Frame>)
    requires t != [] && Resume(Specifier(repeats, t, f, stack)).Parsed?
    ensures t[0] in {'b', 'I', 'S', 'B', 'D', '[', '{'} && (t[0] == '[' || t[0] == '{' ==> !AtKey(f))
  {
    hide Placed, Run, StrToUL, ConstantNext;
  }

  lemma ListFound(repeats: nat, t: string, f: Frame, stack: seq<Frame>) returns (form: Form, rest: string)
    requires t != [] && t[0] == '[' && !AtKey(f) && Resume(Specifier(repeats, t, f, stack)).Parsed?
    ensures LegalForm(form) && t == FormThen(form, rest) && |rest| < |t| && form.ListForm?
    ensures Resume(Specifier(repeats, t, f, stack)) == Resume(Placed(Spec(repeats, KindOf(form)), rest, f, stack))
    decreases |t|, 0
  {
    hide Placed, Run, Specifier, Step, ItemsThen, ItemsOf, LegalItems, SumRepeats, SkipSpace;
    var u := t[1..];
    assert t == "[" + u;
    var gap := GapFound(u);
    OpenList(repeats, u, f, stack);
    var open := ListFrame(']', repeats, [], 0);
    var c := Config(SkipSpace(u), open, stack + [f]);
    NotEmptyList(c);
    var items, tail := ItemsFound(c);
    rest := tail[1..];
    assert tail == "]" + rest;
    form := ListForm(gap, items);
    var full := Extended(open, ItemsOf(items));
    NoItems();
    NoPrefix(ItemsOf(items));
    OneTurn(Config(tail, full, stack + [f]));
    CloseList(full, rest, f, stack);
  }

  lemma NotEmptyList(c: Config)
    requires c.frame.ListFrame? && c.frame.closing == ']' && c.frame.items == [] && Run(c).Parsed?
    ensures Peek(c.text) != ']' || c.stack == []
  {
    hide Placed;
  }

  lemma MapFound(repeats: nat, t: string, f: Frame, stack: seq<Frame>) returns (form: Form, rest: string)
    requires t != [] && t[0] == '{' && !AtKey(f) && Resume(Specifier(repeats, t, f, stack)).Parsed?
    ensures LegalForm(form) && t == FormThen(form, rest) && |rest| < |t| && form.MapForm?
    ensures Resume(Specifier(repeats, t, f, stack)) == Resume(Placed(Spec(repeats, KindOf(form)), rest, f, stack))
    decreases |t|, 0
  {
    hide Placed, Run, Specifier, Step, PairsThen, PairsOf, LegalPairs, SumKeys, SkipSpace;
    var u := t[1..];
    assert t == "{" + u;
    var gap := GapFound(u);
    OpenMap(repeats, u, f, stack);
    var open := MapFrame(repeats, [], Key, 0);
    var c := Config(SkipSpace(u), open, stack + [f]);
    var pairs, tail := PairsFound(c);
    rest := tail[1..];
    assert tail == "}" + rest;
    form := MapForm(gap, pairs);
    var full := Ended(open, PairsOf(pairs));
    NoItems();
    NoPrefix(PairsOf(pairs));
    OneTurn(Config(tail, full, stack + [f]));
    CloseMap(full, rest, f, stack);
  }

  /** A key or a value has to come first. */
  lemma NotEndedYet(c: Config)
    requires c.frame.MapFrame? && !c.frame.want.End? && Run(c).Parsed?
    ensures Peek(c.text) != '}'
  {
    hide Placed;
  }

  lemma ElemFound(c: Config) returns (e: Elem, rest: string)
    requires Run(c).Parsed? && Peek(c.text) != Closing(c.frame)
    ensures LegalElem(e) && Suits(c.frame, e) && c.text == ElemThen(e, rest) && |rest| < |c.text|
    ensures Run(c) == Resume(Placed(SpecOf(e), rest, c.frame, c.stack))
    decreases |c.text|, 2
  {
    hide Placed, Run, Specifier, ReadMultiplier, FormThen, KindOf, LegalForm;
    OneTurn(c);
    var m := ReadMultiplier(c.text, c.frame);
    var x := TimesFound(c.text, c.frame);
    var form;
    form, rest := FormFound(m.repeats, m.rest, c.frame, c.stack);
    e := Elem(x, form);
  }

  /** What can follow an element of a list. */
  lemma ItemFollowed(s: Spec, t: string, f: Frame, stack: seq<Frame>) returns (comma: bool, gap: bool, next: string)
    requires f.ListFrame? && f.len < TWO_32 && s.repeats < TWO_32 && Resume(Placed(s, t, f, stack)).Parsed?
    ensures t == (if comma then "," + GapThen(gap, next) else GapThen(gap, next)) && |next| <= |t|
    ensures !comma ==> Peek(next) == f.closing
    ensures f.len + s.repeats < TWO_32 && Placed(s, t, f, stack) == Go(Config(next, Extended(f, [s]), stack))
  {
    hide WithItem, Extended, Run;
    AddItem(f, s);
    if Peek(t) == ',' {
      comma, next := true, SkipSpace(t[1..]);
      gap := GapFound(t[1..]);
      assert t == "," + t[1..];
    } else {
      comma, next := false, SkipSpace(t);
      gap := GapFound(t);
    }
  }

  lemma ItemsFound(c: Config) returns (items: Items, tail: string)
    requires Run(c).Parsed? && c.frame.ListFrame? && c.frame.len < TWO_32 && Peek(c.text) != c.frame.closing
    ensures LegalItems(items) && c.text == ItemsThen(items, tail) && |tail| < |c.text| && Peek(tail) == c.frame.closing
    ensures c.frame.len + SumRepeats(ItemsOf(items)) < TWO_32
    ensures Run(c) == Run(Config(tail, Extended(c.frame, ItemsOf(items)), c.stack))
    decreases |c.text|, 3
  {
    hide Placed, Run, ItemsThen, ItemsOf, SumRepeats, SpecOf, LegalElem, ElemThen;
    var f := c.frame;
    var e, rest := ElemFound(c);
    var s := SpecOf(e);
    SmallRepeats(e);
    SumOne(s);
    var comma, gap, next := ItemFollowed(s, rest, f, c.stack);
    if Peek(next) == f.closing {
      items, tail := LastItem(e, comma, gap), next;
    } else {
      var more;
      more, tail := ItemsFound(Config(next, Extended(f, [s]), c.stack));
      items := MoreItems(e, gap, more);
      ExtendTwice(f, s, ItemsOf(more));
    }
    LegalFirst(items);
    FirstItem(items);
    ItemText(items, tail);
  }

  lemma SmallRepeats(e: Elem)
    requires LegalElem(e)
    ensures 1 <= SpecOf(e).repeats == Repeats(e.times) < TWO_32
  {
  }

  lemma LegalFirst(items: Items)
    requires LegalElem(items.e) && (items.MoreItems? ==> LegalItems(items.rest))
    ensures LegalItems(items)
  {
  }

  lemma KeyFollowed(s: Spec, t: string, f: Frame, stack: seq<Frame>) returns (before: bool, after: bool, next: string)
    requires AtKey(f) && f.len < TWO_32 && s.repeats < TWO_32 && Resume(Placed(s, t, f, stack)).Parsed?
    ensures t == GapThen(before, ":" + GapThen(after, next)) && |next| < |t|
    ensures f.len + s.repeats < TWO_32
    ensures Placed(s, t, f, stack) == Go(Config(next, f.(want := Val(s), len := f.len + s.repeats), stack))
  {
    hide Run, Wrap32;
    WrapTest(f.len, s.repeats);
    before := GapFound(t);
    var u := SkipSpace(t);
    after := GapFound(u[1..]);
    assert u == ":" + u[1..];
    next := SkipSpace(u[1..]);
  }

  lemma ValFollowed(s: Spec, t: string, f: Frame, stack: seq<Frame>) returns (comma: bool, before: bool, after: bool, next: string)
    requires AtVal(f) && Resume(Placed(s, t, f, stack)).Parsed?
    ensures t == GapThen(before, if comma then "," + GapThen(after, next) else next) && |next| <= |t|
    ensures !comma ==> Peek(next) == '}'
    ensures Placed(s, t, f, stack) == Go(Config(next, WithVal(f, s, if comma then Key else End), stack))
  {
    hide Run;
    before := GapFound(t);
    after := false;
    var u := SkipSpace(t);
    if Peek(u) == ',' {
      after := GapFound(u[1..]);
      assert u == "," + u[1..];
      comma, next := true, SkipSpace(u[1..]);
    } else {
      comma, next := false, u;
    }
  }

  /** A key, a colon and a value. */
  lemma EntryFound(c: Config) returns (p: Entry, rest: string)
    requires Run(c).Parsed? && AtKey(c.frame) && c.frame.len < TWO_32
    ensures LegalEntry(p) && c.text == EntryThen(p, rest) && |rest| < |c.text|
    ensures c.frame.len + Repeats(p.key.times) < TWO_32
    ensures Run(c) == Resume(Placed(SpecOf(p.val), rest,
      c.frame.(want := Val(SpecOf(p.key)), len := c.frame.len + Repeats(p.key.times)), c.stack))
    decreases |c.text|, 3
  {
    hide Placed, Run, SpecOf, LegalElem, ElemThen, Repeats, KeyForm;
    NotEndedYet(c);
    var key, mid := ElemFound(c);
    SmallRepeats(key);
    var before, after, next := KeyFollowed(SpecOf(key), mid, c.frame, c.stack);
    var c' := Config(next, c.frame.(want := Val(SpecOf(key)), len := c.frame.len + SpecOf(key).repeats), c.stack);
    NotEndedYet(c');
    var val;
    val, rest := ElemFound(c');
    p := Entry(key, before, after, val);
  }

  lemma PairsFound(c: Config) returns (pairs: Pairs, tail: string)
    requires Run(c).Parsed? && AtKey(c.frame) && c.frame.len < TWO_32
    ensures LegalPairs(pairs) && c.text == PairsThen(pairs, tail) && |tail| < |c.text| && Peek(tail) == '}'
    ensures c.frame.len + SumKeys(PairsOf(pairs)) < TWO_32
    ensures Run(c) == Run(Config(tail, Ended(c.frame, PairsOf(pairs)), c.stack))
    decreases |c.text|, 4
  {
    hide Placed, Run, PairsThen, PairsOf, SumKeys, SpecOf, LegalElem, EntryThen, Repeats, KeyForm;
    var f := c.frame;
    var p, rest := EntryFound(c);
    SmallRepeats(p.key);
    var g := f.(want := Val(SpecOf(p.key)), len := f.len + SpecOf(p.key).repeats);
    var comma, before, after, next := ValFollowed(SpecOf(p.val), rest, g, c.stack);
    if !comma {
      pairs, tail := LastPair(p, before), next;
    } else {
      var more;
      more, tail := PairsFound(Config(next, Paired(f, p, Key), c.stack));
      pairs := MorePairs(p, before, after, more);
      EndTwice(f, p, PairsOf(more));
    }
    LegalFirstPair(pairs);
    FirstPair(pairs);
    PairText(pairs, tail);
  }

  lemma LegalFirstPair(pairs: Pairs)
    requires LegalEntry(pairs.p) && (pairs.MorePairs? ==> LegalPairs(pairs.rest))
    ensures LegalPairs(pairs)
  {
  }

  // ----- main results -----

  lemma RootDone(items: seq<Spec>, len: nat, end: string)
    requires AtEnd(end)
    ensures Run(Config(end, ROOT.(items := items, len := len), [])) == Parsed(items, len)
  {
  }

  lemma TreeAccepted(text: string, items: seq<Spec>, g: Bins, end: string)
    requires IsTree(text, items, g, end)
    ensures Run(Config(text, ROOT, [])) == Parsed(items, SumRepeats(items))
  {
    hide Run, ItemsThen, ItemsOf, LegalItems, SumRepeats;
    NoItems();
    RootDone(items, SumRepeats(items), end);
    if g.SomeBins? {
      ItemsAccepted(g.items, end, ROOT, []);
      NoPrefix(items);
    }
  }

  lemma TreeFound(text: string) returns (g: Bins, end: string)
    requires Run(Config(text, ROOT, [])).Parsed?
    ensures var o := Run(Config(text, ROOT, [])); IsTree(text, o.items, g, end) && o.bins == SumRepeats(o.items)
  {
    hide Run, ItemsThen, ItemsOf, LegalItems, SumRepeats;
    NoItems();
    if AtEnd(text) {
      g, end := NoBins, text;
      RootDone([], 0, text);
    } else {
      var items;
      items, end := ItemsFound(Config(text, ROOT, []));
      g := SomeBins(items);
      NoPrefix(ItemsOf(items));
      RootDone(ItemsOf(items), SumRepeats(ItemsOf(items)), end);
    }
  }

  /** A text is accepted with these bins and this number of them if and only if it is
      the text of a legal tree that stands for them. */
  lemma AcceptedIff(text: string, items: seq<Spec>, bins: nat)
    ensures Run(Config(text, ROOT, [])) == Parsed(items, bins) <==> Derives(text, items) && bins == SumRepeats(items)
  {
    hide Run, IsTree, SumRepeats;
    if Run(Config(text, ROOT, [])) == Parsed(items, bins) {
      var g, end := TreeFound(text);
    }
    if Derives(text, items) {
      var g, end :| IsTree(text, items, g, end);
      TreeAccepted(text, items, g, end);
    }
  }

  // ----- what does not matter -----

  /** The same tree without optional spaces and trailing commas, and with the size of
      every integer written out. */
  function TightForm(f: Form): Form
    decreases f
  {
    match f
    case IntForm(digit) => IntForm(if digit == "" then "4" else digit)
    case StrForm(n) => StrForm(n.(blanks := ""))
    case BytesForm(n) => BytesForm(n.(blanks := ""))
    case ListForm(_, items) => ListForm(false, TightItems(items))
    case MapForm(_, pairs) => MapForm(false, TightPairs(pairs))
    case _ => f
  }

  function TightElem(e: Elem): Elem
    decreases e
  {
    Elem(if e.times.Once? then Once else Times(e.times.digits, false, false), TightForm(e.form))
  }

  function TightItems(items: Items): Items
    decreases items
  {
    match items
    case LastItem(e, _, _) => LastItem(TightElem(e), false, false)
    case MoreItems(e, _, rest) => MoreItems(TightElem(e), false, TightItems(rest))
  }

  function TightPairs(pairs: Pairs): Pairs
    decreases pairs
  {
    var p := Entry(TightElem(pairs.p.key), false, false, TightElem(pairs.p.val));
    match pairs
    case LastPair(_, _) => LastPair(p, false)
    case MorePairs(_, _, _, rest) => MorePairs(p, false, false, TightPairs(rest))
  }

  function Tight(g: Bins): Bins {
    if g.NoBins? then NoBins else SomeBins(TightItems(g.items))
  }

  lemma {:induction false} TightElemSame(e: Elem)
    requires LegalElem(e)
    ensures LegalElem(TightElem(e)) && SpecOf(TightElem(e)) == SpecOf(e) && (KeyForm(e.form) ==> KeyForm(TightElem(e).form))
    decreases e
  {
    hide Value, ItemsOf, PairsOf, LegalItems, LegalPairs;
    match e.form
    case ListForm(_, items) => TightItemsSame(items);
    case MapForm(_, pairs) => TightPairsSame(pairs);
    case _ =>
  }

  lemma {:induction false} TightItemsSame(items: Items)
    requires LegalItems(items)
    ensures LegalItems(TightItems(items)) && ItemsOf(TightItems(items)) == ItemsOf(items)
    decreases items
  {
    hide LegalElem, SpecOf, TightElem;
    TightElemSame(items.e);
    if items.MoreItems? { TightItemsSame(items.rest); }
  }

  lemma {:induction false} TightPairsSame(pairs: Pairs)
    requires LegalPairs(pairs)
    ensures LegalPairs(TightPairs(pairs)) && PairsOf(TightPairs(pairs)) == PairsOf(pairs)
    decreases pairs
  {
    hide LegalElem, SpecOf, TightElem, KeyForm, Repeats;
    TightElemSame(pairs.p.key);
    TightElemSame(pairs.p.val);
    SmallRepeats(pairs.p.val);
    SmallRepeats(TightElem(pairs.p.val));
    if pairs.MorePairs? { TightPairsSame(pairs.rest); }
  }

  /** Optional spaces, a comma after the last element of a list and an unwritten
      integer size change nothing. */
  lemma SpacesOptional(g: Bins, end: string)
    requires LegalBins(g) && AtEnd(end)
    ensures LegalBins(Tight(g)) && BinsOf(Tight(g)) == BinsOf(g)
    ensures Run(Config(BinsThen(g, end), ROOT, [])) == Run(Config(BinsThen(Tight(g), end), ROOT, []))
  {
    hide Run, ItemsOf, LegalItems, TightItems, ItemsThen, SumRepeats;
    if g.SomeBins? { TightItemsSame(g.items); }
    TreeAccepted(BinsThen(g, end), BinsOf(g), g, end);
    TreeAccepted(BinsThen(Tight(g), end), BinsOf(g), Tight(g), end);
  }

  /** The letter I alone is I4, wherever it may stand. */
  lemma DefaultSize(x: Times, t: string, f: Frame, stack: seq<Frame>)
    requires LegalTimes(x) && (AtVal(f) ==> Repeats(x) == 1) && Wants(f) && !Digit(Peek(t))
    ensures Run(Config(TimesThen(x, "I" + t), f, stack)) == Run(Config(TimesThen(x, "I4" + t), f, stack))
  {
    hide Run, Placed, TimesThen, Value;
    var a, b := Elem(x, IntForm("")), Elem(x, IntForm("4"));
    ElemAccepted(a, t, f, stack);
    ElemAccepted(b, t, f, stack);
    NoPrefix(t);
    assert "I" + ("4" + t) == "I4" + t;
  }

  // ----- malformed elements, in any collection at any depth -----

  /** No legal length comes next. */
  ghost predicate NoLength(t: string) {
    forall n: Numeral, rest: string :: LegalNumeral(n) && !Digit(Peek(rest)) ==> t != NumeralThen(n, rest)
  }

  lemma LengthMissing(t: string)
    requires NoLength(t)
    ensures StrToUL(t).rest == t || StrToUL(t).value >= TWO_32
  {
    hide StrToUL, NumeralThen, LegalNumeral;
    if StrToUL(t).rest != t && StrToUL(t).value < TWO_32 {
      RestNoDigit(t);
      var n := NumeralFound(t);
    }
  }

  lemma RestNoDigit(t: string)
    requires StrToUL(t).rest != t
    ensures !Digit(Peek(StrToUL(t).rest))
  {
    hide DigitRun, SkipSpaces, Value;
  }

  /** No element of the kind wanted starts here: nothing does, a string or byte string
      without a legal length, or something other than a scalar for a key. */
  ghost predicate BadForm(t: string, key: bool) {
    || t == []
    || (t[0] in {'S', 'B'} && NoLength(t[1..]))
    || (key && t[0] in {'b', 'D', '[', '{'})
  }

  lemma BadFormRejected(x: Times, t: string, f: Frame, stack: seq<Frame>)
    requires Wants(f) && LegalTimes(x) && (AtVal(f) ==> Repeats(x) == 1)
    requires BadForm(t, AtKey(f)) && (x.Once? ==> t != [])
    ensures Run(Config(TimesThen(x, t), f, stack)) == Rejected
  {
    hide StrToUL, NoLength, Placed, Value;
    TimesRead(x, t, f);
    if t != [] && t[0] in {'S', 'B'} && NoLength(t[1..]) { LengthMissing(t[1..]); }
    assert Peek(TimesThen(x, t)) != Closing(f) by {
      if x.Times? { assert TimesThen(x, t)[0] == x.digits[0]; }
    }
  }

  /** A multiplier of zero, of 2^32 or more, or other than one for a map value. */
  predicate BadTimes(x: Times, val: bool) {
    && x.Times? && Digits(x.digits) && Value(x.digits) < TWO_64
    && (Value(x.digits) == 0 || Value(x.digits) >= TWO_32 || (val && Value(x.digits) != 1))
  }

  lemma BadTimesRejected(x: Times, t: string, f: Frame, stack: seq<Frame>)
    requires Wants(f) && BadTimes(x, AtVal(f))
    ensures Run(Config(TimesThen(x, t), f, stack)) == Rejected
  {
    hide StrToUL, Value, Specifier;
    var star := "*" + GapThen(x.after, t);
    DigitsRead(x.digits, GapThen(x.before, star));
    assert TimesThen(x, t)[0] == x.digits[0];
    GapSkipped(x.before, star);
  }

  /** What has to follow an element: in a list a comma at once, or its end; after a key
      a colon; after a value a comma or the end. A space may come before all but the first. */
  predicate BadFollower(t: string, f: Frame) {
    if f.ListFrame? then Peek(t) != ',' && Peek(SkipSpace(t)) != f.closing
    else if f.want.Key? then Peek(SkipSpace(t)) != ':'
    else Peek(SkipSpace(t)) !in {',', '}'}
  }

  /** A legal element is rejected for what follows it, or for making its collection
      2^32 elements long. */
  lemma BadFollowerRejected(e: Elem, t: string, f: Frame, stack: seq<Frame>)
    requires LegalElem(e) && Suits(f, e) && Wants(f) && !Digit(Peek(t))
    requires BadFollower(t, f) || (!AtVal(f) && f.len + Repeats(e.times) >= TWO_32)
    ensures Run(Config(ElemThen(e, t), f, stack)) == Rejected
  {
    hide Run, ElemThen, SpecOf, Wrap32, LegalElem, Value;
    SmallRepeats(e);
    ElemAccepted(e, t, f, stack);
    WrapTest(f.len, SpecOf(e).repeats);
  }

  // ----- integer constants, in any collection at any depth -----

  /** The text of an integer: an optional sign, digits, and what follows. */
  function IntegerThen(sign: string, digits: string, t: string): string {
    sign + (digits + t)
  }

  function IntegerValue(sign: string, digits: string): int
    requires Digits(digits)
  {
    if sign == "-" then 0 - Value(digits) else Value(digits)
  }

  lemma IntegerRead(sign: string, digits: string, t: string)
    requires sign in {"", "-"} && Digits(digits) && !Digit(Peek(t))
    ensures var n := StrToL(IntegerThen(sign, digits, t));
      n.rest == t != IntegerThen(sign, digits, t) && (n.outOfRange <==> !(0 - TWO_63 <= IntegerValue(sign, digits) < TWO_63))
  {
    hide Scan, Value;
    if sign == "" {
      NoPrefix(digits + t);
      ScanDigits(digits, t);
    } else {
      ScanSigned(digits, t);
    }
    assert |IntegerThen(sign, digits, t)| > |t|;
  }

  /** A decimal integer that is not a multiplier and has no point ends the model's parse
      as a constant if it is a 64-bit number, has multiplier one as a key, and is properly
      followed; otherwise the text is rejected. */
  lemma IntegerConstant(x: Times, sign: string, digits: string, t: string, f: Frame, stack: seq<Frame>)
    requires Wants(f) && LegalTimes(x) && (AtVal(f) ==> Repeats(x) == 1) && sign in {"", "-"} && Digits(digits)
    requires !Digit(Peek(t)) && Peek(t) !in {'x', 'X'} && Peek(SkipSpace(t)) != '*'
    requires !DotBefore(IntegerThen(sign, digits, t), Closing(f))
    ensures Run(Config(TimesThen(x, IntegerThen(sign, digits, t)), f, stack)) ==
      if || !(0 - TWO_63 <= IntegerValue(sign, digits) < TWO_63) || (AtKey(f) && Repeats(x) != 1)
         || BadFollower(t, f) || (!AtVal(f) && f.len + Repeats(x) >= TWO_32)
      then Rejected else Constant
  {
    hide Run, Value, StrToL, StrToUL, Placed, DotBefore;
    var text := IntegerThen(sign, digits, t);
    var c := Config(TimesThen(x, text), f, stack);
    OneTurn(c);
    IntegerRead(sign, digits, t);
    IntegerStarts(x, sign, digits, t, f);
    IntegerNotSpecial(sign, digits, t);
    NumberPlaced(Spec(Repeats(x), Int(0)), t, f, stack);
  }

  lemma NumberPlaced(s: Spec, t: string, f: Frame, stack: seq<Frame>)
    requires Wants(f) && s.repeats < TWO_32
    ensures Placed(s, t, f, stack).Halt? <==> BadFollower(t, f) || (!AtVal(f) && f.len + s.repeats >= TWO_32)
  {
    hide Wrap32;
    WrapTest(f.len, s.repeats);
  }

  lemma IntegerNotSpecial(sign: string, digits: string, t: string)
    requires sign in {"", "-"} && Digits(digits) && Peek(t) !in {'x', 'X'}
    ensures var text := IntegerThen(sign, digits, t);
      text != [] && (text[0] == '-' || Digit(text[0])) && !(|text| > 1 && text[0] == '0' && text[1] in {'x', 'X'})
  {
    var text := IntegerThen(sign, digits, t);
    if sign == "" {
      NoPrefix(digits + t);
      assert text == digits + t && text[0] == digits[0];
      if |text| > 1 { assert text[1] == if |digits| > 1 then digits[1] else t[0]; }
    } else {
      assert text[0] == '-';
    }
  }

  /** The multiplier is read, and the integer is not taken for one. */
  lemma IntegerStarts(x: Times, sign: string, digits: string, t: string, f: Frame)
    requires Wants(f) && LegalTimes(x) && (AtVal(f) ==> Repeats(x) == 1) && sign in {"", "-"} && Digits(digits)
    requires !Digit(Peek(t)) && Peek(SkipSpace(t)) != '*'
    ensures var text := TimesThen(x, IntegerThen(sign, digits, t));
      ReadMultiplier(text, f) == Multiplier(Repeats(x), IntegerThen(sign, digits, t)) && Peek(text) != Closing(f)
  {
    hide Value, SkipSpace;
    var text := IntegerThen(sign, digits, t);
    assert text[0] == if sign == "" then digits[0] else '-';
    if x.Once? && sign == "" {
      NoPrefix(digits + t);
      if Value(digits) < TWO_64 { DigitsRead(digits, t); } else { ScanDigits(digits, t); }
    } else {
      TimesRead(x, text, f);
      if x.Times? { assert TimesThen(x, text)[0] == x.digits[0]; }
    }
  }

  /** A comma may end a list of bins; a space before a comma is rejected. */
  lemma CommaExamples()
    ensures Run(Config("b,", ROOT, [])) == Parsed([Spec(1, Bool)], 1)
    ensures Run(Config("b ,b", ROOT, [])) == Rejected
  {
    hide Run;
    var e := Elem(Once, BoolForm);
    var g := SomeBins(LastItem(e, true, false));
    assert BinsThen(g, "") == "b,";
    SumOne(Spec(1, Bool));
    TreeAccepted("b,", [Spec(1, Bool)], g, "");
    assert ElemThen(e, " ,b") == "b ,b";
    BadFollowerRejected(e, " ,b", ROOT, []);
  }

  /** The parser's loop: it accepts exactly the legal texts. */
  method Parse(text: string) returns (o: Outcome)
    ensures o == Run(Config(text, ROOT, []))
    ensures forall items: seq<Spec>, bins: nat :: o == Parsed(items, bins) <==> Derives(text, items) && bins == SumRepeats(items)
  {
    hide Derives, SumRepeats, Step;
    var c := Config(text, ROOT, []);
    var r := Step(c);
    while r.Go?
      invariant Resume(r) == Run(Config(text, ROOT, []))
      decreases if r.Go? then |r.c.text| + 1 else 0
    {
      r := Step(r.c);
    }
    o := r.o;
    forall items: seq<Spec>, bins: nat
      ensures o == Parsed(items, bins) <==> Derives(text, items) && bins == SumRepeats(items)
    {
      AcceptedIff(text, items, bins);
    }
  }
}

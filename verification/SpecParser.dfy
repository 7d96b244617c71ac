/** The object-spec parser: a stack of open collections over the remaining text.
    A constant value ends the model's parse, so every element parsed is variable
    and a collection is constant exactly when it is empty. An integer constant that
    is malformed, or followed by what cannot follow an element, is rejected. */
module SpecParser {
  import opened Bits
  import opened SpecSyntax

  /** What a map expects next. */
  datatype Want = Key | Val(key: Spec) | End

  /** An open collection: elements so far and their effective length. Its own
      multiplier waits until it is closed. */
  datatype Frame =
    | ListFrame(closing: char, repeats: nat, items: seq<Spec>, len: nat)
    | MapFrame(repeats: nat, pairs: seq<Pair>, want: Want, len: nat)

  /** The current collection, and the enclosing ones, innermost last. */
  datatype Config = Config(text: string, frame: Frame, stack: seq<Frame>)

  datatype Outcome =
    | Parsed(items: seq<Spec>, bins: nat)
    | Rejected
    | Constant // a constant value or collection comes next

  datatype Move = Go(c: Config) | Halt(o: Outcome)

  const ROOT := ListFrame('\0', 1, [], 0)

  function Peek(t: string): char {
    if t == [] then '\0' else t[0]
  }

  function SkipSpace(t: string): (r: string)
    ensures |r| <= |t|
  {
    if Peek(t) == ' ' then t[1..] else t
  }

  function Closing(f: Frame): char {
    if f.ListFrame? then f.closing else '}'
  }

  predicate AtKey(f: Frame) {
    f.MapFrame? && f.want.Key?
  }

  predicate AtVal(f: Frame) {
    f.MapFrame? && f.want.Val?
  }

  /** One turn of the parser's loop. */
  function Step(c: Config): (r: Move)
    ensures r.Go? ==> |r.c.text| < |c.text|
  {
    if Peek(c.text) == Closing(c.frame) then Close(c) else Element(c)
  }

  function Close(c: Config): (r: Move)
    requires Peek(c.text) == Closing(c.frame)
    ensures r.Go? ==> |r.c.text| < |c.text|
  {
    if c.stack == [] || c.text == [] then
      if c.stack == [] && c.frame.ListFrame? then Halt(Parsed(c.frame.items, c.frame.len)) else Halt(Rejected)
    else
      var n := |c.stack| - 1;
      match c.frame
      case ListFrame(_, repeats, items, len) =>
        if items == [] then Halt(Constant)
        else Placed(Spec(repeats, List(len, items)), c.text[1..], c.stack[n], c.stack[..n])
      case MapFrame(repeats, pairs, want, len) =>
        if want.Val? then Halt(Rejected)
        else if pairs == [] then Halt(Constant)
        else if want.Key? then Halt(Rejected)
        else Placed(Spec(repeats, Map(len, pairs)), c.text[1..], c.stack[n], c.stack[..n])
  }

  /** A multiplier and the text after it; repeats 0 stands for a rejected one. */
  datatype Multiplier = Multiplier(repeats: nat, rest: string)

  function ReadMultiplier(t: string, f: Frame): (r: Multiplier)
    ensures |r.rest| <= |t|
  {
    if !Digit(Peek(t)) || StrToUL(t).outOfRange then Multiplier(1, t)
    else
      var n := StrToUL(t);
      var u := SkipSpace(n.rest);
      if Peek(u) != '*' then Multiplier(1, t)
      else if (AtVal(f) && n.value != 1) || n.value >= TWO_32 then Multiplier(0, t)
      else Multiplier(n.value, SkipSpace(u[1..]))
  }

  function Element(c: Config): (r: Move)
    requires Peek(c.text) != Closing(c.frame)
    ensures r.Go? ==> |r.c.text| < |c.text|
  {
    var m := ReadMultiplier(c.text, c.frame);
    if m.repeats == 0 then Halt(Rejected)
    else if m.rest == [] then Halt(Rejected)
    else Specifier(m.repeats, m.rest, c.frame, c.stack)
  }

  function Specifier(repeats: nat, t: string, f: Frame, stack: seq<Frame>): (r: Move)
    requires t != []
    ensures r.Go? ==> |r.c.text| < |t|
  {
    match t[0]
    case 'b' => if AtKey(f) then Halt(Rejected) else Placed(Spec(repeats, Bool), t[1..], f, stack)
    case 'I' =>
      if |t| > 1 && '1' <= t[1] <= '8' then Placed(Spec(repeats, Int(t[1] as nat - '1' as nat)), t[2..], f, stack)
      else Placed(Spec(repeats, Int(3)), t[1..], f, stack)
    case 'S' =>
      var n := StrToUL(t[1..]);
      if n.rest == t[1..] || n.value >= TWO_32 then Halt(Rejected)
      else Placed(Spec(repeats, Str(n.value)), n.rest, f, stack)
    case 'B' =>
      var n := StrToUL(t[1..]);
      if n.rest == t[1..] || n.value >= TWO_32 then Halt(Rejected)
      else Placed(Spec(repeats, Bytes(n.value)), n.rest, f, stack)
    case 'D' => if AtKey(f) then Halt(Rejected) else Placed(Spec(repeats, Double), t[1..], f, stack)
    case '[' =>
      if AtKey(f) then Halt(Rejected)
      else Go(Config(SkipSpace(t[1..]), ListFrame(']', repeats, [], 0), stack + [f]))
    case '{' =>
      if AtKey(f) then Halt(Rejected)
      else Go(Config(SkipSpace(t[1..]), MapFrame(repeats, [], Key, 0), stack + [f]))
    case _ => Halt(ConstantNext(repeats, t, f, stack))
  }

  /** The text has a '.' before the next comma or closing character. */
  predicate DotBefore(t: string, closing: char) {
    t != [] && t[0] !in {',', closing, '\0'} && (t[0] == '.' || DotBefore(t[1..], closing))
  }

  /** A constant value: a boolean or string by its first character, a double by its
      '.', a hexadecimal by its prefix; otherwise a decimal integer. */
  function ConstantNext(repeats: nat, t: string, f: Frame, stack: seq<Frame>): (o: Outcome)
    requires t != []
    ensures !o.Parsed?
  {
    if t[0] in {'T', 't', 'F', 'f', '"'} || DotBefore(t, Closing(f)) || (|t| > 1 && t[0] == '0' && t[1] in {'x', 'X'}) then
      Constant
    else
      var n := StrToL(t);
      if n.outOfRange || n.rest == t || (AtKey(f) && repeats != 1) then Rejected
      else if Placed(Spec(repeats, Int(0)), n.rest, f, stack).Halt? then Rejected
      else Constant
  }

  function WithItem(f: Frame, s: Spec): Frame
    requires f.ListFrame?
  {
    f.(items := f.items + [s], len := Wrap32(f.len + s.repeats))
  }

  function WithKey(f: Frame, s: Spec): Frame
    requires AtKey(f)
  {
    f.(want := Val(s), len := Wrap32(f.len + s.repeats))
  }

  function WithVal(f: Frame, s: Spec, next: Want): Frame
    requires AtVal(f)
  {
    f.(pairs := f.pairs + [Pair(f.want.key, s)], want := next)
  }

  /** An element is complete: record it, reject a 32-bit length that wrapped, and
      read what separates it from the next. */
  function Placed(s: Spec, t: string, f: Frame, stack: seq<Frame>): (r: Move)
    ensures r.Go? ==> |r.c.text| <= |t|
  {
    var u := SkipSpace(t);
    if f.ListFrame? then
      if WithItem(f, s).len < s.repeats then Halt(Rejected)
      else if Peek(t) == ',' then Go(Config(SkipSpace(t[1..]), WithItem(f, s), stack))
      else if Peek(u) != f.closing then Halt(Rejected)
      else Go(Config(u, WithItem(f, s), stack))
    else if f.want.Key? then
      if WithKey(f, s).len < s.repeats || Peek(u) != ':' then Halt(Rejected)
      else Go(Config(SkipSpace(u[1..]), WithKey(f, s), stack))
    else if f.want.Val? then
      if Peek(u) == ',' then Go(Config(SkipSpace(u[1..]), WithVal(f, s, Key), stack))
      else if Peek(u) != '}' then Halt(Rejected)
      else Go(Config(u, WithVal(f, s, End), stack))
    else Halt(Rejected)
  }

  /** The whole parse; the remaining text is its measure. */
  function Run(c: Config): Outcome
    decreases |c.text|
  {
    var r := Step(c);
    if r.Halt? then r.o else Run(r.c)
  }

  function Resume(r: Move): Outcome {
    if r.Halt? then r.o else Run(r.c)
  }

  // ----- what is parsed is well formed -----

  ghost predicate PairOk(p: Pair) {
    WellFormed(p.key) && KeyKind(p.key.kind) && WellFormed(p.val) && p.val.repeats == 1
  }

  ghost predicate FrameOk(f: Frame) {
    && 1 <= f.repeats < TWO_32 && f.len < TWO_32
    && match f
       case ListFrame(_, _, items, len) => AllWellFormed(items) && len == SumRepeats(items)
       case MapFrame(_, pairs, want, len) =>
         && (forall i :: 0 <= i < |pairs| ==> PairOk(pairs[i]))
         && (if want.Val? then
               WellFormed(want.key) && KeyKind(want.key.kind) && len == SumKeys(pairs) + want.key.repeats
             else len == SumKeys(pairs))
         && (want.End? ==> pairs != [])
  }

  /** Frame f can take an element with this multiplier and kind. */
  ghost predicate Accepts(f: Frame, repeats: nat) {
    f.ListFrame? || (AtVal(f) && repeats == 1)
  }

  ghost predicate StackOk(stack: seq<Frame>, repeats: nat) {
    stack != [] ==>
      var f := stack[|stack| - 1];
      FrameOk(f) && Accepts(f, repeats) && StackOk(stack[..|stack| - 1], f.repeats)
  }

  ghost predicate ConfigOk(c: Config) {
    && FrameOk(c.frame) && StackOk(c.stack, c.frame.repeats)
    && (c.frame.MapFrame? && c.frame.want.End? ==> Peek(c.text) == '}')
  }

  /** The overflow test on a 32-bit sum catches exactly the sums that wrap. */
  lemma WrapTest(a: nat, b: nat)
    requires a < TWO_32 && b < TWO_32
    ensures Wrap32(a + b) < b <==> a + b >= TWO_32
    ensures a + b < TWO_32 ==> Wrap32(a + b) == a + b
  {
  }

  lemma RepeatsFit(s: Spec)
    requires WellFormed(s)
    ensures 1 <= s.repeats < TWO_32
  {
  }

  lemma ItemOk(f: Frame, s: Spec)
    requires FrameOk(f) && f.ListFrame? && WellFormed(s) && WithItem(f, s).len >= s.repeats
    ensures FrameOk(WithItem(f, s))
  {
    hide WellFormed, SumRepeats, Wrap32;
    RepeatsFit(s);
    WrapTest(f.len, s.repeats);
    SumSnoc(f.items, s);
  }

  lemma KeyOk(f: Frame, s: Spec)
    requires FrameOk(f) && AtKey(f) && WellFormed(s) && KeyKind(s.kind) && WithKey(f, s).len >= s.repeats
    ensures FrameOk(WithKey(f, s))
  {
    hide WellFormed, SumKeys, Wrap32;
    RepeatsFit(s);
    WrapTest(f.len, s.repeats);
  }

  lemma ValOk(f: Frame, s: Spec, next: Want)
    requires FrameOk(f) && AtVal(f) && WellFormed(s) && s.repeats == 1 && !next.Val?
    ensures FrameOk(WithVal(f, s, next))
  {
    hide WellFormed, SumKeys;
    SumKeysSnoc(f.pairs, Pair(f.want.key, s));
  }

  lemma PlacedOk(s: Spec, t: string, f: Frame, stack: seq<Frame>)
    requires FrameOk(f) && StackOk(stack, f.repeats) && WellFormed(s)
    requires AtVal(f) ==> s.repeats == 1
    requires AtKey(f) ==> KeyKind(s.kind)
    ensures Placed(s, t, f, stack).Go? ==> ConfigOk(Placed(s, t, f, stack).c)
    ensures Placed(s, t, f, stack).Halt? ==> Placed(s, t, f, stack).o == Rejected
  {
    hide WellFormed, StackOk, FrameOk, Wrap32;
    if f.ListFrame? {
      if WithItem(f, s).len >= s.repeats { ItemOk(f, s); }
    } else if f.want.Key? {
      if WithKey(f, s).len >= s.repeats { KeyOk(f, s); }
    } else if f.want.Val? {
      ValOk(f, s, Key);
      ValOk(f, s, End);
    }
  }

  ghost predicate MoveOk(r: Move) {
    if r.Go? then ConfigOk(r.c) else !r.o.Parsed?
  }

  /** A complete scalar is recorded safely wherever it may stand. */
  lemma ScalarOk(s: Spec, t: string, f: Frame, stack: seq<Frame>)
    requires FrameOk(f) && StackOk(stack, f.repeats) && WellFormed(s)
    requires AtVal(f) ==> s.repeats == 1
    requires AtKey(f) ==> KeyKind(s.kind)
    ensures MoveOk(Placed(s, t, f, stack))
  {
    hide FrameOk, StackOk, WellFormed, Placed, ConfigOk;
    PlacedOk(s, t, f, stack);
  }

  lemma ScalarWellFormed(repeats: nat, k: Kind)
    requires 1 <= repeats < TWO_32 && !k.List? && !k.Map?
    requires (k.Int? ==> k.range <= 7) && (k.Str? || k.Bytes? ==> k.len < TWO_32)
    ensures WellFormed(Spec(repeats, k))
  {
  }

  lemma OpenOk(inner: Frame, t: string, f: Frame, stack: seq<Frame>)
    requires FrameOk(f) && StackOk(stack, f.repeats) && FrameOk(inner) && Accepts(f, inner.repeats)
    requires inner.MapFrame? ==> !inner.want.End?
    ensures ConfigOk(Config(t, inner, stack + [f]))
  {
    hide FrameOk, Accepts;
    assert (stack + [f])[..|stack|] == stack;
  }

  lemma EmptyFramesOk(repeats: nat)
    requires 1 <= repeats < TWO_32
    ensures FrameOk(ListFrame(']', repeats, [], 0)) && FrameOk(MapFrame(repeats, [], Key, 0))
  {
  }

  lemma SpecifierOk(repeats: nat, t: string, f: Frame, stack: seq<Frame>)
    requires t != [] && FrameOk(f) && StackOk(stack, f.repeats) && 1 <= repeats < TWO_32
    requires AtVal(f) ==> repeats == 1
    requires f.MapFrame? ==> !f.want.End?
    ensures MoveOk(Specifier(repeats, t, f, stack))
  {
    hide Placed, StrToUL, WellFormed, FrameOk, StackOk, ConfigOk;
    match t[0]
    case 'b' =>
      ScalarWellFormed(repeats, Bool);
      if !AtKey(f) { ScalarOk(Spec(repeats, Bool), t[1..], f, stack); }
    case 'I' =>
      if |t| > 1 && '1' <= t[1] <= '8' {
        var k := Int(t[1] as nat - '1' as nat);
        ScalarWellFormed(repeats, k);
        ScalarOk(Spec(repeats, k), t[2..], f, stack);
      } else {
        ScalarWellFormed(repeats, Int(3));
        ScalarOk(Spec(repeats, Int(3)), t[1..], f, stack);
      }
    case 'S' =>
      var n := StrToUL(t[1..]);
      if n.value < TWO_32 {
        ScalarWellFormed(repeats, Str(n.value));
        ScalarOk(Spec(repeats, Str(n.value)), n.rest, f, stack);
      }
    case 'B' =>
      var n := StrToUL(t[1..]);
      if n.value < TWO_32 {
        ScalarWellFormed(repeats, Bytes(n.value));
        ScalarOk(Spec(repeats, Bytes(n.value)), n.rest, f, stack);
      }
    case 'D' =>
      ScalarWellFormed(repeats, Double);
      if !AtKey(f) { ScalarOk(Spec(repeats, Double), t[1..], f, stack); }
    case _ =>
      EmptyFramesOk(repeats);
      if !AtKey(f) {
        OpenOk(ListFrame(']', repeats, [], 0), SkipSpace(t[1..]), f, stack);
        OpenOk(MapFrame(repeats, [], Key, 0), SkipSpace(t[1..]), f, stack);
      }
  }

  lemma CloseOk(c: Config)
    requires ConfigOk(c) && Peek(c.text) == Closing(c.frame)
    ensures Close(c).Go? ==> ConfigOk(Close(c).c)
    ensures Close(c).Halt? ==> GoodOutcome(Close(c).o)
  {
    hide Placed;
    if c.stack != [] && c.text != [] {
      var n := |c.stack| - 1;
      assert Accepts(c.stack[n], c.frame.repeats);
      match c.frame
      case ListFrame(_, repeats, items, len) =>
        if items != [] { PlacedOk(Spec(repeats, List(len, items)), c.text[1..], c.stack[n], c.stack[..n]); }
      case MapFrame(repeats, pairs, want, len) =>
        if want.End? {
          assert forall i :: 0 <= i < |pairs| ==> PairOk(pairs[i]);
          assert WellFormed(Spec(repeats, Map(len, pairs)));
          PlacedOk(Spec(repeats, Map(len, pairs)), c.text[1..], c.stack[n], c.stack[..n]);
        }
    }
  }

  ghost predicate GoodOutcome(o: Outcome) {
    o.Parsed? ==> AllWellFormed(o.items) && o.bins == SumRepeats(o.items) < TWO_32
  }

  lemma StepOk(c: Config)
    requires ConfigOk(c)
    ensures if Step(c).Go? then ConfigOk(Step(c).c) else GoodOutcome(Step(c).o)
  {
    hide Specifier, ReadMultiplier, FrameOk, StackOk, Close, AllWellFormed;
    if Peek(c.text) == Closing(c.frame) {
      CloseOk(c);
    } else {
      var m := ReadMultiplier(c.text, c.frame);
      MultiplierOk(c.text, c.frame);
      if m.repeats != 0 && m.rest != [] {
        SpecifierOk(m.repeats, m.rest, c.frame, c.stack);
      }
    }
  }

  lemma MultiplierOk(t: string, f: Frame)
    ensures ReadMultiplier(t, f).repeats < TWO_32
    ensures AtVal(f) ==> ReadMultiplier(t, f).repeats <= 1
  {
    hide StrToUL;
  }

  lemma {:induction false} RunOk(c: Config)
    requires ConfigOk(c)
    ensures GoodOutcome(Run(c))
    decreases |c.text|
  {
    StepOk(c);
    hide Step, ConfigOk, GoodOutcome;
    if Step(c).Go? { RunOk(Step(c).c); }
  }

  /** Whatever text is accepted, every multiplier is at least 1, every stored length
      is the sum of its multipliers without 32-bit wrap, map keys are scalar and
      map values have multiplier 1. */
  lemma ParsedIsWellFormed(text: string)
    ensures GoodOutcome(Run(Config(text, ROOT, [])))
  {
    RunOk(Config(text, ROOT, []));
  }
}

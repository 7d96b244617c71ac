/** Parsing a printed object spec. Multipliers are printed as signed numbers, so
    one of 2^31 or more comes out negative and the text is rejected. */
module SpecRoundTrip {
  import opened Bits
  import opened Sequences
  import opened SpecSyntax
  import opened SpecParser

  /** Every multiplier in the tree prints as a positive number. */
  predicate Printable(s: Spec)
    decreases s
  {
    && s.repeats < TWO_31
    && match s.kind
       case List(_, items) => forall i :: 0 <= i < |items| ==> Printable(items[i])
       case Map(_, pairs) => forall i :: 0 <= i < |pairs| ==> Printable(pairs[i].key) && Printable(pairs[i].val)
       case _ => true
  }

  /** Text that opens an element: no space, separator or closing character. */
  predicate Opens(t: string) {
    t != [] && t[0] !in {' ', ',', ':', ']', '}', '\0'}
  }

  lemma KindOpens(s: Spec, rest: string)
    requires WellFormed(s)
    ensures Opens(PrintKind(s.kind, s) + rest) && !Digit(Peek(PrintKind(s.kind, s) + rest))
    ensures PrintKind(s.kind, s)[0] != '-'
  {
    hide PrintItems, PrintPairs, Decimal;
  }

  lemma PrintOpens(s: Spec, rest: string)
    requires WellFormed(s)
    ensures Opens(Print(s) + rest)
  {
    KindOpens(s, rest);
    hide PrintKind, WellFormed;
    if s.repeats != 1 {
      var ds := Signed(s.repeats);
      assert ds[0] == '-' || Digit(ds[0]);
      assert (Print(s) + rest)[0] == ds[0];
    } else {
      assert Print(s) == PrintKind(s.kind, s);
    }
  }

  lemma MultiplierText(n: nat, k: string, f: Frame)
    requires 1 < n < TWO_31 && Opens(k) && !AtVal(f)
    ensures ReadMultiplier(Decimal(n) + ("*" + k), f) == Multiplier(n, k)
  {
    var star := "*" + k;
    ReadDecimal(n, star);
    assert star[1..] == k;
    assert (Decimal(n) + star)[0] == Decimal(n)[0];
    hide Decimal, StrToUL;
  }

  /** A printed multiplier is read back and leaves the printed kind. */
  lemma MultiplierBack(s: Spec, rest: string, f: Frame)
    requires WellFormed(s) && s.repeats < TWO_31 && (AtVal(f) ==> s.repeats == 1)
    ensures ReadMultiplier(Print(s) + rest, f) == Multiplier(s.repeats, PrintKind(s.kind, s) + rest)
  {
    KindOpens(s, rest);
    assert s.repeats >= 1;
    hide PrintKind, WellFormed, StrToUL, Decimal;
    var k := PrintKind(s.kind, s) + rest;
    if s.repeats == 1 {
      NoPrefix(PrintKind(s.kind, s));
    } else {
      Regroup(Decimal(s.repeats), "*", PrintKind(s.kind, s), rest);
      MultiplierText(s.repeats, k, f);
      hide ReadMultiplier;
    }
  }

  lemma TailAfter(c: char, ds: string, rest: string)
    requires ds != []
    ensures ([c] + ds + rest)[1..] == ds + rest != rest
  {
    assert [c] + ds + rest == [c] + (ds + rest);
    assert |ds + rest| > |rest|;
  }

  lemma NumberBack(n: nat, rest: string, c: char)
    requires n < TWO_32 && !Digit(Peek(rest))
    ensures var t := [c] + Decimal(n) + rest;
      StrToUL(t[1..]) == Number(n, false, rest) && rest != t[1..]
  {
    hide Decimal, StrToUL;
    ReadDecimal(n, rest);
    TailAfter(c, Decimal(n), rest);
  }

  lemma IntBack(r: nat, rest: string)
    requires r <= 7
    ensures var t := "I" + Decimal(r + 1) + rest;
      |t| > 1 && '1' <= t[1] <= '8' && t[1] as nat - '1' as nat == r && t[2..] == rest
  {
  }

  lemma PlainBack(s: Spec, rest: string, f: Frame, stack: seq<Frame>)
    requires WellFormed(s) && (s.kind.Bool? || s.kind.Double?) && !AtKey(f)
    ensures PrintKind(s.kind, s) + rest != []
    ensures Specifier(s.repeats, PrintKind(s.kind, s) + rest, f, stack) == Placed(s, rest, f, stack)
  {
    hide Placed, StrToUL, WellFormed;
    DropFirst('b', rest);
    DropFirst('D', rest);
  }

  lemma IntKindBack(s: Spec, rest: string, f: Frame, stack: seq<Frame>)
    requires WellFormed(s) && s.kind.Int?
    ensures PrintKind(s.kind, s) + rest != []
    ensures Specifier(s.repeats, PrintKind(s.kind, s) + rest, f, stack) == Placed(s, rest, f, stack)
  {
    hide Placed, Specifier, Decimal, WellFormed;
    IntRange(s);
    IntBack(s.kind.range, rest);
    SpecifierInt(s.repeats, "I" + Decimal(s.kind.range + 1) + rest, f, stack);
  }

  lemma IntRange(s: Spec)
    requires WellFormed(s) && s.kind.Int?
    ensures s.kind.range <= 7
  {
  }

  lemma SpecifierInt(repeats: nat, t: string, f: Frame, stack: seq<Frame>)
    requires |t| > 1 && t[0] == 'I' && '1' <= t[1] <= '8'
    ensures Specifier(repeats, t, f, stack) == Placed(Spec(repeats, Int(t[1] as nat - '1' as nat)), t[2..], f, stack)
  {
    hide Placed, StrToUL;
  }

  lemma LengthKindBack(s: Spec, rest: string, f: Frame, stack: seq<Frame>)
    requires WellFormed(s) && (s.kind.Str? || s.kind.Bytes?) && !Digit(Peek(rest))
    ensures PrintKind(s.kind, s) + rest != []
    ensures Specifier(s.repeats, PrintKind(s.kind, s) + rest, f, stack) == Placed(s, rest, f, stack)
  {
    hide Placed, StrToUL, Decimal;
    NumberBack(s.kind.len, rest, if s.kind.Str? then 'S' else 'B');
  }

  lemma ScalarBack(s: Spec, rest: string, f: Frame, stack: seq<Frame>)
    requires WellFormed(s) && !s.kind.List? && !s.kind.Map? && (AtKey(f) ==> KeyKind(s.kind)) && !Digit(Peek(rest))
    ensures PrintKind(s.kind, s) + rest != []
    ensures Specifier(s.repeats, PrintKind(s.kind, s) + rest, f, stack) == Placed(s, rest, f, stack)
  {
    hide Placed, Specifier, PrintKind, WellFormed;
    match s.kind
    case Int(_) => IntKindBack(s, rest, f, stack);
    case Str(_) => LengthKindBack(s, rest, f, stack);
    case Bytes(_) => LengthKindBack(s, rest, f, stack);
    case _ => PlainBack(s, rest, f, stack);
  }

  // ----- printed text has no dots -----

  ghost predicate Dotless(t: string) {
    forall i :: 0 <= i < |t| ==> t[i] != '.'
  }

  lemma DotlessJoin(a: string, b: string)
    requires Dotless(a) && Dotless(b)
    ensures Dotless(a + b)
  {
  }

  lemma DotlessDigits(t: string)
    requires forall i :: 0 <= i < |t| ==> Digit(t[i])
    ensures Dotless(t) && Dotless("-" + t)
  {
  }

  lemma DotlessNumber(n: nat)
    ensures Dotless(Decimal(n)) && (n < TWO_32 ==> Dotless(Signed(n)))
  {
    hide Decimal;
    DotlessDigits(Decimal(n));
    if n < TWO_32 { DotlessDigits(Decimal(TWO_32 - n)); }
  }

  lemma {:induction false} DotlessPrint(s: Spec)
    requires WellFormed(s)
    ensures Dotless(Print(s))
    decreases s, 1
  {
    DotlessNumber(s.repeats);
    DotlessKind(s);
  }

  lemma {:induction false} DotlessKind(s: Spec)
    requires WellFormed(s)
    ensures Dotless(PrintKind(s.kind, s))
    decreases s, 0
  {
    match s.kind
    case Int(r) => DotlessNumber(r + 1);
    case Str(n) => DotlessNumber(n);
    case Bytes(n) => DotlessNumber(n);
    case List(length, items) => DotlessItems(items, length, 0, ",");
    case Map(_, pairs) => DotlessPairs(pairs);
    case _ =>
  }

  lemma {:induction false} DotlessItems(items: seq<Spec>, length: nat, count: nat, sep: string)
    requires AllWellFormed(items) && Dotless(sep)
    ensures Dotless(PrintItems(items, length, count, sep))
    decreases items, 0
  {
    if items != [] && count < length {
      var next := count + items[0].repeats;
      DotlessPrint(items[0]);
      assert AllWellFormed(items[1..]);
      DotlessItems(items[1..], length, next, sep);
      DotlessJoin(Print(items[0]), if next != length then sep else "");
      DotlessJoin(Print(items[0]) + (if next != length then sep else ""), PrintItems(items[1..], length, next, sep));
      hide Print, WellFormed, Dotless;
    }
  }

  lemma {:induction false} DotlessPair(p: Pair)
    requires WellFormed(p.key) && WellFormed(p.val)
    ensures Dotless(PrintPair(p))
    decreases p, 0
  {
    hide Print, WellFormed;
    DotlessPrint(p.key);
    DotlessPrint(p.val);
  }

  lemma {:induction false} DotlessPairs(pairs: seq<Pair>)
    requires forall i :: 0 <= i < |pairs| ==> WellFormed(pairs[i].key) && WellFormed(pairs[i].val)
    ensures Dotless(PrintPairs(pairs))
    decreases pairs, 0
  {
    hide PrintPair, WellFormed;
    if pairs != [] {
      DotlessPair(pairs[0]);
      DotlessPairs(pairs[1..]);
    }
  }

  lemma {:induction false} NoDotBefore(t: string, closing: char)
    requires Dotless(t)
    ensures !DotBefore(t, closing)
  {
    if t != [] { NoDotBefore(t[1..], closing); }
  }

  // ----- lists -----

  lemma SumPrefix(items: seq<Spec>, k: nat)
    requires k < |items| && AllWellFormed(items)
    ensures SumRepeats(items[..k + 1]) == SumRepeats(items[..k]) + items[k].repeats
    ensures SumRepeats(items[..k]) < SumRepeats(items[..k + 1]) <= SumRepeats(items)
    ensures SumRepeats(items[..k + 1]) == SumRepeats(items) <==> k + 1 == |items|
    decreases |items| - k
  {
    assert items[..k + 1][..k] == items[..k];
    assert WellFormed(items[k]);
    hide WellFormed;
    if k + 1 < |items| {
      SumPrefix(items, k + 1);
    } else {
      assert items[..k + 1] == items;
    }
  }

  /** What remains to be printed from element k on. */
  function ItemsFrom(items: seq<Spec>, k: nat, sep: string): string
    requires k <= |items| && AllWellFormed(items)
  {
    PrintItems(items[k..], SumRepeats(items), SumRepeats(items[..k]), sep)
  }

  lemma ItemsFromNext(items: seq<Spec>, k: nat, sep: string)
    requires k < |items| && AllWellFormed(items)
    ensures ItemsFrom(items, k, sep) ==
      Print(items[k]) + (if k + 1 < |items| then sep else "") + ItemsFrom(items, k + 1, sep)
  {
    SumPrefix(items, k);
    assert items[k..][1..] == items[k + 1..];
    hide Print, SumRepeats, WellFormed;
  }

  ghost predicate RestPrintable(items: seq<Spec>, k: nat) {
    forall i :: k <= i < |items| ==> Printable(items[i])
  }

  function ListAt(f: Frame, items: seq<Spec>, k: nat): Frame
    requires f.ListFrame? && k <= |items|
  {
    f.(items := items[..k], len := SumRepeats(items[..k]))
  }

  lemma ItemBounds(items: seq<Spec>, k: nat)
    requires k < |items| && AllWellFormed(items)
    ensures 1 <= items[k].repeats < TWO_32
  {
    assert WellFormed(items[k]);
  }

  lemma RecordItem(items: seq<Spec>, k: nat, f: Frame)
    requires f.ListFrame? && k < |items| && AllWellFormed(items) && SumRepeats(items) < TWO_32
    ensures WithItem(ListAt(f, items, k), items[k]) == ListAt(f, items, k + 1)
    ensures ListAt(f, items, k + 1).len >= items[k].repeats
  {
    hide AllWellFormed, SumRepeats, Wrap32;
    SumPrefix(items, k);
    ItemBounds(items, k);
    WrapTest(SumRepeats(items[..k]), items[k].repeats);
    TakeNext(items, k);
  }

  lemma AfterComma(more: string, sep: string)
    requires sep in {",", ", "} && Opens(more)
    ensures Peek(sep + more) == ',' && SkipSpace((sep + more)[1..]) == more
  {
    var u := sep + more;
    if sep == "," {
      assert u[1..] == more;
    } else {
      assert u[1..] == " " + more && u[1..][1..] == more;
    }
  }

  /** Recording element k and reading the separator, or the closing character. */
  lemma NextItem(items: seq<Spec>, k: nat, sep: string, more: string, f: Frame, stack: seq<Frame>)
    requires f.ListFrame? && k < |items| && AllWellFormed(items) && SumRepeats(items) < TWO_32
    requires sep in {",", ", "} && Opens(more)
    ensures Placed(items[k], sep + more, ListAt(f, items, k), stack) == Go(Config(more, ListAt(f, items, k + 1), stack))
  {
    hide WithItem, AllWellFormed, SumRepeats, SkipSpace, Peek, Opens;
    RecordItem(items, k, f);
    AfterComma(more, sep);
  }

  lemma LastItem(items: seq<Spec>, k: nat, tail: string, f: Frame, stack: seq<Frame>)
    requires f.ListFrame? && k < |items| && AllWellFormed(items) && SumRepeats(items) < TWO_32
    requires Peek(tail) == f.closing && f.closing in {'\0', ']'}
    ensures Placed(items[k], tail, ListAt(f, items, k), stack) == Go(Config(tail, ListAt(f, items, k + 1), stack))
  {
    hide WithItem, AllWellFormed, SumRepeats;
    RecordItem(items, k, f);
  }

  lemma RestSplits(items: seq<Spec>, k: nat)
    requires k < |items|
    ensures RestPrintable(items, k) <==> Printable(items[k]) && RestPrintable(items, k + 1)
  {
    hide Printable;
  }

  lemma {:induction false} ItemsBack(items: seq<Spec>, k: nat, sep: string, tail: string, f: Frame, stack: seq<Frame>)
    requires f.ListFrame? && k <= |items| && AllWellFormed(items) && SumRepeats(items) < TWO_32
    requires sep in {",", ", "} && Peek(tail) == f.closing && f.closing in {'\0', ']'} && Dotless(tail)
    ensures Run(Config(ItemsFrom(items, k, sep) + tail, ListAt(f, items, k), stack)) ==
      if RestPrintable(items, k) then Run(Config(tail, ListAt(f, items, |items|), stack)) else Rejected
    decreases items, |items| - k
  {
    if k == |items| {
      assert ItemsFrom(items, k, sep) + tail == tail;
      hide Run, ItemsFrom, WellFormed;
    } else {
      ItemsFromNext(items, k, sep);
      RestSplits(items, k);
      hide Print, WellFormed, Printable, SumRepeats, Placed, Run, RestPrintable, ListAt;
      if k + 1 < |items| {
        MoreOpens(items, k + 1, sep, tail);
        hide ItemsFrom;
        var more := ItemsFrom(items, k + 1, sep) + tail;
        Regroup(Print(items[k]), sep, ItemsFrom(items, k + 1, sep), tail);
        DotlessRest(items, k + 1, sep, tail);
        ElementBack(items[k], sep + more, ListAt(f, items, k), stack);
        NextItem(items, k, sep, more, f, stack);
      } else {
        assert ItemsFrom(items, k + 1, sep) == "";
        hide ItemsFrom;
        Regroup(Print(items[k]), "", "", tail);
        NoPrefix(tail);
        ElementBack(items[k], tail, ListAt(f, items, k), stack);
        LastItem(items, k, tail, f, stack);
      }
      ItemsBack(items, k + 1, sep, tail, f, stack);
    }
  }

  lemma DotlessRest(items: seq<Spec>, k: nat, sep: string, tail: string)
    requires k <= |items| && AllWellFormed(items) && Dotless(tail) && sep in {",", ", "}
    ensures Dotless(sep + (ItemsFrom(items, k, sep) + tail))
  {
    hide PrintItems, WellFormed;
    DotlessItems(items[k..], SumRepeats(items), SumRepeats(items[..k]), sep);
  }

  lemma MoreOpens(items: seq<Spec>, k: nat, sep: string, tail: string)
    requires k < |items| && AllWellFormed(items)
    ensures Opens(ItemsFrom(items, k, sep) + tail)
  {
    ItemsFromNext(items, k, sep);
    var rest := (if k + 1 < |items| then sep else "") + ItemsFrom(items, k + 1, sep) + tail;
    hide Print, ItemsFrom, WellFormed;
    PrintOpens(items[k], rest);
    assert ItemsFrom(items, k, sep) + tail == Print(items[k]) + rest;
  }

  // ----- one element -----

  /** The parser reaches the kind behind a positive multiplier ... */
  lemma ReachesKind(s: Spec, rest: string, f: Frame, stack: seq<Frame>)
    requires WellFormed(s) && s.repeats < TWO_31 && Closing(f) in {'\0', ']', '}'} && (AtVal(f) ==> s.repeats == 1)
    ensures PrintKind(s.kind, s) + rest != []
    ensures Run(Config(Print(s) + rest, f, stack)) == Resume(Specifier(s.repeats, PrintKind(s.kind, s) + rest, f, stack))
  {
    PrintOpens(s, rest);
    KindOpens(s, rest);
    MultiplierBack(s, rest, f);
    assert s.repeats >= 1;
    hide Print, PrintKind, WellFormed, Specifier, ReadMultiplier;
  }

  /** Whatever follows an element, a '*' may not. */
  lemma StarRejected(s: Spec, more: string, f: Frame, stack: seq<Frame>)
    requires Closing(f) in {'\0', ']', '}'}
    ensures Placed(s, "*" + more, f, stack).Halt?
  {
    hide Wrap32;
  }

  lemma SignedText(s: Spec, rest: string)
    requires WellFormed(s) && s.repeats >= TWO_31 && Dotless(rest)
    ensures var more := PrintKind(s.kind, s) + rest;
      Dotless(Print(s) + rest) && Print(s) + rest == "-" + (Decimal(TWO_32 - s.repeats) + ("*" + more))
  {
    hide PrintKind, Decimal;
    DotlessPrint(s);
    DotlessJoin(Print(s), rest);
    var ds, k := Decimal(TWO_32 - s.repeats), PrintKind(s.kind, s);
    assert Print(s) == "-" + ds + "*" + k;
    assert "-" + ds + "*" + k + rest == "-" + (ds + ("*" + (k + rest)));
  }

  /** ... and rejects a negative one, read as a constant that a '*' follows. */
  lemma StopsAtSign(s: Spec, rest: string, f: Frame, stack: seq<Frame>)
    requires WellFormed(s) && s.repeats >= TWO_31 && Closing(f) in {'\0', ']', '}'} && Dotless(rest)
    ensures Run(Config(Print(s) + rest, f, stack)) == Rejected
  {
    hide Print, PrintKind, WellFormed, StrToUL, StrToL, Placed, Dotless, DotBefore, Decimal;
    var t := Print(s) + rest;
    var more := PrintKind(s.kind, s) + rest;
    SignedText(s, rest);
    RepeatsFit(s);
    ReadNegative(TWO_32 - s.repeats, "*" + more);
    NoDotBefore(t, Closing(f));
    StarRejected(Spec(1, Int(0)), more, f, stack);
    assert t[0] == '-';
    assert ConstantNext(1, t, f, stack) == Rejected;
  }

  /** Parsing a printed element leads to recording it, or is rejected. */
  lemma {:induction false} ElementBack(s: Spec, rest: string, f: Frame, stack: seq<Frame>)
    requires WellFormed(s) && !Digit(Peek(rest)) && Dotless(rest) && Closing(f) in {'\0', ']', '}'}
    requires AtKey(f) ==> KeyKind(s.kind)
    requires AtVal(f) ==> s.repeats == 1
    ensures Run(Config(Print(s) + rest, f, stack)) == if Printable(s) then Resume(Placed(s, rest, f, stack)) else Rejected
    decreases s, 0
  {
    hide Print, PrintKind, Run, Resume, Specifier, Placed, WellFormed;
    if s.repeats >= TWO_31 {
      StopsAtSign(s, rest, f, stack);
    } else {
      ReachesKind(s, rest, f, stack);
      if s.kind.List? {
        ListBack(s, rest, f, stack);
      } else if s.kind.Map? {
        MapBack(s, rest, f, stack);
      } else {
        ScalarBack(s, rest, f, stack);
      }
    }
  }

  /** What the opening bracket leaves: the elements and the closing bracket. */
  lemma ListText(s: Spec, rest: string)
    requires WellFormed(s) && s.kind.List?
    ensures AllWellFormed(s.kind.items) && s.kind.items != [] && s.kind.length == SumRepeats(s.kind.items) < TWO_32
    ensures PrintKind(s.kind, s) + rest == "[" + (ItemsFrom(s.kind.items, 0, ",") + ("]" + rest))
  {
    var items := s.kind.items;
    assert items[0..] == items && items[..0] == [];
    Regroup("[", ItemsFrom(items, 0, ","), "]", rest);
  }

  lemma CloseList(s: Spec, rest: string, frame: Frame, f: Frame, stack: seq<Frame>)
    requires s.kind.List? && s.kind.items != [] && s.kind.length == SumRepeats(s.kind.items)
    requires frame == ListFrame(']', s.repeats, [], 0)
    ensures Step(Config("]" + rest, ListAt(frame, s.kind.items, |s.kind.items|), stack + [f])) == Placed(s, rest, f, stack)
  {
    hide Placed, SumRepeats;
    var items := s.kind.items;
    assert items[..|items|] == items;
    DropFirst(']', rest);
    assert (stack + [f])[..|stack|] == stack;
  }

  lemma ListStart(f: Frame, items: seq<Spec>)
    requires f.ListFrame? && f.items == [] && f.len == 0
    ensures ListAt(f, items, 0) == f
  {
    assert items[..0] == [];
  }

  lemma {:induction false} ListBack(s: Spec, rest: string, f: Frame, stack: seq<Frame>)
    requires WellFormed(s) && s.kind.List? && s.repeats < TWO_31 && !AtKey(f) && Dotless(rest)
    ensures PrintKind(s.kind, s) + rest != []
    ensures Resume(Specifier(s.repeats, PrintKind(s.kind, s) + rest, f, stack)) ==
      if Printable(s) then Resume(Placed(s, rest, f, stack)) else Rejected
    decreases s.kind.items, |s.kind.items| + 1
  {
    hide WellFormed, PrintKind, ItemsFrom, Placed, SumRepeats, AllWellFormed, Step;
    var items := s.kind.items;
    var tail := "]" + rest;
    ListText(s, rest);
    DropFirst('[', ItemsFrom(items, 0, ",") + tail);
    MoreOpens(items, 0, ",", tail);
    var frame := ListFrame(']', s.repeats, [], 0);
    ListStart(frame, items);
    ItemsBack(items, 0, ",", tail, frame, stack + [f]);
    CloseList(s, rest, frame, f, stack);
  }

  // ----- maps -----

  ghost predicate PairsOk(pairs: seq<Pair>) {
    forall i :: 0 <= i < |pairs| ==> PairOk(pairs[i])
  }

  predicate PrintablePair(p: Pair) {
    Printable(p.key) && Printable(p.val)
  }

  ghost predicate PairsPrintable(pairs: seq<Pair>, k: nat) {
    forall i :: k <= i < |pairs| ==> PrintablePair(pairs[i])
  }

  function PairsFrom(pairs: seq<Pair>, k: nat): string
    requires k <= |pairs| && PairsOk(pairs)
  {
    PrintPairs(pairs[k..])
  }

  lemma PairsFromNext(pairs: seq<Pair>, k: nat)
    requires k < |pairs| && PairsOk(pairs)
    ensures PairsFrom(pairs, k) == PrintPair(pairs[k]) + (if k + 1 < |pairs| then "," else "") + PairsFrom(pairs, k + 1)
  {
    assert pairs[k..][1..] == pairs[k + 1..];
    hide PrintPair, WellFormed;
  }

  lemma PairsOpen(pairs: seq<Pair>, k: nat, tail: string)
    requires k < |pairs| && PairsOk(pairs)
    ensures Opens(PairsFrom(pairs, k) + tail)
  {
    PairsFromNext(pairs, k);
    assert PairOk(pairs[k]);
    PrintOpens(pairs[k].key, "");
    NoPrefix(Print(pairs[k].key));
    hide PairsFrom, Print, WellFormed;
    assert (PairsFrom(pairs, k) + tail)[0] == Print(pairs[k].key)[0];
  }

  function MapAt(f: Frame, pairs: seq<Pair>, k: nat, want: Want): Frame
    requires f.MapFrame? && k <= |pairs|
  {
    MapFrame(f.repeats, pairs[..k], want, SumKeys(pairs[..k]))
  }

  lemma {:induction false} KeysPrefix(pairs: seq<Pair>, k: nat)
    requires k < |pairs|
    ensures SumKeys(pairs[..k + 1]) == SumKeys(pairs[..k]) + pairs[k].key.repeats <= SumKeys(pairs)
    decreases |pairs| - k
  {
    assert pairs[..k + 1][..k] == pairs[..k];
    if k + 1 < |pairs| {
      KeysPrefix(pairs, k + 1);
    } else {
      assert pairs[..k + 1] == pairs;
    }
  }

  lemma PairBounds(pairs: seq<Pair>, k: nat)
    requires k < |pairs| && PairsOk(pairs)
    ensures PairOk(pairs[k]) && 1 <= pairs[k].key.repeats < TWO_32
  {
    assert PairOk(pairs[k]);
  }

  lemma RecordPair(f: Frame, pairs: seq<Pair>, k: nat, next: Want)
    requires f.MapFrame? && k < |pairs| && PairsOk(pairs) && SumKeys(pairs) < TWO_32
    ensures MapAt(f, pairs, k, Key).len + pairs[k].key.repeats < TWO_32
    ensures WithVal(WithKey(MapAt(f, pairs, k, Key), pairs[k].key), pairs[k].val, next) == MapAt(f, pairs, k + 1, next)
  {
    hide SumKeys, PairsOk, PairOk, Wrap32;
    KeysPrefix(pairs, k);
    PairBounds(pairs, k);
    WrapTest(SumKeys(pairs[..k]), pairs[k].key.repeats);
    TakeNext(pairs, k);
  }

  /** A printed key and value, up to recording the value. */
  lemma {:induction false} PairBack(p: Pair, after: string, f: Frame, stack: seq<Frame>)
    requires AtKey(f) && PairOk(p) && f.len + p.key.repeats < TWO_32 && !Digit(Peek(after)) && Dotless(after)
    ensures Run(Config(PrintPair(p) + after, f, stack)) ==
      if PrintablePair(p) then Resume(Placed(p.val, after, WithKey(f, p.key), stack)) else Rejected
    decreases p, 0
  {
    hide Print, Printable, Run, WellFormed, Dotless, Placed;
    var val := Print(p.val) + after;
    PrintOpens(p.val, after);
    Regroup(Print(p.key), ":", Print(p.val), after);
    DotlessPrint(p.val);
    DotlessJoin(Print(p.val), after);
    DotlessColon(val);
    ElementBack(p.key, ":" + val, f, stack);
    NextVal(p.key, val, f, stack);
    ElementBack(p.val, after, WithKey(f, p.key), stack);
  }

  lemma DotlessColon(t: string)
    requires Dotless(t)
    ensures Dotless(":" + t) && !Digit(Peek(":" + t))
  {
  }

  lemma NextVal(key: Spec, val: string, f: Frame, stack: seq<Frame>)
    requires AtKey(f) && f.len + key.repeats < TWO_32 && Opens(val)
    ensures Placed(key, ":" + val, f, stack) == Go(Config(val, WithKey(f, key), stack))
  {
    hide Wrap32;
    WrapTest(f.len, key.repeats);
    DropFirst(':', val);
  }

  lemma NextPair(pairs: seq<Pair>, k: nat, more: string, f: Frame, stack: seq<Frame>)
    requires f.MapFrame? && k < |pairs| && PairsOk(pairs) && SumKeys(pairs) < TWO_32 && Opens(more)
    ensures Placed(pairs[k].val, "," + more, WithKey(MapAt(f, pairs, k, Key), pairs[k].key), stack)
         == Go(Config(more, MapAt(f, pairs, k + 1, Key), stack))
  {
    hide SumKeys, PairsOk, WithVal, Wrap32;
    RecordPair(f, pairs, k, Key);
    AfterComma(more, ",");
  }

  lemma LastPair(pairs: seq<Pair>, k: nat, tail: string, f: Frame, stack: seq<Frame>)
    requires f.MapFrame? && k < |pairs| && PairsOk(pairs) && SumKeys(pairs) < TWO_32 && Peek(tail) == '}'
    ensures Placed(pairs[k].val, tail, WithKey(MapAt(f, pairs, k, Key), pairs[k].key), stack)
         == Go(Config(tail, MapAt(f, pairs, k + 1, End), stack))
  {
    hide SumKeys, PairsOk, WithVal, Wrap32;
    RecordPair(f, pairs, k, End);
  }

  lemma PairsSplit(pairs: seq<Pair>, k: nat)
    requires k < |pairs|
    ensures PairsPrintable(pairs, k) <==> PrintablePair(pairs[k]) && PairsPrintable(pairs, k + 1)
  {
    hide PrintablePair;
  }

  lemma DotlessMore(pairs: seq<Pair>, k: nat, tail: string)
    requires k <= |pairs| && PairsOk(pairs) && Dotless(tail)
    ensures Dotless("," + (PairsFrom(pairs, k) + tail))
  {
    hide PrintPairs, WellFormed;
    DotlessPairs(pairs[k..]);
  }

  lemma {:induction false} PairsBack(pairs: seq<Pair>, k: nat, tail: string, f: Frame, stack: seq<Frame>)
    requires f.MapFrame? && k < |pairs| && PairsOk(pairs) && SumKeys(pairs) < TWO_32 && Peek(tail) == '}' && Dotless(tail)
    ensures Run(Config(PairsFrom(pairs, k) + tail, MapAt(f, pairs, k, Key), stack)) ==
      if PairsPrintable(pairs, k) then Run(Config(tail, MapAt(f, pairs, |pairs|, End), stack)) else Rejected
    decreases pairs, |pairs| - k
  {
    PairsFromNext(pairs, k);
    PairsSplit(pairs, k);
    assert PairOk(pairs[k]);
    var g := MapAt(f, pairs, k, Key);
    RecordPair(f, pairs, k, Key);
    hide PrintPair, WellFormed, PrintablePair, SumKeys, Run, Placed, PairOk;
    assert AtKey(g);
    if k + 1 < |pairs| {
      PairsOpen(pairs, k + 1, tail);
      hide PairsFrom, MapAt, PairsPrintable;
      var more := PairsFrom(pairs, k + 1) + tail;
      Regroup(PrintPair(pairs[k]), ",", PairsFrom(pairs, k + 1), tail);
      DotlessMore(pairs, k + 1, tail);
      PairBack(pairs[k], "," + more, g, stack);
      NextPair(pairs, k, more, f, stack);
      PairsBack(pairs, k + 1, tail, f, stack);
    } else {
      assert PairsFrom(pairs, k + 1) == "";
      hide PairsFrom, MapAt;
      Regroup(PrintPair(pairs[k]), "", "", tail);
      NoPrefix(tail);
      PairBack(pairs[k], tail, g, stack);
      LastPair(pairs, k, tail, f, stack);
    }
  }

  /** What the opening brace leaves: the pairs and the closing brace. */
  lemma MapText(s: Spec, rest: string)
    requires WellFormed(s) && s.kind.Map?
    ensures PairsOk(s.kind.pairs) && s.kind.pairs != [] && s.kind.length == SumKeys(s.kind.pairs) < TWO_32
    ensures PrintKind(s.kind, s) + rest == "{" + (PairsFrom(s.kind.pairs, 0) + ("}" + rest))
  {
    var pairs := s.kind.pairs;
    forall i | 0 <= i < |pairs|
      ensures PairOk(pairs[i])
    {
    }
    assert pairs[0..] == pairs;
    Regroup("{", PairsFrom(pairs, 0), "}", rest);
  }

  lemma CloseMap(s: Spec, rest: string, frame: Frame, f: Frame, stack: seq<Frame>)
    requires s.kind.Map? && s.kind.pairs != [] && s.kind.length == SumKeys(s.kind.pairs)
    requires frame == MapFrame(s.repeats, [], Key, 0)
    ensures Step(Config("}" + rest, MapAt(frame, s.kind.pairs, |s.kind.pairs|, End), stack + [f])) == Placed(s, rest, f, stack)
  {
    hide Placed, SumKeys;
    var pairs := s.kind.pairs;
    assert pairs[..|pairs|] == pairs;
    DropFirst('}', rest);
    assert (stack + [f])[..|stack|] == stack;
  }

  lemma PrintableMap(s: Spec)
    requires s.kind.Map? && s.repeats < TWO_31
    ensures Printable(s) <==> PairsPrintable(s.kind.pairs, 0)
  {
    assert PairsPrintable(s.kind.pairs, 0) ==> forall i :: 0 <= i < |s.kind.pairs| ==> PrintablePair(s.kind.pairs[i]);
  }

  lemma {:induction false} MapBack(s: Spec, rest: string, f: Frame, stack: seq<Frame>)
    requires WellFormed(s) && s.kind.Map? && s.repeats < TWO_31 && !AtKey(f) && Dotless(rest)
    ensures PrintKind(s.kind, s) + rest != []
    ensures Resume(Specifier(s.repeats, PrintKind(s.kind, s) + rest, f, stack)) ==
      if Printable(s) then Resume(Placed(s, rest, f, stack)) else Rejected
    decreases s.kind.pairs, |s.kind.pairs| + 1
  {
    hide WellFormed, PrintKind, PairsFrom, Placed, SumKeys, PairsOk, Printable, PairsPrintable, Step;
    var pairs := s.kind.pairs;
    var tail := "}" + rest;
    MapText(s, rest);
    DropFirst('{', PairsFrom(pairs, 0) + tail);
    PairsOpen(pairs, 0, tail);
    var frame := MapFrame(s.repeats, [], Key, 0);
    MapStart(frame, pairs);
    PairsBack(pairs, 0, tail, frame, stack + [f]);
    PrintableMap(s);
    CloseMap(s, rest, frame, f, stack);
  }

  lemma MapStart(f: Frame, pairs: seq<Pair>)
    requires f.MapFrame? && f.pairs == [] && f.want == Key && f.len == 0
    ensures MapAt(f, pairs, 0, Key) == f
  {
    assert pairs[..0] == [];
  }

  // ----- whole specs -----

  /** Parsing what was printed gives the same bins and the same effective number
      exactly when every multiplier is below 2^31; otherwise the text is rejected. */
  lemma RoundTrip(items: seq<Spec>)
    requires AllWellFormed(items) && SumRepeats(items) < TWO_32
    ensures Run(Config(PrintSpec(items), ROOT, [])) ==
      if forall i :: 0 <= i < |items| ==> Printable(items[i]) then Parsed(items, SumRepeats(items)) else Rejected
  {
    assert items[0..] == items && items[..0] == [] && items[..|items|] == items;
    NoPrefix(ItemsFrom(items, 0, ", "));
    assert ROOT == ListAt(ROOT, items, 0);
    hide WellFormed, Printable;
    ItemsBack(items, 0, ", ", "", ROOT, []);
    assert Run(Config("", ListAt(ROOT, items, |items|), [])) == Parsed(items, SumRepeats(items));
  }

  /** The smallest multiplier that does not survive. */
  lemma SignedMultiplierLost()
    ensures var s := Spec(TWO_31, Bool);
      Signed(s.repeats)[0] == '-' && AllWellFormed([s]) && Run(Config(PrintSpec([s]), ROOT, [])) == Rejected
  {
    var s := Spec(TWO_31, Bool);
    assert [s][..0] == [];
    assert SumRepeats([s]) == TWO_31;
    assert [s][0] == s && !Printable(s);
    hide Run, Decimal, PrintSpec;
    RoundTrip([s]);
  }

  /** Printing is a normal form: whatever text was accepted, the printed form of its
      bins parses to the same bins, as long as the multipliers print positive. */
  lemma ReprintStable(text: string)
    requires Run(Config(text, ROOT, [])).Parsed?
    ensures var o := Run(Config(text, ROOT, []));
      && AllWellFormed(o.items)
      && (Run(Config(PrintSpec(o.items), ROOT, [])) == o <==> forall i :: 0 <= i < |o.items| ==> Printable(o.items[i]))
  {
    hide Run, PrintSpec, Printable;
    ParsedIsWellFormed(text);
    RoundTrip(Run(Config(text, ROOT, [])).items);
  }

  /** The longest string length is accepted: one bin of 2^32 - 1 characters. */
  lemma LongestStringAccepted()
    ensures Run(Config("S4294967295", ROOT, [])) == Parsed([Spec(1, Str(TWO_32 - 1))], 1)
  {
    hide Run, Decimal, PrintSpec;
    var s := Spec(1, Str(TWO_32 - 1));
    PrintedLongest();
    OneItem(s);
    RoundTrip([s]);
  }

  lemma OneItem(s: Spec)
    requires WellFormed(s) && Printable(s)
    ensures AllWellFormed([s]) && SumRepeats([s]) == s.repeats && forall i :: 0 <= i < |[s]| ==> Printable([s][i])
  {
    assert [s][..0] == [];
  }

  lemma PrintedLongest()
    ensures WellFormed(Spec(1, Str(TWO_32 - 1))) && PrintSpec([Spec(1, Str(TWO_32 - 1))]) == "S4294967295"
  {
    hide Decimal;
    var s := Spec(1, Str(TWO_32 - 1));
    assert [s][..0] == [] && [s][1..] == [];
    LongestDecimal();
    assert Print(s) == "S" + Decimal(TWO_32 - 1);
    assert SumRepeats([s]) == 1;
    assert PrintItems([s], 1, 0, ", ") == Print(s) + "" + PrintItems([], 1, 1, ", ");
  }

  lemma DecimalStep(n: nat, d: nat)
    requires d < 10 && n > 0
    ensures Decimal(10 * n + d) == Decimal(n) + ['0' + d as char]
  {
  }

  lemma LongestDecimal()
    ensures Decimal(TWO_32 - 1) == "4294967295"
  {
    assert Decimal(4) == "4";
    hide Decimal;
    DecimalStep(4, 2);
    DecimalStep(42, 9);
    DecimalStep(429, 4);
    DecimalStep(4294, 9);
    DecimalStep(42949, 6);
    DecimalStep(429496, 7);
    DecimalStep(4294967, 2);
    DecimalStep(42949672, 9);
    DecimalStep(429496729, 5);
  }
}

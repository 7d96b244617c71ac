/** What is printed, as a tree of the grammar: no optional space but the one after a
    comma between bins, every integer size written, a multiplier unless it is one. */
module SpecPrinted {
  import opened Bits
  import opened Sequences
  import opened SpecSyntax
  import opened SpecGrammar
  import SpecParser
  import SpecAccepts
  import opened SpecRoundTrip

  function TimesTree(n: nat): Times {
    if n == 1 then Once else Times(Decimal(n), false, false)
  }

  function FormTree(s: Spec): Form
    requires WellFormed(s)
    decreases s, 0
  {
    match s.kind
    case Bool => BoolForm
    case Double => DoubleForm
    case Int(r) => IntForm(Decimal(r + 1))
    case Str(n) => StrForm(Numeral("", "", Decimal(n)))
    case Bytes(n) => BytesForm(Numeral("", "", Decimal(n)))
    case List(_, items) => ListForm(false, ItemsTree(items, false))
    case Map(_, pairs) => MapForm(false, PairsTree(pairs))
  }

  function ElemTree(s: Spec): Elem
    requires WellFormed(s)
    decreases s, 1
  {
    Elem(TimesTree(s.repeats), FormTree(s))
  }

  function ItemsTree(items: seq<Spec>, gap: bool): Items
    requires items != [] && AllWellFormed(items)
    decreases items, 0
  {
    if |items| == 1 then SpecGrammar.LastItem(ElemTree(items[0]), false, false)
    else
      assert AllWellFormed(items[1..]);
      MoreItems(ElemTree(items[0]), gap, ItemsTree(items[1..], gap))
  }

  function PairTree(p: Pair): Entry
    requires WellFormed(p.key) && WellFormed(p.val)
    decreases p, 0
  {
    Entry(ElemTree(p.key), false, false, ElemTree(p.val))
  }

  function PairsTree(pairs: seq<Pair>): Pairs
    requires pairs != [] && forall i :: 0 <= i < |pairs| ==> WellFormed(pairs[i].key) && WellFormed(pairs[i].val)
    decreases pairs, 0
  {
    if |pairs| == 1 then SpecGrammar.LastPair(PairTree(pairs[0]), false)
    else MorePairs(PairTree(pairs[0]), false, false, PairsTree(pairs[1..]))
  }

  ghost predicate AllPrintable(items: seq<Spec>) {
    forall i :: 0 <= i < |items| ==> Printable(items[i])
  }

  /** The tree has the printed text, is legal and stands for the spec. */
  ghost predicate Prints(s: Spec, t: string)
    requires WellFormed(s)
  {
    var e := ElemTree(s);
    && ElemThen(e, t) == Print(s) + t && LegalElem(e) && SpecOf(e) == s
    && (KeyKind(s.kind) ==> KeyForm(e.form)) && Repeats(e.times) == s.repeats
  }

  lemma DecimalDigits(n: nat)
    ensures Digits(Decimal(n)) && Value(Decimal(n)) == n
  {
    DecimalValue(n);
  }

  lemma TimesPrinted(n: nat, k: string)
    requires 1 <= n < TWO_31
    ensures LegalTimes(TimesTree(n)) && Repeats(TimesTree(n)) == n
    ensures TimesThen(TimesTree(n), k) == (if n != 1 then Signed(n) + "*" else "") + k
  {
    hide Decimal;
    DecimalDigits(n);
    if n == 1 {
      NoPrefix(k);
    } else {
      assert Decimal(n) + ("*" + k) == Decimal(n) + "*" + k;
    }
  }

  lemma LengthPrinted(n: nat, t: string)
    requires n < TWO_32
    ensures var x := Numeral("", "", Decimal(n)); LegalNumeral(x) && LengthOf(x) == n && NumeralThen(x, t) == Decimal(n) + t
  {
    hide Decimal;
    DecimalDigits(n);
    NoPrefix(Decimal(n) + t);
  }

  lemma SizePrinted(r: nat)
    requires r <= 7
    ensures |Decimal(r + 1)| == 1 && '1' <= Decimal(r + 1)[0] <= '8' && Decimal(r + 1)[0] as nat - '1' as nat == r
  {
  }

  lemma {:induction false} ElemPrinted(s: Spec, t: string)
    requires WellFormed(s) && Printable(s)
    ensures Prints(s, t)
    decreases s, 1
  {
    hide Print, FormThen, PrintKind, KindOf, LegalForm, TimesThen, Signed, Value, FormTree;
    FormPrinted(s, t);
    TimesPrinted(s.repeats, PrintKind(s.kind, s) + t);
    PrintText(s, t);
  }

  lemma PrintText(s: Spec, t: string)
    requires WellFormed(s)
    ensures Print(s) + t == (if s.repeats != 1 then Signed(s.repeats) + "*" else "") + (PrintKind(s.kind, s) + t)
  {
    hide PrintKind, Signed;
  }

  lemma {:induction false} FormPrinted(s: Spec, t: string)
    requires WellFormed(s) && Printable(s)
    ensures FormThen(FormTree(s), t) == PrintKind(s.kind, s) + t
    ensures LegalForm(FormTree(s)) && KindOf(FormTree(s)) == s.kind && (KeyKind(s.kind) ==> KeyForm(FormTree(s)))
    decreases s, 0
  {
    hide Decimal, NumeralThen, LegalNumeral, ItemsThen, PairsThen, ItemsTree, PairsTree, PrintItems, PrintPairs, ItemsOf, PairsOf;
    match s.kind
    case Int(r) => SizePrinted(r); assert "I" + (Decimal(r + 1) + t) == "I" + Decimal(r + 1) + t;
    case Str(n) => LengthPrinted(n, t); assert "S" + (Decimal(n) + t) == "S" + Decimal(n) + t;
    case Bytes(n) => LengthPrinted(n, t); assert "B" + (Decimal(n) + t) == "B" + Decimal(n) + t;
    case List(length, items) =>
      ItemsPrinted(items, length, 0, false, "]" + t);
      var k := PrintItems(items, length, 0, ",");
      assert "[" + (k + ("]" + t)) == "[" + k + "]" + t;
    case Map(length, pairs) =>
      PairsPrinted(pairs, "}" + t);
      var k := PrintPairs(pairs);
      assert "{" + (k + ("}" + t)) == "{" + k + "}" + t;
    case _ =>
  }

  function Separator(gap: bool): string {
    if gap then ", " else ","
  }

  lemma {:induction false} ItemsPrinted(items: seq<Spec>, length: nat, count: nat, gap: bool, t: string)
    requires items != [] && AllWellFormed(items) && AllPrintable(items) && count + SumRepeats(items) == length
    ensures var g := ItemsTree(items, gap);
      && ItemsThen(g, t) == PrintItems(items, length, count, Separator(gap)) + t
      && LegalItems(g) && ItemsOf(g) == items
    decreases items, 0
  {
    hide Print, ElemThen, LegalElem, SpecOf, ElemTree, WellFormed, Printable, SumRepeats, PrintItems, ItemsThen, ItemsOf, LegalItems;
    var s, rest, g := items[0], items[1..], ItemsTree(items, gap);
    assert items == [s] + rest;
    FirstOfSum(s, rest);
    SomeRepeats(items);
    FirstPrinted(items, length, count, Separator(gap));
    if |items| == 1 {
      ElemPrinted(s, t);
      assert rest == [];
      NothingPrinted(length, Separator(gap));
    } else {
      assert AllWellFormed(rest) && AllPrintable(rest);
      SomeRepeats(rest);
      ItemsPrinted(rest, length, count + s.repeats, gap, t);
      var more := PrintItems(rest, length, count + s.repeats, Separator(gap));
      ElemPrinted(s, Separator(gap) + (more + t));
      SeparatorIs(gap, more + t);
      assert Print(s) + (Separator(gap) + (more + t)) == Print(s) + Separator(gap) + more + t;
    }
    SpecAccepts.ItemText(g, t);
    SpecAccepts.LegalFirst(g);
    SpecAccepts.FirstItem(g);
  }

  lemma FirstPrinted(items: seq<Spec>, length: nat, count: nat, sep: string)
    requires items != [] && AllWellFormed(items) && count < length
    ensures AllWellFormed(items[1..]) && PrintItems(items, length, count, sep) ==
      Print(items[0]) + (if count + items[0].repeats != length then sep else "") + PrintItems(items[1..], length, count + items[0].repeats, sep)
  {
    hide Print, WellFormed;
  }

  lemma NothingPrinted(length: nat, sep: string)
    ensures PrintItems([], length, length, sep) == ""
  {
  }

  lemma SeparatorIs(gap: bool, t: string)
    ensures "," + GapThen(gap, t) == Separator(gap) + t
  {
    if gap { assert "," + (" " + t) == ", " + t; }
  }

  lemma FirstOfSum(s: Spec, rest: seq<Spec>)
    ensures SumRepeats([s] + rest) == s.repeats + SumRepeats(rest) && SumRepeats([]) == 0
  {
    SpecAccepts.SumOne(s);
    SpecAccepts.SumJoin([s], rest);
  }

  lemma SomeRepeats(items: seq<Spec>)
    requires items != [] && AllWellFormed(items)
    ensures SumRepeats(items) > 0
  {
    assert WellFormed(items[|items| - 1]);
  }

  lemma {:induction false} PairsPrinted(pairs: seq<Pair>, t: string)
    requires pairs != [] && PairsOk(pairs) && PairsPrintable(pairs, 0)
    ensures var g := PairsTree(pairs); PairsThen(g, t) == PrintPairs(pairs) + t && LegalPairs(g) && PairsOf(g) == pairs
    decreases pairs, 0
  {
    hide Print, ElemThen, LegalElem, SpecOf, ElemTree, Repeats, KeyForm;
    var p, rest := pairs[0], pairs[1..];
    assert pairs == [p] + rest;
    if |pairs| == 1 {
      PairPrinted(p, t);
      assert rest == [];
      assert PrintPairs(pairs) == PrintPair(p) + "" + PrintPairs(rest);
    } else {
      PairsPrinted(rest, t);
      var more := PrintPairs(rest);
      PairPrinted(p, "," + (more + t));
      assert PrintPair(p) + ("," + (more + t)) == PrintPair(p) + "," + more + t;
    }
  }

  lemma {:induction false} PairPrinted(p: Pair, t: string)
    requires SpecParser.PairOk(p) && PrintablePair(p)
    ensures var g := PairTree(p);
      && EntryThen(g, t) == PrintPair(p) + t && LegalElem(g.key) && LegalElem(g.val) && KeyForm(g.key.form)
      && SpecOf(g.key) == p.key && SpecOf(g.val) == p.val && Repeats(g.val.times) == 1
    decreases p, 0
  {
    hide Print, ElemThen, LegalElem, SpecOf, ElemTree, Repeats, KeyForm, WellFormed, Printable;
    ElemPrinted(p.val, t);
    ElemPrinted(p.key, ":" + (Print(p.val) + t));
    assert Print(p.key) + (":" + (Print(p.val) + t)) == Print(p.key) + ":" + Print(p.val) + t;
  }

  /** The text printed for bins whose multipliers are below 2^31 is that of the tree
      with one space after every comma between bins and no other. */
  lemma PrintedTree(items: seq<Spec>)
    requires AllWellFormed(items) && AllPrintable(items)
    ensures var g := if items == [] then NoBins else SomeBins(ItemsTree(items, true));
      PrintSpec(items) == BinsThen(g, "") && (SumRepeats(items) < TWO_32 ==> LegalBins(g) && BinsOf(g) == items)
  {
    hide ItemsThen, ItemsTree, ItemsOf, LegalItems, SumRepeats, WellFormed, Printable;
    if items != [] {
      ItemsPrinted(items, SumRepeats(items), 0, true, "");
      NoPrefix(PrintSpec(items));
    }
  }

  /** Read as a signed number, a printed multiplier is its 32-bit two's complement. */
  lemma SignedIs(n: nat, rest: string)
    requires n < TWO_32 && (rest == [] || !Digit(rest[0]))
    ensures StrToL(Signed(n) + rest) == Number(if n < TWO_31 then n else n - TWO_32, false, rest)
  {
    hide Decimal, Scan;
    if n < TWO_31 {
      ScanDigits(Decimal(n), rest);
      DecimalValue(n);
    } else {
      ReadNegative(TWO_32 - n, rest);
      assert "-" + Decimal(TWO_32 - n) + rest == "-" + (Decimal(TWO_32 - n) + rest);
    }
  }
}

/** Which texts are selections of bins: numbers separated by single commas, ascending,
    naming existing bins, with a comma allowed at the end. */
module BinList {
  import opened Bits
  import opened SpecSyntax
  import opened SpecGrammar
  import opened Sequences
  import SpecParser
  import SpecAccepts
  import opened WriteBins

  /** The text of a list of numerals, and more text after it. */
  function ListThen(ns: seq<Numeral>, comma: bool, t: string): string {
    if ns == [] then t
    else
      var more := ListThen(ns[1..], comma, t);
      NumeralThen(ns[0], if |ns| > 1 || comma then "," + more else more)
  }

  /** Legal numerals for bins above the previous one, ascending, counted from one. */
  predicate LegalList(ns: seq<Numeral>, prev: nat, bins: nat) {
    ns != [] ==> LegalNumeral(ns[0]) && prev < LengthOf(ns[0]) <= bins && LegalList(ns[1..], LengthOf(ns[0]), bins)
  }

  /** The bins named, counted from zero. */
  function Named(ns: seq<Numeral>, prev: nat, bins: nat): seq<nat>
    requires LegalList(ns, prev, bins)
  {
    if ns == [] then [] else [LengthOf(ns[0]) - 1] + Named(ns[1..], LengthOf(ns[0]), bins)
  }

  ghost predicate IsList(text: string, sel: seq<nat>, prev: nat, bins: nat, ns: seq<Numeral>, comma: bool, end: string) {
    LegalList(ns, prev, bins) && AtEnd(end) && text == ListThen(ns, comma, end) && sel == Named(ns, prev, bins)
  }

  ghost predicate Lists(text: string, sel: seq<nat>, prev: nat, bins: nat) {
    exists ns: seq<Numeral>, comma: bool, end: string :: IsList(text, sel, prev, bins, ns, comma, end)
  }

  /** A numeral before a comma or the end, as the loop reads it. */
  lemma NumeralNext(n: Numeral, comma: bool, more: string)
    requires LegalNumeral(n) && LengthOf(n) > 0 && (!comma ==> AtEnd(more))
    ensures var text := NumeralThen(n, if comma then "," + more else more);
      && text != [] && !AtEnd(text)
      && NextBin(text).value == LengthOf(n) && NextBin(text).rest == more
  {
    hide StrToUL;
    var t := if comma then "," + more else more;
    SpecAccepts.NumeralRead(n, t);
    DropFirst(',', more);
    assert NumeralThen(n, t)[0] in n.blanks + n.sign + n.digits by {
      assert NumeralThen(n, t) == (n.blanks + n.sign + n.digits) + t;
    }
  }

  lemma {:induction false} ListSelected(ns: seq<Numeral>, comma: bool, end: string, prev: nat, bins: nat)
    requires LegalList(ns, prev, bins) && AtEnd(end)
    ensures SelectAfter(ListThen(ns, comma, end), prev, bins) == Selected(Named(ns, prev, bins))
    decreases |ns|
  {
    hide NextBin, NumeralThen, LegalNumeral, LengthOf;
    if ns != [] {
      var more := ListThen(ns[1..], comma, end);
      NumeralNext(ns[0], |ns| > 1 || comma, more);
      ListSelected(ns[1..], comma, end, LengthOf(ns[0]), bins);
    }
  }

  lemma {:induction false} ListFound(text: string, prev: nat, bins: nat) returns (ns: seq<Numeral>, comma: bool, end: string)
    requires bins < TWO_32 && SelectAfter(text, prev, bins).Selected?
    ensures IsList(text, SelectAfter(text, prev, bins).bins, prev, bins, ns, comma, end)
    decreases |text|
  {
    hide NextBin, NumeralThen, LegalNumeral, LengthOf;
    if AtEnd(text) {
      ns, comma, end := [], false, text;
    } else {
      var n, sep := BinFound(text, bins);
      var b := NextBin(text);
      var rest, more;
      rest, more, end := ListFound(b.rest, b.value, bins);
      ns := [n] + rest;
      DropFirst(n, rest);
      comma := if rest == [] then sep else more;
      if rest == [] { EmptyText(rest, comma, more, end); }
    }
  }

  lemma EmptyText(ns: seq<Numeral>, comma: bool, more: bool, end: string)
    requires ns == []
    ensures ListThen(ns, comma, end) == end == ListThen(ns, more, end)
  {
  }

  /** The numeral the loop has read, and whether a comma followed it. */
  lemma BinFound(text: string, bins: nat) returns (n: Numeral, comma: bool)
    requires !AtEnd(text) && bins < TWO_32 && 0 < NextBin(text).value <= bins
    ensures LegalNumeral(n) && LengthOf(n) == NextBin(text).value
    ensures text == NumeralThen(n, if comma then "," + NextBin(text).rest else NextBin(text).rest)
    ensures !comma ==> AtEnd(NextBin(text).rest)
  {
    hide StrToUL, NumeralThen, LegalNumeral, LengthOf;
    n := SpecAccepts.NumeralFound(text);
    var rest := StrToUL(text).rest;
    comma := SpecParser.Peek(rest) == ',';
    if comma { assert rest == "," + rest[1..]; }
  }

  /** A text is accepted as these bins if and only if it lists them: anything else, such
      as another separator, numbers out of order or a bin past the last, is refused. */
  lemma SelectedIff(text: string, sel: seq<nat>, bins: nat)
    requires bins < TWO_32
    ensures SelectAfter(text, 0, bins) == Selected(sel) <==> Lists(text, sel, 0, bins)
  {
    hide SelectAfter, IsList;
    if SelectAfter(text, 0, bins) == Selected(sel) {
      var ns, comma, end := ListFound(text, 0, bins);
    }
    if Lists(text, sel, 0, bins) {
      var ns, comma, end :| IsList(text, sel, 0, bins, ns, comma, end);
      ListIs(text, sel, 0, bins, ns, comma, end);
    }
  }

  lemma ListIs(text: string, sel: seq<nat>, prev: nat, bins: nat, ns: seq<Numeral>, comma: bool, end: string)
    requires IsList(text, sel, prev, bins, ns, comma, end)
    ensures SelectAfter(text, prev, bins) == Selected(sel)
  {
    ListSelected(ns, comma, end, prev, bins);
  }
}

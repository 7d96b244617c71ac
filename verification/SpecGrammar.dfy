/** The grammar of object specs: syntax trees that keep every optional space, comma
    and digit, the text of a tree, and the bins it stands for. Nothing here refers to
    the parser. */
module SpecGrammar {
  import opened Bits
  import opened SpecSyntax

  // ----- syntax trees -----

  /** A multiplier: digits, an optional space, a star, an optional space. */
  datatype Times = Once | Times(digits: string, before: bool, after: bool)

  /** A length: blanks, an optional sign, digits. */
  datatype Numeral = Numeral(blanks: string, sign: string, digits: string)

  datatype Form =
    | BoolForm
    | DoubleForm
    | IntForm(digit: string)             // the byte size, or nothing
    | StrForm(n: Numeral)
    | BytesForm(n: Numeral)
    | ListForm(gap: bool, items: Items)
    | MapForm(gap: bool, pairs: Pairs)

  datatype Elem = Elem(times: Times, form: Form)

  /** Commas follow an element directly and may be followed by a space. The last
      element may have a comma too. */
  datatype Items =
    | LastItem(e: Elem, comma: bool, gap: bool)
    | MoreItems(e: Elem, gap: bool, rest: Items)

  datatype Entry = Entry(key: Elem, before: bool, after: bool, val: Elem)

  /** Between entries a space may stand on either side of the comma. The last entry
      has none. */
  datatype Pairs =
    | LastPair(p: Entry, gap: bool)
    | MorePairs(p: Entry, before: bool, after: bool, rest: Pairs)

  datatype Bins = NoBins | SomeBins(items: Items)

  // ----- the text of a tree, with more text after it -----

  function GapThen(gap: bool, t: string): string {
    if gap then " " + t else t
  }

  function TimesThen(x: Times, t: string): string {
    match x
    case Once => t
    case Times(digits, before, after) => digits + GapThen(before, "*" + GapThen(after, t))
  }

  function NumeralThen(n: Numeral, t: string): string {
    n.blanks + (n.sign + (n.digits + t))
  }

  function FormThen(f: Form, t: string): string
    decreases f
  {
    match f
    case BoolForm => "b" + t
    case DoubleForm => "D" + t
    case IntForm(digit) => "I" + (digit + t)
    case StrForm(n) => "S" + NumeralThen(n, t)
    case BytesForm(n) => "B" + NumeralThen(n, t)
    case ListForm(gap, items) => "[" + GapThen(gap, ItemsThen(items, "]" + t))
    case MapForm(gap, pairs) => "{" + GapThen(gap, PairsThen(pairs, "}" + t))
  }

  function ElemThen(e: Elem, t: string): string
    decreases e
  {
    TimesThen(e.times, FormThen(e.form, t))
  }

  function ItemsThen(items: Items, t: string): string
    decreases items
  {
    match items
    case LastItem(e, comma, gap) => ElemThen(e, if comma then "," + GapThen(gap, t) else GapThen(gap, t))
    case MoreItems(e, gap, rest) => ElemThen(e, "," + GapThen(gap, ItemsThen(rest, t)))
  }

  function EntryThen(p: Entry, t: string): string
    decreases p
  {
    ElemThen(p.key, GapThen(p.before, ":" + GapThen(p.after, ElemThen(p.val, t))))
  }

  function PairsThen(pairs: Pairs, t: string): string
    decreases pairs
  {
    match pairs
    case LastPair(p, gap) => EntryThen(p, GapThen(gap, t))
    case MorePairs(p, before, after, rest) => EntryThen(p, GapThen(before, "," + GapThen(after, PairsThen(rest, t))))
  }

  function BinsThen(g: Bins, t: string): string {
    if g.NoBins? then t else ItemsThen(g.items, t)
  }

  // ----- what a tree stands for -----

  predicate Digits(t: string) {
    t != [] && forall i :: 0 <= i < |t| ==> Digit(t[i])
  }

  function Repeats(x: Times): nat
    requires x.Times? ==> Digits(x.digits)
  {
    if x.Once? then 1 else Value(x.digits)
  }

  /** A minus sign negates in 64 bits. */
  function Length(n: Numeral): int
    requires Digits(n.digits)
  {
    if n.sign == "-" && Value(n.digits) > 0 then TWO_64 - Value(n.digits) else Value(n.digits)
  }

  predicate LegalTimes(x: Times) {
    x.Times? ==> Digits(x.digits) && 1 <= Value(x.digits) < TWO_32
  }

  predicate LegalNumeral(n: Numeral) {
    && (forall i :: 0 <= i < |n.blanks| ==> Space(n.blanks[i])) && n.sign in {"", "+", "-"}
    && Digits(n.digits) && Value(n.digits) < TWO_64 && Length(n) < TWO_32
  }

  predicate KeyForm(f: Form) {
    f.IntForm? || f.StrForm? || f.BytesForm?
  }

  predicate LegalForm(f: Form)
    decreases f, 0
  {
    match f
    case IntForm(digit) => digit == "" || (|digit| == 1 && '1' <= digit[0] <= '8')
    case StrForm(n) => LegalNumeral(n)
    case BytesForm(n) => LegalNumeral(n)
    case ListForm(_, items) => LegalItems(items) && SumRepeats(ItemsOf(items)) < TWO_32
    case MapForm(_, pairs) => LegalPairs(pairs) && SumKeys(PairsOf(pairs)) < TWO_32
    case _ => true
  }

  predicate LegalElem(e: Elem)
    decreases e, 0
  {
    LegalTimes(e.times) && LegalForm(e.form)
  }

  predicate LegalItems(items: Items)
    decreases items, 0
  {
    LegalElem(items.e) && (items.MoreItems? ==> LegalItems(items.rest))
  }

  /** Map keys are integers, strings or byte strings; map values have multiplier one. */
  predicate LegalPairs(pairs: Pairs)
    decreases pairs, 0
  {
    && LegalElem(pairs.p.key) && KeyForm(pairs.p.key.form) && LegalElem(pairs.p.val) && Repeats(pairs.p.val.times) == 1
    && (pairs.MorePairs? ==> LegalPairs(pairs.rest))
  }

  predicate LegalBins(g: Bins) {
    g.SomeBins? ==> LegalItems(g.items) && SumRepeats(ItemsOf(g.items)) < TWO_32
  }

  /** An integer without a size takes four bytes. */
  function KindOf(f: Form): Kind
    requires LegalForm(f)
    decreases f, 1
  {
    match f
    case BoolForm => Bool
    case DoubleForm => Double
    case IntForm(digit) => Int(if digit == "" then 3 else digit[0] as nat - '1' as nat)
    case StrForm(n) => Str(LengthOf(n))
    case BytesForm(n) => Bytes(LengthOf(n))
    case ListForm(_, items) => List(SumRepeats(ItemsOf(items)), ItemsOf(items))
    case MapForm(_, pairs) => Map(SumKeys(PairsOf(pairs)), PairsOf(pairs))
  }

  function LengthOf(n: Numeral): (r: nat)
    requires LegalNumeral(n)
    ensures r < TWO_32
  {
    Length(n)
  }

  function SpecOf(e: Elem): Spec
    requires LegalElem(e)
    decreases e, 1
  {
    Spec(Repeats(e.times), KindOf(e.form))
  }

  function ItemsOf(items: Items): (r: seq<Spec>)
    requires LegalItems(items)
    ensures r != []
    decreases items, 1
  {
    [SpecOf(items.e)] + (if items.MoreItems? then ItemsOf(items.rest) else [])
  }

  function PairsOf(pairs: Pairs): (r: seq<Pair>)
    requires LegalPairs(pairs)
    ensures r != []
    decreases pairs, 1
  {
    [Pair(SpecOf(pairs.p.key), SpecOf(pairs.p.val))] + (if pairs.MorePairs? then PairsOf(pairs.rest) else [])
  }

  function BinsOf(g: Bins): seq<Spec>
    requires LegalBins(g)
  {
    if g.NoBins? then [] else ItemsOf(g.items)
  }

  /** The end of a C string. */
  predicate AtEnd(t: string) {
    t == [] || t[0] == '\0'
  }

  /** The tree is legal, has this text and stands for these bins. */
  ghost predicate IsTree(text: string, items: seq<Spec>, g: Bins, end: string) {
    AtEnd(end) && text == BinsThen(g, end) && LegalBins(g) && BinsOf(g) == items
  }

  /** The text is a legal spec for these bins. */
  ghost predicate Derives(text: string, items: seq<Spec>) {
    exists g: Bins, end: string :: IsTree(text, items, g, end)
  }
}

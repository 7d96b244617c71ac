/** Object specs: the bin tree, its printed form, and the numbers inside it. */
module SpecSyntax {
  import opened Bits

  /** Stored list and map lengths are effective lengths: repeats counted. */
  datatype Kind =
    | Bool
    | Int(range: nat)      // 0..7, printed 1..8
    | Str(len: nat)
    | Bytes(len: nat)
    | Double
    | List(length: nat, items: seq<Spec>)
    | Map(length: nat, pairs: seq<Pair>)

  datatype Spec = Spec(repeats: nat, kind: Kind)

  datatype Pair = Pair(key: Spec, val: Spec)

  function SumRepeats(items: seq<Spec>): nat {
    if items == [] then 0 else SumRepeats(items[..|items| - 1]) + items[|items| - 1].repeats
  }

  function SumKeys(pairs: seq<Pair>): nat {
    if pairs == [] then 0 else SumKeys(pairs[..|pairs| - 1]) + pairs[|pairs| - 1].key.repeats
  }

  predicate KeyKind(k: Kind) {
    k.Int? || k.Str? || k.Bytes?
  }

  /** What every tree without constants satisfies once parsed. */
  predicate WellFormed(s: Spec)
    decreases s
  {
    && 1 <= s.repeats < TWO_32
    && match s.kind
       case Bool => true
       case Double => true
       case Int(r) => r <= 7
       case Str(n) => n < TWO_32
       case Bytes(n) => n < TWO_32
       case List(length, items) =>
         && items != [] && length == SumRepeats(items) < TWO_32
         && (forall i :: 0 <= i < |items| ==> WellFormed(items[i]))
       case Map(length, pairs) =>
         && pairs != [] && length == SumKeys(pairs) < TWO_32
         && (forall i :: 0 <= i < |pairs| ==>
               WellFormed(pairs[i].key) && KeyKind(pairs[i].key.kind) && WellFormed(pairs[i].val) && pairs[i].val.repeats == 1)
  }

  ghost predicate AllWellFormed(items: seq<Spec>) {
    forall i :: 0 <= i < |items| ==> WellFormed(items[i])
  }

  lemma SumSnoc(items: seq<Spec>, s: Spec)
    ensures SumRepeats(items + [s]) == SumRepeats(items) + s.repeats
  {
    assert (items + [s])[..|items|] == items;
  }

  lemma SumKeysSnoc(pairs: seq<Pair>, p: Pair)
    ensures SumKeys(pairs + [p]) == SumKeys(pairs) + p.key.repeats
  {
    assert (pairs + [p])[..|pairs|] == pairs;
  }

  // ----- numbers -----

  predicate Digit(c: char) {
    '0' <= c <= '9'
  }

  function DigitValue(c: char): nat
    requires Digit(c)
  {
    c as nat - '0' as nat
  }

  function Decimal(n: nat): (r: string)
    ensures |r| > 0 && forall i :: 0 <= i < |r| ==> Digit(r[i])
  {
    var d := ['0' + (n % 10) as char];
    if n < 10 then d else Decimal(n / 10) + d
  }

  /** The %d conversion of a 32-bit word. */
  function Signed(n: nat): (r: string)
    requires n < TWO_32
    ensures |r| > 0
  {
    if n < TWO_31 then Decimal(n) else "-" + Decimal(TWO_32 - n)
  }

  function DigitRun(t: string): (k: nat)
    ensures k <= |t| && (forall i :: 0 <= i < k ==> Digit(t[i])) && (k < |t| ==> !Digit(t[k]))
  {
    if t == [] || !Digit(t[0]) then 0 else 1 + DigitRun(t[1..])
  }

  function Value(t: string): nat
    requires forall i :: 0 <= i < |t| ==> Digit(t[i])
  {
    if t == [] then 0 else Value(t[..|t| - 1]) * 10 + DigitValue(t[|t| - 1])
  }

  predicate Space(c: char) {
    c == ' ' || '\t' <= c <= '\r'
  }

  function SkipSpaces(t: string): (r: string)
    ensures |r| <= |t|
  {
    if t != [] && Space(t[0]) then SkipSpaces(t[1..]) else t
  }

  /** The sign, the digits and the text after them; no digits when there are none. */
  datatype Scanned = Scanned(negative: bool, digits: string, rest: string)

  function Scan(t: string): (r: Scanned)
    ensures forall i :: 0 <= i < |r.digits| ==> Digit(r.digits[i])
    ensures r.digits != [] ==> |r.rest| < |t|
  {
    var u := SkipSpaces(t);
    var v := if u != [] && (u[0] == '-' || u[0] == '+') then u[1..] else u;
    var k := DigitRun(v);
    Scanned(u != [] && u[0] == '-', v[..k], v[k..])
  }

  /** A number read in base ten: its value clamped to the type's range, whether it was
      out of range, and the text after it; the text unchanged when there is none. */
  datatype Number = Number(value: int, outOfRange: bool, rest: string)

  /** Unsigned 64-bit; a sign negates modulo 2^64. */
  function StrToUL(t: string): (r: Number)
    ensures r.value >= 0 && (|r.rest| < |t| || r.rest == t)
  {
    var s := Scan(t);
    if s.digits == [] then Number(0, false, t)
    else
      var n := Value(s.digits);
      if n >= TWO_64 then Number(TWO_64 - 1, true, s.rest)
      else Number(if s.negative then (TWO_64 - n) % TWO_64 else n, false, s.rest)
  }

  /** Signed 64-bit. */
  function StrToL(t: string): (r: Number)
    ensures |r.rest| < |t| || r.rest == t
  {
    var s := Scan(t);
    if s.digits == [] then Number(0, false, t)
    else
      var n := Value(s.digits);
      if s.negative then Number(if n <= TWO_63 then 0 - n else 0 - TWO_63, n > TWO_63, s.rest)
      else Number(if n < TWO_63 then n else TWO_63 - 1, n >= TWO_63, s.rest)
  }

  lemma {:induction false} DecimalValue(n: nat)
    ensures Value(Decimal(n)) == n
  {
    var d := ['0' + (n % 10) as char];
    if n < 10 {
      assert d[..0] == [];
    } else {
      DecimalValue(n / 10);
      assert Decimal(n)[..|Decimal(n)| - 1] == Decimal(n / 10);
    }
  }

  lemma {:induction false} DigitRunExact(ds: string, rest: string)
    requires forall i :: 0 <= i < |ds| ==> Digit(ds[i])
    requires rest == [] || !Digit(rest[0])
    ensures DigitRun(ds + rest) == |ds|
  {
    if ds == [] {
      assert ds + rest == rest;
    } else {
      DigitRunExact(ds[1..], rest);
      assert (ds + rest)[1..] == ds[1..] + rest;
    }
  }

  lemma NoSpaces(t: string)
    requires t != [] && !Space(t[0])
    ensures SkipSpaces(t) == t
  {
  }

  lemma CutAt(ds: string, rest: string)
    ensures (ds + rest)[..|ds|] == ds && (ds + rest)[|ds|..] == rest
  {
  }

  lemma ScanDigits(ds: string, rest: string)
    requires ds != [] && (forall i :: 0 <= i < |ds| ==> Digit(ds[i])) && (rest == [] || !Digit(rest[0]))
    ensures Scan(ds + rest) == Scanned(false, ds, rest)
  {
    hide SkipSpaces, DigitRun;
    assert (ds + rest)[0] == ds[0];
    NoSpaces(ds + rest);
    DigitRunExact(ds, rest);
    CutAt(ds, rest);
  }

  lemma ScanSigned(ds: string, rest: string)
    requires ds != [] && (forall i :: 0 <= i < |ds| ==> Digit(ds[i])) && (rest == [] || !Digit(rest[0]))
    ensures Scan("-" + (ds + rest)) == Scanned(true, ds, rest)
  {
    hide SkipSpaces, DigitRun;
    var t := "-" + (ds + rest);
    assert t[0] == '-' && t[1..] == ds + rest;
    NoSpaces(t);
    DigitRunExact(ds, rest);
    CutAt(ds, rest);
  }

  /** Reading back a printed number, whatever non-digit follows. */
  lemma ReadDecimal(n: nat, rest: string)
    requires n < TWO_64 && (rest == [] || !Digit(rest[0]))
    ensures StrToUL(Decimal(n) + rest) == Number(n, false, rest)
  {
    hide Decimal, Scan;
    ScanDigits(Decimal(n), rest);
    DecimalValue(n);
  }

  /** The same for a negated number, read as signed. */
  lemma ReadNegative(n: nat, rest: string)
    requires n <= TWO_63 && (rest == [] || !Digit(rest[0]))
    ensures StrToL("-" + (Decimal(n) + rest)) == Number(0 - n, false, rest)
  {
    hide Decimal, Scan;
    ScanSigned(Decimal(n), rest);
    DecimalValue(n);
  }

  // ----- printing -----

  /** Elements from a running effective count up to the stored length, separated
      while the length is not reached. */
  function PrintItems(items: seq<Spec>, length: nat, count: nat, sep: string): string
    requires AllWellFormed(items)
    decreases items, 0
  {
    if items == [] || count >= length then ""
    else
      var next := count + items[0].repeats;
      assert AllWellFormed(items[1..]);
      Print(items[0]) + (if next != length then sep else "") + PrintItems(items[1..], length, next, sep)
  }

  function PrintPairs(pairs: seq<Pair>): string
    requires forall i :: 0 <= i < |pairs| ==> WellFormed(pairs[i].key) && WellFormed(pairs[i].val)
    decreases pairs, 0
  {
    if pairs == [] then ""
    else
      PrintPair(pairs[0]) + (if |pairs| > 1 then "," else "") + PrintPairs(pairs[1..])
  }

  function PrintPair(p: Pair): string
    requires WellFormed(p.key) && WellFormed(p.val)
    decreases p, 0
  {
    Print(p.key) + ":" + Print(p.val)
  }

  function PrintKind(k: Kind, s: Spec): string
    requires k == s.kind && WellFormed(s)
    decreases s, 0
  {
    match k
    case Bool => "b"
    case Int(r) => "I" + Decimal(r + 1)
    case Str(n) => "S" + Decimal(n)
    case Bytes(n) => "B" + Decimal(n)
    case Double => "D"
    case List(length, items) => "[" + PrintItems(items, length, 0, ",") + "]"
    case Map(_, pairs) => "{" + PrintPairs(pairs) + "}"
  }

  function Print(s: Spec): string
    requires WellFormed(s)
    decreases s, 1
  {
    (if s.repeats != 1 then Signed(s.repeats) + "*" else "") + PrintKind(s.kind, s)
  }

  /** A whole object spec: the bins with their effective number. */
  function PrintSpec(items: seq<Spec>): string
    requires AllWellFormed(items)
  {
    PrintItems(items, SumRepeats(items), 0, ", ")
  }
}

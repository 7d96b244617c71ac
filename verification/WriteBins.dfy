/** Which bins a write touches: the user's selection, and the one-pass sweep that
    pairs each selected bin with its spec. */
module WriteBins {
  import opened Bits
  import opened Sequences
  import opened SpecSyntax
  import SpecParser

  datatype Selection = Selected(bins: seq<nat>) | Refused

  // ----- the selection list -----

  /** One element and the text after it, its comma included; value 0 is refused. */
  function NextBin(text: string): (r: Number)
    requires text != []
    ensures r.value > 0 ==> |r.rest| < |text|
  {
    var n := StrToUL(text);
    if n.rest == text || (SpecParser.Peek(n.rest) != '\0' && n.rest[0] != ',') then Number(0, false, [])
    else if SpecParser.Peek(n.rest) == ',' then n.(rest := n.rest[1..])
    else n
  }

  /** The selection behind a previous bin number, counted from one. */
  function SelectAfter(text: string, prev: nat, bins: nat): Selection
    decreases |text|
  {
    hide NextBin;
    if SpecParser.Peek(text) == '\0' then Selected([])
    else
      var n := NextBin(text);
      if n.value == 0 || n.value > bins || n.value <= prev then Refused
      else Append([n.value - 1], SelectAfter(n.rest, n.value, bins))
  }

  lemma {:induction false} SelectedInOrder(text: string, prev: nat, bins: nat)
    ensures var r := SelectAfter(text, prev, bins);
      r.Selected? ==> InRange(r.bins, bins) && Ascending(r.bins) && (r.bins != [] ==> r.bins[0] >= prev)
    decreases |text|
  {
    hide NextBin, InRange, Ascending;
    NothingSelected(bins);
    if SpecParser.Peek(text) != '\0' {
      var n := NextBin(text);
      if prev < n.value <= bins {
        SelectedInOrder(n.rest, n.value, bins);
        var r := SelectAfter(n.rest, n.value, bins);
        if r.Selected? { Prepended(n.value - 1, r.bins, bins); }
      }
    }
  }

  ghost predicate InRange(sel: seq<nat>, bins: nat) {
    forall k :: 0 <= k < |sel| ==> sel[k] < bins
  }

  ghost predicate Ascending(sel: seq<nat>) {
    forall j, k :: 0 <= j < k < |sel| ==> sel[j] < sel[k]
  }

  lemma NothingSelected(bins: nat)
    ensures InRange([], bins) && Ascending([])
  {
  }

  lemma Prepended(x: nat, sel: seq<nat>, bins: nat)
    requires InRange(sel, bins) && Ascending(sel) && x < bins && (sel != [] ==> sel[0] > x)
    ensures InRange([x] + sel, bins) && Ascending([x] + sel)
  {
  }

  function Append(bins: seq<nat>, r: Selection): Selection {
    if r.Refused? then Refused else Selected(bins + r.bins)
  }

  lemma AppendNext(bins: seq<nat>, x: nat, r: Selection)
    ensures Append(bins, Append([x], r)) == Append(bins + [x], r)
  {
    if r.Selected? { assert bins + ([x] + r.bins) == bins + [x] + r.bins; }
  }

  /** The list as the loop reads it: accepted lists are strictly ascending and name
      existing bins. */
  method ParseSelection(text: string, bins: nat) returns (r: Selection)
    ensures r == SelectAfter(text, 0, bins)
    ensures r.Selected? ==> InRange(r.bins, bins) && Ascending(r.bins)
  {
    hide NextBin, InRange, Ascending;
    SelectedInOrder(text, 0, bins);
    var rest: string, prev: nat, sel: seq<nat> := text, 0, [];
    while SpecParser.Peek(rest) != '\0'
      invariant Append(sel, SelectAfter(rest, prev, bins)) == SelectAfter(text, 0, bins)
      decreases |rest|
    {
      var n := NextBin(rest);
      if n.value == 0 || n.value > bins || n.value <= prev {
        return Refused;
      }
      AppendNext(sel, n.value - 1, SelectAfter(n.rest, n.value, bins));
      sel := sel + [n.value - 1];
      rest, prev := n.rest, n.value;
    }
    return Selected(sel);
  }

  function PrintSelection(sel: seq<nat>): string {
    if sel == [] then ""
    else Decimal(sel[0] + 1) + (if |sel| > 1 then "," else "") + PrintSelection(sel[1..])
  }

  /** Every ascending list of existing bins is accepted as itself. */
  lemma {:induction false} SelectionRoundTrip(sel: seq<nat>, prev: nat, bins: nat)
    requires InRange(sel, bins) && Ascending(sel) && bins < TWO_32 && (sel != [] ==> sel[0] >= prev)
    ensures SelectAfter(PrintSelection(sel), prev, bins) == Selected(sel)
  {
    hide NextBin, PrintSelection, SelectAfter, Ascending;
    if sel == [] {
      NothingListed(prev, bins);
    } else {
      PrintedBin(sel);
      AscendingTail(sel);
      SelectionRoundTrip(sel[1..], sel[0] + 1, bins);
      SelectStep(PrintSelection(sel), prev, bins, sel[1..]);
    }
  }

  lemma NothingListed(prev: nat, bins: nat)
    ensures SelectAfter(PrintSelection([]), prev, bins) == Selected([])
  {
  }

  lemma AscendingTail(sel: seq<nat>)
    requires Ascending(sel) && sel != []
    ensures Ascending(sel[1..]) && (sel[1..] != [] ==> sel[1..][0] >= sel[0] + 1) && [sel[0]] + sel[1..] == sel
  {
  }

  lemma SelectStep(text: string, prev: nat, bins: nat, tail: seq<nat>)
    requires text != [] && SpecParser.Peek(text) != '\0'
    requires var n := NextBin(text); prev < n.value <= bins && SelectAfter(n.rest, n.value, bins) == Selected(tail)
    ensures SelectAfter(text, prev, bins) == Selected([NextBin(text).value - 1] + tail)
  {
    hide NextBin;
  }

  /** A number before the end or a comma, as one element. */
  lemma NumberThenMore(n: nat, sep: string, rest: string)
    requires n < TWO_32 && (sep == "," || (sep == "" && rest == ""))
    ensures Decimal(n) + (sep + rest) != [] && SpecParser.Peek(Decimal(n) + (sep + rest)) != '\0'
    ensures n > 0 ==> NextBin(Decimal(n) + (sep + rest)) == Number(n, false, rest)
  {
    hide Decimal, StrToUL;
    ReadDecimal(n, sep + rest);
    DropFirst(',', rest);
    var text := Decimal(n) + (sep + rest);
    assert Digit(Decimal(n)[0]) && text[0] == Decimal(n)[0];
    assert |text| > |sep + rest|;
  }

  /** The first printed element is read back, and leaves the others. */
  lemma PrintedBin(sel: seq<nat>)
    requires sel != [] && sel[0] + 1 < TWO_32
    ensures PrintSelection(sel) != [] && SpecParser.Peek(PrintSelection(sel)) != '\0'
    ensures NextBin(PrintSelection(sel)) == Number(sel[0] + 1, false, PrintSelection(sel[1..]))
  {
    hide Decimal, NextBin;
    var ds, sep, rest := Decimal(sel[0] + 1), if |sel| > 1 then "," else "", PrintSelection(sel[1..]);
    assert ds + sep + rest == ds + (sep + rest);
    NumberThenMore(sel[0] + 1, sep, rest);
  }

  // ----- the sweep -----

  /** A bin index and the position of its spec in the spec list. */
  datatype Visit = Visit(bin: nat, spec: nat)

  ghost predicate Owns(specs: seq<Spec>, i: nat, bin: nat) {
    i < |specs| && SumRepeats(specs[..i]) <= bin < SumRepeats(specs[..i + 1])
  }

  lemma {:induction false} PrefixMonotone(specs: seq<Spec>, i: nat, j: nat)
    requires i <= j <= |specs|
    ensures SumRepeats(specs[..i]) <= SumRepeats(specs[..j])
    decreases j
  {
    if i < j {
      PrefixMonotone(specs, i, j - 1);
      PrefixNext(specs, j - 1);
    }
  }

  lemma PrefixNext(specs: seq<Spec>, i: nat)
    requires i < |specs|
    ensures SumRepeats(specs[..i + 1]) == SumRepeats(specs[..i]) + specs[i].repeats
  {
    TakeNext(specs, i);
    SumSnoc(specs[..i], specs[i]);
  }

  /** At most one spec owns a bin index. */
  lemma OneOwner(specs: seq<Spec>, i: nat, j: nat, bin: nat)
    requires Owns(specs, i, bin) && Owns(specs, j, bin)
    ensures i == j
  {
    if i < j { PrefixMonotone(specs, i + 1, j); }
    if j < i { PrefixMonotone(specs, j + 1, i); }
  }

  /** The full populate loop: every bin index once, with the spec that owns it. */
  method Populate(specs: seq<Spec>) returns (visits: seq<Visit>)
    requires AllWellFormed(specs) && SumRepeats(specs) < TWO_32
    ensures |visits| == SumRepeats(specs)
    ensures forall c: nat :: c < |visits| ==> visits[c].bin == c && Owns(specs, visits[c].spec, c)
  {
    hide WellFormed, SumRepeats;
    visits := [];
    var i, count := 0, 0;
    NoBins(specs);
    while count < SumRepeats(specs)
      invariant i <= |specs| && count == SumRepeats(specs[..i]) == |visits|
      invariant forall c: nat :: c < |visits| ==> visits[c].bin == c && Owns(specs, visits[c].spec, c)
      decreases |specs| - i
    {
      NotDone(specs, i);
      PrefixNext(specs, i);
      for j := 0 to specs[i].repeats
        invariant count == SumRepeats(specs[..i]) + j == |visits|
        invariant forall c: nat :: c < |visits| ==> visits[c].bin == c && Owns(specs, visits[c].spec, c)
      {
        visits := visits + [Visit(count, i)];
        count := count + 1;
      }
      i := i + 1;
    }
    PrefixBound(specs, i);
  }

  lemma NotDone(specs: seq<Spec>, i: nat)
    requires i <= |specs| && SumRepeats(specs[..i]) < SumRepeats(specs)
    ensures i < |specs|
  {
    assert specs[..|specs|] == specs;
  }

  lemma PrefixBound(specs: seq<Spec>, i: nat)
    requires i <= |specs|
    ensures SumRepeats(specs[..i]) <= SumRepeats(specs)
  {
    PrefixMonotone(specs, i, |specs|);
    assert specs[..|specs|] == specs;
  }

  /** The sweep over a selection stored with its zero terminator: fell is the exit
      marked unreachable. */
  method Sweep(specs: seq<Spec>, sel: seq<nat>) returns (visits: seq<Visit>, fell: bool)
    requires AllWellFormed(specs) && SumRepeats(specs) < TWO_32
    requires InRange(sel, SumRepeats(specs)) && Ascending(sel)
    ensures sel != [] ==> !fell && |visits| == |sel|
    ensures sel != [] ==> forall k :: 0 <= k < |sel| ==> visits[k].bin == sel[k] && Owns(specs, visits[k].spec, sel[k])
    ensures sel == [] && specs != [] ==> !fell && visits == [Visit(0, 0)]
    ensures sel == [] && specs == [] ==> fell
  {
    hide WellFormed, SumRepeats;
    var stored := sel + [0];
    var n := SumRepeats(specs);
    var i, iter, total, idx := 0, 0, 0, stored[0];
    visits := [];
    NoBins(specs);
    while total < n
      invariant i <= |specs| && total == SumRepeats(specs[..i]) <= n
      invariant iter == |visits| && (if sel == [] then iter == 0 else iter < |sel|) && idx == stored[iter]
      invariant total <= idx || idx == total == 0
      invariant n > 0 ==> idx < n
      invariant sel == [] ==> total == 0 && i == 0
      invariant forall k :: 0 <= k < iter ==> visits[k].bin == stored[k] && Owns(specs, visits[k].spec, stored[k])
      decreases |specs| - i
    {
      NotDone(specs, i);
      PrefixNext(specs, i);
      PositiveRepeats(specs, i);
      PrefixBound(specs, i + 1);
      while total + specs[i].repeats > idx
        invariant iter == |visits| && (if sel == [] then iter == 0 else iter < |sel|) && idx == stored[iter]
        invariant total <= idx < n
        invariant forall k :: 0 <= k < iter ==> visits[k].bin == stored[k] && Owns(specs, visits[k].spec, stored[k])
        decreases |sel| - iter
      {
        visits := visits + [Visit(idx, i)];
        iter := iter + 1;
        if iter >= |sel| {
          return visits, false;
        }
        idx := stored[iter];
      }
      total := total + specs[i].repeats;
      i := i + 1;
    }
    return visits, true;
  }

  lemma NoBins(specs: seq<Spec>)
    requires AllWellFormed(specs)
    ensures SumRepeats(specs) == 0 <==> specs == []
    ensures SumRepeats(specs[..0]) == 0
  {
    if specs != [] { assert WellFormed(specs[|specs| - 1]); }
  }

  lemma PositiveRepeats(specs: seq<Spec>, i: nat)
    requires AllWellFormed(specs) && i < |specs|
    ensures specs[i].repeats >= 1
  {
    assert WellFormed(specs[i]);
  }

  /** An empty text is an accepted, empty selection: the sweep's one odd case. */
  lemma EmptyTextSelectsNothing(bins: nat)
    ensures SelectAfter("", 0, bins) == Selected([])
  {
  }
}

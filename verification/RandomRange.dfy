/** Drawing below a bound without bias: draws under the remainder of the word size
    are thrown away. */
module RandomRange {
  import opened Bits
  import opened RandomString

  /** A bound a caller may pass: a non-zero 64-bit word. */
  type Bound = m: int | 1 <= m < TWO_64 witness 1

  /** 36^12, the bound on string seeds. */
  const MAX_SEED: Bound := 4738381338321616896

  /** Minus max, as a word, modulo max. */
  function Rejects(max: Bound): (r: nat)
    ensures r < max
  {
    (TWO_64 - max) % max
  }

  predicate Accepted(max: Bound, r: nat) {
    Rejects(max) <= r < TWO_64
  }

  /** Draw until a word is not rejected, then reduce it. */
  method GenRandRange64(draws: seq<nat>, max: Bound) returns (r: nat, used: nat)
    requires forall i :: 0 <= i < |draws| ==> draws[i] < TWO_64
    requires exists i :: 0 <= i < |draws| && Accepted(max, draws[i])
    ensures 0 < used <= |draws| && Accepted(max, draws[used - 1]) && r == draws[used - 1] % max < max
    ensures forall i :: 0 <= i < used - 1 ==> !Accepted(max, draws[i])
  {
    var rem := Rejects(max);
    var w := draws[0];
    used := 1;
    while w < rem
      invariant 0 < used <= |draws| && w == draws[used - 1]
      invariant forall i :: 0 <= i < used - 1 ==> !Accepted(max, draws[i])
      decreases |draws| - used
    {
      hide Rejects;
      if used == |draws| {
        assert forall i :: 0 <= i < |draws| ==> !Accepted(max, draws[i]);
        assert false;
      }
      w := draws[used];
      used := used + 1;
    }
    r := w % max;
  }

  // ----- every residue has equally many draws -----

  /** Full rounds of residues in the accepted range. */
  function Rounds(max: Bound): (n: nat)
    ensures n == TWO_64 / max
  {
    QuotientNat(TWO_64, max);
    TWO_64 / max
  }

  /** The accepted range is a whole number of rounds. */
  lemma WholeRounds(max: Bound)
    ensures TWO_64 == Rejects(max) + Rounds(max) * max
  {
    DivMod(TWO_64 - max, max);
    var q := (TWO_64 - max) / max;
    MulSucc(q, max);
    DivModUnique(TWO_64, max, q + 1, Rejects(max));
  }

  /** The draw of round q that gives residue v. */
  function Draw(max: Bound, v: nat, q: nat): (r: nat)
    requires v < max
    ensures r >= Rejects(max)
  {
    NatProduct(q, max);
    var rem := Rejects(max);
    rem + q * max + (if v >= rem then v - rem else v + max - rem)
  }

  lemma NatProduct(a: nat, b: nat)
    ensures a * b >= 0
  {
  }

  lemma DrawGives(max: Bound, v: nat, q: nat)
    requires v < max && q < Rounds(max)
    ensures Accepted(max, Draw(max, v, q)) && Draw(max, v, q) % max == v
  {
    hide Rejects, Rounds;
    WholeRounds(max);
    MulStrictMono(q, Rounds(max), max);
    var rem := Rejects(max);
    if v >= rem {
      DivModUnique(Draw(max, v, q), max, q, v);
    } else {
      MulSucc(q, max);
      DivModUnique(Draw(max, v, q), max, q + 1, v);
    }
  }

  /** Every accepted draw is the one of its round and residue. */
  lemma DrawOf(max: Bound, r: nat) returns (q: nat)
    requires Accepted(max, r)
    ensures r % max < max && q < Rounds(max) && r == Draw(max, r % max, q)
  {
    hide Rejects, Rounds;
    WholeRounds(max);
    var rem := Rejects(max);
    QuotientNat(r - rem, max);
    q := (r - rem) / max;
    var j := (r - rem) % max;
    DivMod(r - rem, max);
    if q >= Rounds(max) { MulMono(Rounds(max), q, max); }
    if rem + j < max {
      DivModUnique(r, max, q, rem + j);
    } else {
      MulSucc(q, max);
      DivModUnique(r, max, q + 1, rem + j - max);
    }
  }

  function DrawsFor(max: Bound, v: nat, n: nat): set<nat>
    requires v < max
  {
    if n == 0 then {} else DrawsFor(max, v, n - 1) + {Draw(max, v, n - 1)}
  }

  lemma DrawsGrow(max: Bound, v: nat, q: nat, n: nat)
    requires v < max && q < n
    ensures Draw(max, v, q) < Draw(max, v, n)
  {
    hide Rejects;
    MulStrictMono(q, n, max);
  }

  lemma {:induction false} DrawsBelow(max: Bound, v: nat, n: nat, r: nat)
    requires v < max && r in DrawsFor(max, v, n)
    ensures r < Draw(max, v, n)
  {
    hide Draw;
    DrawsGrow(max, v, n - 1, n);
    if r != Draw(max, v, n - 1) { DrawsBelow(max, v, n - 1, r); }
  }

  lemma {:induction false} DrawsForCount(max: Bound, v: nat, n: nat)
    requires v < max
    ensures |DrawsFor(max, v, n)| == n
  {
    hide Draw;
    if n > 0 {
      DrawsForCount(max, v, n - 1);
      var d := Draw(max, v, n - 1);
      if d in DrawsFor(max, v, n - 1) { DrawsBelow(max, v, n - 1, d); }
    }
  }

  lemma {:induction false} DrawIn(max: Bound, v: nat, q: nat, n: nat)
    requires v < max && q < n
    ensures Draw(max, v, q) in DrawsFor(max, v, n)
  {
    hide Draw;
    if q < n - 1 { DrawIn(max, v, q, n - 1); }
  }

  lemma {:induction false} DrawsForMembers(max: Bound, v: nat, n: nat, r: nat)
    requires v < max && n <= Rounds(max) && r in DrawsFor(max, v, n)
    ensures Accepted(max, r) && r % max == v
  {
    hide Draw, Rounds, Accepted;
    if r == Draw(max, v, n - 1) {
      DrawGives(max, v, n - 1);
    } else {
      DrawsForMembers(max, v, n - 1, r);
    }
  }

  /** The accepted draws that reduce to v: exactly 2^64 / max of them, whatever v. */
  lemma EquallyMany(max: Bound, v: nat)
    requires v < max
    ensures |DrawsFor(max, v, Rounds(max))| == Rounds(max)
    ensures forall r: nat :: r in DrawsFor(max, v, Rounds(max)) <==> Accepted(max, r) && r % max == v
  {
    hide DrawsFor, Draw, Rounds, Accepted;
    var n := Rounds(max);
    DrawsForCount(max, v, n);
    forall r: nat
      ensures r in DrawsFor(max, v, n) <==> Accepted(max, r) && r % max == v
    {
      if r in DrawsFor(max, v, n) {
        DrawsForMembers(max, v, n, r);
      }
      if Accepted(max, r) && r % max == v {
        var q := DrawOf(max, r);
        DrawIn(max, v, q, n);
      }
    }
  }

  // ----- every block of characters has equally many draws -----

  function Pow36(n: nat): (r: nat)
    ensures r > 0
  {
    if n == 0 then 1 else 36 * Pow36(n - 1)
  }

  lemma MaxSeedIsPower()
    ensures MAX_SEED == Pow36(12)
  {
    assert Pow36(3) == 46656;
    assert Pow36(6) == 46656 * 46656 by { assert Pow36(6) == 36 * 36 * 36 * Pow36(3); }
    assert Pow36(9) == 36 * 36 * 36 * Pow36(6);
    assert Pow36(12) == 36 * 36 * 36 * Pow36(9);
  }

  ghost predicate Block(ds: seq<nat>) {
    forall i :: 0 <= i < |ds| ==> ds[i] < 36
  }

  /** The seed with these digits, the lowest first. */
  function SeedOf(ds: seq<nat>): nat {
    if ds == [] then 0 else ds[0] + 36 * SeedOf(ds[1..])
  }

  lemma {:induction false} ShiftFront(s: nat, k: nat)
    ensures Shifted(s, k + 1) == Shifted(s / 36, k)
  {
    if k > 0 { ShiftFront(s, k - 1); }
  }

  lemma {:induction false} SeedDigits(ds: seq<nat>, k: nat)
    requires Block(ds) && k < |ds|
    ensures DigitAt(SeedOf(ds), k) == ds[k]
    decreases k
  {
    var s := SeedOf(ds);
    assert s % 36 == ds[0] && s / 36 == SeedOf(ds[1..]);
    if k > 0 {
      ShiftFront(s, k - 1);
      SeedDigits(ds[1..], k - 1);
    }
  }

  lemma {:induction false} SeedBelow(ds: seq<nat>)
    requires Block(ds)
    ensures SeedOf(ds) < Pow36(|ds|)
  {
    if ds != [] { SeedBelow(ds[1..]); }
  }

  lemma {:induction false} DigitsSeed(s: nat, ds: seq<nat>)
    requires s < Pow36(|ds|) && forall k :: 0 <= k < |ds| ==> ds[k] == DigitAt(s, k)
    ensures SeedOf(ds) == s
  {
    if ds != [] {
      assert ds[0] == s % 36;
      forall k | 0 <= k < |ds[1..]|
        ensures ds[1..][k] == DigitAt(s / 36, k)
      {
        ShiftFront(s, k);
        assert ds[1..][k] == ds[k + 1];
      }
      DigitsSeed(s / 36, ds[1..]);
    }
  }

  /** A draw yields a block of twelve characters exactly when it reduces to the one
      seed of that block, so every block has the same number of draws. */
  lemma BlockEquallyLikely(ds: seq<nat>)
    requires Block(ds) && |ds| == 12
    ensures SeedOf(ds) < MAX_SEED && |DrawsFor(MAX_SEED, SeedOf(ds), Rounds(MAX_SEED))| == Rounds(MAX_SEED)
    ensures forall r: nat :: r in DrawsFor(MAX_SEED, SeedOf(ds), Rounds(MAX_SEED)) <==>
              Accepted(MAX_SEED, r) && DigitsFrom(r % MAX_SEED, 0, 12) == ds
  {
    hide Accepted, DrawsFor, Rounds, SeedOf, DigitAt, Pow36;
    MaxSeedIsPower();
    SeedBelow(ds);
    EquallyMany(MAX_SEED, SeedOf(ds));
    forall r: nat
      ensures r % MAX_SEED == SeedOf(ds) <==> DigitsFrom(r % MAX_SEED, 0, 12) == ds
    {
      BlockOfSeed(r % MAX_SEED, ds);
    }
  }

  lemma BlockOfSeed(s: nat, ds: seq<nat>)
    requires Block(ds) && s < Pow36(|ds|)
    ensures s == SeedOf(ds) <==> DigitsFrom(s, 0, |ds|) == ds
  {
    hide SeedOf, DigitAt, Pow36;
    if s == SeedOf(ds) {
      forall k | 0 <= k < |ds|
        ensures DigitsFrom(s, 0, |ds|)[k] == ds[k]
      {
        SeedDigits(ds, k);
      }
    }
    if DigitsFrom(s, 0, |ds|) == ds {
      DigitsSeed(s, ds);
    }
  }

  /** Different digits are different characters. */
  lemma AlnumInjective(a: bv64, b: bv64)
    requires a < 36 && b < 36 && Alnum(a) == Alnum(b)
    ensures a == b
  {
  }

  lemma SixBits(a: nat)
    requires a < 36
    ensures (a as bv6) as nat == a
  {
  }

  lemma Widened(a: bv6, b: bv6)
    requires a as bv64 == b as bv64
    ensures a == b
  {
  }

  lemma WordInjective(a: nat, b: nat)
    requires a < 36 && b < 36 && Word(a) == Word(b)
    ensures a == b
  {
    SixBits(a);
    SixBits(b);
    Widened(a as bv6, b as bv6);
  }

  /** The twelve characters a seed gives. */
  function Glyphs(s: nat): (r: seq<bv64>)
    ensures |r| == 12 && forall k :: 0 <= k < 12 ==> r[k] == Glyph(s, k)
  {
    seq(12, k requires 0 <= k => Glyph(s, k))
  }

  lemma SameGlyphs(s: nat, s': nat)
    ensures Glyphs(s) == Glyphs(s') <==> DigitsFrom(s, 0, 12) == DigitsFrom(s', 0, 12)
  {
    hide Word, Alnum, DigitAt;
    if Glyphs(s) == Glyphs(s') {
      forall k | 0 <= k < 12
        ensures DigitsFrom(s, 0, 12)[k] == DigitsFrom(s', 0, 12)[k]
      {
        assert Glyphs(s)[k] == Glyphs(s')[k];
        AlnumInjective(Word(DigitAt(s, k)), Word(DigitAt(s', k)));
        WordInjective(DigitAt(s, k), DigitAt(s', k));
      }
    }
    if DigitsFrom(s, 0, 12) == DigitsFrom(s', 0, 12) {
      forall k | 0 <= k < 12
        ensures Glyphs(s)[k] == Glyphs(s')[k]
      {
        assert DigitsFrom(s, 0, 12)[k] == DigitsFrom(s', 0, 12)[k];
      }
    }
  }

  /** Every block of twelve characters comes from equally many accepted draws. */
  lemma CharactersEquallyLikely(ds: seq<nat>)
    requires Block(ds) && |ds| == 12
    ensures SeedOf(ds) < MAX_SEED && |DrawsFor(MAX_SEED, SeedOf(ds), Rounds(MAX_SEED))| == Rounds(MAX_SEED)
    ensures forall r: nat :: r in DrawsFor(MAX_SEED, SeedOf(ds), Rounds(MAX_SEED)) <==>
              Accepted(MAX_SEED, r) && Glyphs(r % MAX_SEED) == Glyphs(SeedOf(ds))
    ensures forall k :: 0 <= k < 12 ==> Glyphs(SeedOf(ds))[k] == Alnum(Word(ds[k]))
  {
    hide Accepted, DrawsFor, Rounds, SeedOf, DigitAt, Pow36, Word, Alnum;
    BlockEquallyLikely(ds);
    MaxSeedIsPower();
    BlockOfSeed(SeedOf(ds), ds);
    forall r: nat
      ensures DigitsFrom(r % MAX_SEED, 0, 12) == ds <==> Glyphs(r % MAX_SEED) == Glyphs(SeedOf(ds))
    {
      SameGlyphs(r % MAX_SEED, SeedOf(ds));
    }
    assert DigitsFrom(SeedOf(ds), 0, 12) == ds;
  }
}

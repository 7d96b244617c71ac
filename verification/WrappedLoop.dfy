/** When a worker's issuing loop comes to an end at all, its 64-bit counter wrapping
    as often as it may. */
module WrappedLoop {
  import opened Bits
  import opened KeyRange

  // ----- a stride as a power of two times an odd number -----

  function Twos(s: nat): nat
    requires s > 0
  {
    if s % 2 == 1 then 0 else 1 + Twos(s / 2)
  }

  /** The largest power of two dividing a stride. */
  function Grain(s: nat): (g: nat)
    requires s > 0
    ensures g > 0
  {
    Pow2(Twos(s))
  }

  function Odd(s: nat): (o: nat)
    requires s > 0
    ensures o % 2 == 1
  {
    if s % 2 == 1 then s else Odd(s / 2)
  }

  lemma {:induction false} GrainTimesOdd(s: nat)
    requires s > 0
    ensures s == Odd(s) * Grain(s) && Pow2(Twos(s)) <= s
  {
    if s % 2 == 0 {
      GrainTimesOdd(s / 2);
      MulAssoc(Odd(s), 2, Grain(s / 2));
      MulAssoc(2, Odd(s), Grain(s / 2));
    }
  }

  /** It divides 2^64. */
  lemma GrainDivides(stride: Step) returns (m: nat)
    ensures m > 0 && TWO_64 == m * Grain(stride)
  {
    hide Pow2, Odd;
    GrainTimesOdd(stride);
    var e := Twos(stride);
    Pow2Constants();
    if e >= 64 { Pow2Mono(32, e); }
    Pow2Of64();
    m := Pow2(64 - e);
    Pow2Add(64 - e, e);
  }

  /** An odd number has an inverse modulo every power of two, found bit by bit. */
  lemma {:induction false} OddInverse(o: nat, e: nat) returns (x: nat, q: nat)
    requires o % 2 == 1
    ensures o * x == 1 + q * Pow2(e)
  {
    if e == 0 {
      x, q := 1, o - 1;
    } else {
      var p := Pow2(e - 1);
      x, q := OddInverse(o, e - 1);
      if q % 2 == 0 {
        q := q / 2;
        MulAssoc(q, 2, p);
      } else {
        Lift(o, x, q, p);
        x, q := x + p, (q + o) / 2;
      }
    }
  }

  lemma Lift(o: nat, x: nat, q: nat, p: nat)
    requires o % 2 == 1 && q % 2 == 1 && o * x == 1 + q * p
    ensures o * (x + p) == 1 + (q + o) / 2 * (2 * p)
  {
    var h := (q + o) / 2;
    assert q + o == h * 2;
    MulAssoc(h, 2, p);
    assert o * (x + p) == o * x + o * p;
    assert (q + o) * p == q * p + o * p;
  }

  // ----- the counters of a loop -----

  /** The largest 64-bit number a counter that starts at k can show. */
  function Highest(k: Word, stride: Step): int {
    TWO_64 - Grain(stride) + k % Grain(stride)
  }

  /** Every counter has the start's remainder, */
  lemma {:induction false} SameRemainder(k: Word, end: Word, stride: Step, n: nat)
    ensures CounterAfter(k, end, stride, n) % Grain(stride) == k % Grain(stride)
    decreases n
  {
    hide Wrap64, Grain;
    if n > 0 && k < end {
      SameRemainder(Wrap64(k + stride), end, stride, n - 1);
      var m := GrainDivides(stride);
      GrainTimesOdd(stride);
      WrapKeeps(k, stride, Odd(stride), m, Grain(stride));
    }
  }

  lemma WrapKeeps(k: Word, stride: Step, o: nat, m: nat, g: nat)
    requires g > 0 && stride == o * g && TWO_64 == m * g
    ensures Wrap64(k + stride) % g == k % g
  {
    DivMod(k, g);
    var q, r := k / g, k % g;
    WrapEither(k + stride);
    assert (q + o) * g == q * g + o * g;
    assert (q + o - m) * g == (q + o) * g - m * g;
    if k + stride < TWO_64 {
      DivModUnique(k + stride, g, q + o, r);
    } else {
      DivModUnique(k + stride - TWO_64, g, q + o - m, r);
    }
  }

  lemma WrapEither(x: nat)
    requires x < 2 * TWO_64
    ensures Wrap64(x) == if x < TWO_64 then x else x - TWO_64
  {
  }

  /** so none is above the highest. */
  lemma AtMostHighest(k: Word, w: Word, stride: Step)
    requires w % Grain(stride) == k % Grain(stride)
    ensures w <= Highest(k, stride)
  {
    hide Grain;
    var m := GrainDivides(stride);
    var g := Grain(stride);
    DivMod(w, g);
    if w / g >= m { MulMono(m, w / g, g); }
    MulMono(w / g, m - 1, g);
    MulSucc(m - 1, g);
  }

  /** A loop that goes on shows the start plus n strides, modulo 2^64. */
  lemma {:induction false} CounterIs(k: Word, end: Word, stride: Step, n: nat)
    ensures CounterAfter(k, end, stride, n) >= end || CounterAfter(k, end, stride, n) == Wrap64(k + n * stride)
    decreases n
  {
    hide Wrap64;
    MulMono(0, n, stride);
    if n == 0 {
      SmallStays(k);
    } else if k < end {
      var k' := Wrap64(k + stride);
      MulMono(0, n - 1, stride);
      CounterIs(k', end, stride, n - 1);
      MulSucc(n - 1, stride);
      WrapAdds(k + stride, (n - 1) * stride);
    }
  }

  lemma WrapAdds(a: nat, b: nat)
    ensures Wrap64(Wrap64(a) + b) == Wrap64(a + b)
  {
    DivMod(a, TWO_64);
    DivMod(Wrap64(a) + b, TWO_64);
    var q, p := a / TWO_64, (Wrap64(a) + b) / TWO_64;
    DivModUnique(a + b, TWO_64, q + p, Wrap64(Wrap64(a) + b));
  }

  /** Some number of strides leads to the highest counter. */
  lemma TurnsToHighest(k: Word, stride: Step) returns (n: nat)
    ensures n * stride >= 0 && 0 <= Highest(k, stride) == Wrap64(k + n * stride)
  {
    hide Grain, Odd, Wrap64, Pow2;
    var m := GrainDivides(stride);
    var g, o := Grain(stride), Odd(stride);
    GrainTimesOdd(stride);
    Pow2Of64();
    var x, q := OddInverse(o, 64);
    DivMod(k, g);
    QuotientNat(k, g);
    AtMostHighest(k, k, stride);
    var d := Distance(k, g, m);
    n := d * x;
    StridesAdd(d, x, o, g, q, stride);
    MulMono(0, d * g, q);
    WrapMultiple(Highest(k, stride), d * g * q);
  }

  lemma Distance(k: Word, g: nat, m: nat) returns (d: nat)
    requires g > 0 && TWO_64 == m * g
    ensures TWO_64 - g + k % g - k == d * g
  {
    DivMod(k, g);
    if k / g >= m { MulMono(m, k / g, g); }
    d := m - 1 - k / g;
    assert (m - 1 - k / g) * g == m * g - g - k / g * g;
  }

  lemma StridesAdd(d: nat, x: nat, o: nat, g: nat, q: nat, stride: nat)
    requires o * x == 1 + q * TWO_64 && stride == o * g
    ensures d * x * stride == d * g + d * g * q * TWO_64
  {
    calc {
      d * x * (o * g);
    == { MulAssoc(d * x, o, g); MulAssoc(d, x, o); }
      d * (o * x) * g;
    == { MulAssoc(d, o * x, g); MulAssoc(d, g, o * x); }
      d * g * (1 + q * TWO_64);
    == { MulAssoc(d * g, q, TWO_64); }
      d * g + d * g * q * TWO_64;
    }
  }

  lemma WrapMultiple(w: Word, q: nat)
    ensures Wrap64(w + q * TWO_64) == w
  {
    DivModUnique(w + q * TWO_64, TWO_64, q, w);
  }

  // ----- ending -----

  ghost predicate Ends(k: Word, end: Word, stride: Step) {
    exists n: nat :: CounterAfter(k, end, stride, n) >= end
  }

  /** A worker's loop comes to an end, however often its counter wraps, if and only
      if the highest number its counter can show is at the end or past it. */
  lemma EndsIff(k: Word, end: Word, stride: Step)
    ensures Ends(k, end, stride) <==> Highest(k, stride) >= end
  {
    hide CounterAfter, Wrap64, Highest;
    if Highest(k, stride) >= end {
      var n := TurnsToHighest(k, stride);
      CounterIs(k, end, stride, n);
    }
    forall n: nat | CounterAfter(k, end, stride, n) >= end
      ensures Highest(k, stride) >= end
    {
      SameRemainder(k, end, stride, n);
      AtMostHighest(k, CounterAfter(k, end, stride, n), stride);
    }
  }

  /** With an odd batch size, so also with single keys, every loop ends. */
  lemma OddAlwaysEnds(k: Word, end: Word, stride: Step)
    requires stride % 2 == 1
    ensures Ends(k, end, stride)
  {
    hide CounterAfter;
    EndsIff(k, end, stride);
    assert Grain(stride) == 1;
  }
}

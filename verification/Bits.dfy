/** Machine-word arithmetic on mathematical naturals: shifts, masks, bitwise or
    and the bit length (64 minus the count of leading zeros). */
module Bits {

  const TWO_31: nat := 0x8000_0000
  const TWO_32: nat := 0x1_0000_0000
  const TWO_63: nat := 0x8000_0000_0000_0000
  const TWO_64: nat := 0x1_0000_0000_0000_0000
  const INT64_MAX: nat := TWO_63 - 1

  type Int64 = v: int | 0 - TWO_63 <= v < TWO_63

  /** What a 32-bit unsigned counter shows. */
  function Wrap32(x: nat): (r: nat)
    ensures r < TWO_32
  {
    x % TWO_32
  }

  /** Incrementing the word follows the unbounded counter. */
  lemma WrapSucc(x: nat)
    ensures Wrap32(Wrap32(x) + 1) == Wrap32(x + 1)
  {
  }

  function Pow2(n: nat): (r: nat)
    ensures r > 0
  {
    if n == 0 then 1 else 2 * Pow2(n - 1)
  }

  function Shl(v: nat, k: nat): nat {
    v * Pow2(k)
  }

  function Shr(v: nat, k: nat): nat {
    hide Pow2;
    QuotientNat(v, Pow2(k));
    v / Pow2(k)
  }

  lemma QuotientNat(v: nat, d: nat)
    requires d > 0
    ensures v / d >= 0
  {
  }

  /** Number of bits up to and including the highest one bit: 64 - clz(v). */
  function BitLen(v: nat): nat {
    if v == 0 then 0 else 1 + BitLen(v / 2)
  }

  function BitOr(a: nat, b: nat): nat
    decreases a + b
  {
    if a == 0 && b == 0 then 0
    else 2 * BitOr(a / 2, b / 2) + (if a % 2 == 1 || b % 2 == 1 then 1 else 0)
  }

  function BitAnd(a: nat, b: nat): nat
    decreases a + b
  {
    if a == 0 && b == 0 then 0
    else 2 * BitAnd(a / 2, b / 2) + (if a % 2 == 1 && b % 2 == 1 then 1 else 0)
  }

  function BitXor(a: nat, b: nat): nat
    decreases a + b
  {
    if a == 0 && b == 0 then 0
    else 2 * BitXor(a / 2, b / 2) + (if a % 2 != b % 2 then 1 else 0)
  }

  lemma {:induction false} Pow2Add(a: nat, b: nat)
    ensures Pow2(a + b) == Pow2(a) * Pow2(b)
  {
    if b > 0 {
      Pow2Add(a, b - 1);
      assert Pow2(a + b) == 2 * Pow2(a + (b - 1));
    }
  }

  lemma {:induction false} Pow2Mono(a: nat, b: nat)
    requires a <= b
    ensures Pow2(a) <= Pow2(b)
  {
    if a < b {
      Pow2Mono(a, b - 1);
    }
  }

  lemma Pow2StrictMono(a: nat, b: nat)
    requires a < b
    ensures Pow2(a) < Pow2(b)
  {
    Pow2Mono(a, b - 1);
  }

  lemma Pow2Of64()
    ensures Pow2(64) == TWO_64
  {
    Pow2Constants();
  }

  lemma Pow2Constants()
    ensures Pow2(31) == TWO_31 && Pow2(32) == TWO_32 && Pow2(62) * 2 == TWO_63 && Pow2(63) == TWO_63
  {
    assert Pow2(8) == 256;
    Pow2Add(8, 8);
    Pow2Add(16, 16);
    Pow2Add(16, 15);
    assert Pow2(15) == 32768 by { Pow2Add(8, 7); assert Pow2(7) == 128; }
    Pow2Add(32, 31);
  }

  /** The bit length brackets a non-zero value between two powers of two. */
  lemma {:induction false} BitLenBounds(v: nat)
    ensures v < Pow2(BitLen(v))
    ensures v > 0 ==> BitLen(v) > 0 && Pow2(BitLen(v) - 1) <= v
  {
    if v > 0 {
      BitLenBounds(v / 2);
    }
  }

  /** Any bracket between consecutive powers of two determines the bit length. */
  lemma BitLenUnique(v: nat, n: nat)
    requires Pow2(n) <= v < Pow2(n + 1)
    ensures BitLen(v) == n + 1
  {
    BitLenBounds(v);
    if BitLen(v) < n + 1 {
      Pow2Mono(BitLen(v), n);
    } else if BitLen(v) > n + 1 {
      Pow2Mono(n + 1, BitLen(v) - 1);
    }
  }

  lemma {:induction false} BitLenOr(a: nat, b: nat)
    ensures BitLen(BitOr(a, b)) == if BitLen(a) >= BitLen(b) then BitLen(a) else BitLen(b)
    decreases a + b
  {
    if a != 0 || b != 0 {
      BitLenOr(a / 2, b / 2);
      var h := BitOr(a / 2, b / 2);
      assert BitOr(a, b) / 2 == h;
      if a / 2 == 0 && b / 2 == 0 {
        assert BitOr(a, b) == 1;
        assert BitLen(1) == 1 + BitLen(0);
      } else {
        assert BitLen(h) > 0;
      }
    }
  }

  lemma Pow2Halves(e: nat)
    ensures Pow2(e) == if e == 0 then 1 else 2 * Pow2(e - 1)
  {
  }

  lemma AndHalves(a: nat, b: nat)
    requires b % 2 == 1
    ensures BitAnd(a, b) == 2 * BitAnd(a / 2, b / 2) + a % 2
  {
  }

  /** Masking with 2^k - 1 is the remainder modulo 2^k. */
  lemma {:induction false} AndMask(x: nat, k: nat)
    ensures BitAnd(x, Pow2(k) - 1) == x % Pow2(k)
    decreases k, x
  {
    hide Pow2, BitAnd;
    Pow2Halves(k);
    if k == 0 {
      AndZero(x);
    } else {
      var m := Pow2(k - 1);
      assert (2 * m - 1) / 2 == m - 1 && (2 * m - 1) % 2 == 1;
      AndHalves(x, 2 * m - 1);
      AndMask(x / 2, k - 1);
      HalfMod(x, m);
    }
  }

  lemma {:induction false} XorZero(x: nat)
    ensures BitXor(x, 0) == x
  {
    if x > 0 { XorZero(x / 2); }
  }

  /** All ones complement. */
  lemma {:induction false} XorOnes(x: nat, k: nat)
    requires x < Pow2(k)
    ensures BitXor(x, Pow2(k) - 1) == Pow2(k) - 1 - x
  {
    if k > 0 {
      var m := Pow2(k - 1);
      assert Pow2(k) == 2 * m && (2 * m - 1) / 2 == m - 1 && (2 * m - 1) % 2 == 1;
      XorOnes(x / 2, k - 1);
    }
  }

  /** A remainder modulo an even number, from the halves. */
  lemma HalfMod(x: nat, m: nat)
    requires m > 0
    ensures x % (2 * m) == 2 * (x / 2 % m) + x % 2
  {
    DivMod(x / 2, m);
    var q, r := x / 2 / m, x / 2 % m;
    assert x == q * (2 * m) + (2 * r + x % 2) by {
      assert x / 2 == q * m + r;
    }
    DivModUnique(x, 2 * m, q, 2 * r + x % 2);
  }

  lemma {:induction false} AndZero(x: nat)
    ensures BitAnd(x, 0) == 0
  {
    if x > 0 {
      AndZero(x / 2);
    }
  }

  lemma DivMod(x: int, d: int)
    requires d > 0
    ensures x == x / d * d + x % d && 0 <= x % d < d
  {
  }

  /** A quotient and an in-range remainder are the ones division computes. */
  lemma DivModUnique(x: int, d: int, q: int, r: int)
    requires d > 0 && 0 <= r < d && x == q * d + r
    ensures x / d == q && x % d == r
  {
    DivMod(x, d);
    var q', r' := x / d, x % d;
    assert (q - q') * d == r' - r;
    if q > q' {
      MulMono(1, q - q', d);
    } else if q < q' {
      MulMono(1, q' - q, d);
    }
  }

  lemma MulMono(a: int, b: int, c: int)
    requires a <= b && c >= 0
    ensures a * c <= b * c
  {
  }

  lemma MulStrictMono(a: int, b: int, c: int)
    requires a < b && c > 0
    ensures a * c < b * c && a * c + c <= b * c
  {
    MulMono(a + 1, b, c);
  }

  lemma MulAssoc(a: int, b: int, c: int)
    ensures a * (b * c) == a * b * c
  {
  }

  lemma MulSucc(a: int, b: int)
    ensures (a + 1) * b == a * b + b
  {
  }
}

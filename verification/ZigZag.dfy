/** Zig-zag LEB128: signed 64-bit integers in one to nine bytes. */
module ZigZag {
  import opened Bits

  type Byte = b: int | 0 <= b < 256

  /** The two's complement word (v << 1) ^ (v >> 63), read as an unsigned number. */
  function ZigZag(v: int): (u: nat)
    ensures u / 2 == if v >= 0 then v else -v - 1
  {
    if v >= 0 then 2 * v else -2 * v - 1
  }

  /** (u >> 1) ^ -(u & 1), read as a signed number. */
  function UnZigZag(u: nat): int {
    if u % 2 == 0 then u / 2 else -(u / 2) - 1
  }

  /** They are those operators: a shift left drops what passes 64 bits, a shift right
      by 63 spreads the sign over the word, */
  lemma ZigZagIsXor(v: Int64)
    ensures ZigZag(v) == BitXor(2 * v % TWO_64, (v / TWO_63) % TWO_64)
  {
    hide BitXor, Pow2;
    Pow2Of64();
    if v >= 0 {
      assert v / TWO_63 == 0 && 2 * v % TWO_64 == 2 * v;
      XorZero(2 * v);
    } else {
      assert v / TWO_63 == -1 && (v / TWO_63) % TWO_64 == TWO_64 - 1 && 2 * v % TWO_64 == 2 * v + TWO_64;
      XorOnes(2 * v + TWO_64, 64);
    }
  }

  /** and a negated low bit is zero or all ones. */
  lemma UnZigZagIsXor(u: nat)
    requires u < TWO_64
    ensures UnZigZag(u) % TWO_64 == BitXor(u / 2, (0 - u % 2) % TWO_64)
  {
    hide BitXor, Pow2;
    Pow2Of64();
    if u % 2 == 0 {
      XorZero(u / 2);
    } else {
      assert UnZigZag(u) % TWO_64 == TWO_64 - 1 - u / 2;
      XorOnes(u / 2, 64);
    }
  }

  /** The source's word operations: shift left, xor with the sign spread by an
      arithmetic shift right; and back. */
  function WordZigZag(w: bv64): bv64 {
    (w << 1) ^ (if w >> 63 == 1 then 0xffff_ffff_ffff_ffff else 0)
  }

  function WordUnZigZag(u: bv64): bv64 {
    (u >> 1) ^ (0 - (u & 1))
  }

  /** In two's complement they are doubling, and doubling the negated word minus one; */
  lemma WordsDouble(w: bv64)
    ensures w < 0x8000_0000_0000_0000 ==> WordZigZag(w) == w + w
    ensures w >= 0x8000_0000_0000_0000 ==> WordZigZag(w) == (0 - w) + (0 - w) - 1
  {
  }

  /** a half, and a negated half minus one; */
  lemma WordsHalve(u: bv64)
    ensures u & 1 == 0 ==> WordUnZigZag(u) == u >> 1
    ensures u & 1 == 1 ==> WordUnZigZag(u) == 0 - (u >> 1) - 1
  {
  }

  lemma UndoDoubled(w: bv64)
    ensures w < 0x8000_0000_0000_0000 ==> WordUnZigZag(w << 1) == w
    ensures w >= 0x8000_0000_0000_0000 ==> WordUnZigZag((w << 1) ^ 0xffff_ffff_ffff_ffff) == w
  {
  }

  /** and they are inverse on words. */
  lemma WordsInverse(w: bv64)
    ensures WordUnZigZag(WordZigZag(w)) == w
  {
    hide WordUnZigZag;
    UndoDoubled(w);
    if w < 0x8000_0000_0000_0000 {
      assert w >> 63 == 0;
      assert WordZigZag(w) == w << 1;
    } else {
      assert w >> 63 == 1;
    }
  }

  lemma ZigZagInverse(v: Int64)
    ensures ZigZag(v) < TWO_64 && UnZigZag(ZigZag(v)) == v
  {
  }

  /** Seven bits per byte, lowest first, high bit set while more follow; the
      ninth byte carries eight bits. `k` bytes have been written already. */
  function Leb(u: nat, k: nat): (bs: seq<Byte>)
    requires k <= 8 && (k == 8 ==> u < 256)
    requires k < 8 ==> u < Cap(k)
    ensures 1 <= |bs| <= 9 - k
    decreases 8 - k
  {
    if k == 8 then [u]
    else if u < 128 then [u]
    else
      CapStep(k);
      [u % 128 + 128] + Leb(u / 128, k + 1)
  }

  /** 2^(64 - 7k): what is left after k bytes. */
  function Cap(k: nat): nat
    requires k <= 8
    decreases 8 - k
  {
    if k == 8 then 256 else 128 * Cap(k + 1)
  }

  lemma CapStep(k: nat)
    requires k < 8
    ensures Cap(k) == 128 * Cap(k + 1)
  {
  }

  lemma CapLast()
    ensures Cap(8) == 256
  {
  }

  lemma CapZero()
    ensures Cap(0) == TWO_64
  {
    assert Cap(8) == 256 && Cap(7) == 128 * 256;
    assert Cap(4) == 128 * 128 * 128 * 128 * 256;
    assert Cap(0) == 128 * 128 * 128 * 128 * Cap(4);
  }

  function Pow128(n: nat): (r: nat)
    ensures r > 0
  {
    if n == 0 then 1 else 128 * Pow128(n - 1)
  }

  /** The bytes are the number's digits in base 128, lowest first and without leading
      zeros, each but the last with its high bit set. */
  lemma {:induction false} LebDigits(u: nat, k: nat, j: nat)
    requires k <= 8 && u < Cap(k) && j < |Leb(u, k)|
    ensures var bs := Leb(u, k);
      && bs[j] == (if j < |bs| - 1 then u / Pow128(j) % 128 + 128 else u / Pow128(j))
      && (j > 0 ==> u / Pow128(j) > 0)
      && (k + |bs| < 9 ==> bs[|bs| - 1] < 128)
    decreases 8 - k
  {
    hide Leb, Cap, Pow128;
    PowNext(if j > 0 then j - 1 else 0);
    if k == 8 || u / 128 == 0 {
      LastByte(u, k);
    } else {
      MoreBytes(u, k);
      LebDigits(u / 128, k + 1, if j > 0 then j - 1 else 0);
      if j > 0 { Quotients(u, Pow128(j - 1)); }
    }
  }

  lemma PowNext(n: nat)
    ensures Pow128(0) == 1 && Pow128(n + 1) == 128 * Pow128(n)
  {
  }

  lemma Quotients(u: nat, p: nat)
    requires p > 0
    ensures u / 128 / p == u / (128 * p)
  {
    var q := u / 128;
    DivMod(q, p);
    DivMod(u, 128);
    QuotientNat(q, p);
    MulAssoc(q / p, 128, p);
    assert 0 <= 128 * (q % p) + u % 128 < 128 * p;
    DivModUnique(u, 128 * p, q / p, 128 * (q % p) + u % 128);
  }

  /** Reads one number, and how many bytes it took. */
  function UnLeb(bs: seq<Byte>, k: nat): (r: (nat, nat))
    requires k <= 8 && |bs| >= 9 - k
    ensures 1 <= r.1 <= 9 - k
    decreases 8 - k
  {
    if k == 8 || bs[0] < 128 then (bs[0], 1)
    else
      var (u, n) := UnLeb(bs[1..], k + 1);
      (bs[0] - 128 + 128 * u, n + 1)
  }

  /** Whatever the bytes, the number read has them as its base-128 digits, up to the first
      without a high bit or the ninth. */
  lemma {:induction false} UnLebDigits(bs: seq<Byte>, k: nat, j: nat)
    requires k <= 8 && |bs| >= 9 - k && j < UnLeb(bs, k).1
    ensures var (u, n) := UnLeb(bs, k);
      if j < n - 1 then bs[j] >= 128 && u / Pow128(j) % 128 == bs[j] - 128
      else u / Pow128(j) == bs[j] && (bs[j] < 128 || k + n == 9)
    decreases 8 - k
  {
    hide Pow128;
    PowNext(if j > 0 then j - 1 else 0);
    if k < 8 && bs[0] >= 128 {
      var (u, n) := UnLeb(bs[1..], k + 1);
      DivModUnique(bs[0] - 128 + 128 * u, 128, u, bs[0] - 128);
      if j > 0 {
        UnLebDigits(bs[1..], k + 1, j - 1);
        Quotients(bs[0] - 128 + 128 * u, Pow128(j - 1));
      }
    }
  }

  /** Whatever bytes follow, decoding gives the number back and its exact length. */
  lemma {:induction false} LebRoundTrip(u: nat, k: nat, rest: seq<Byte>)
    requires k <= 8 && u < Cap(k) && |Leb(u, k)| + |rest| >= 9 - k
    ensures UnLeb(Leb(u, k) + rest, k) == (u, |Leb(u, k)|)
    decreases 8 - k
  {
    hide Leb, UnLeb, Cap;
    if k == 8 || u / 128 == 0 {
      LastByte(u, k);
      ReadLast(u, k, rest);
    } else {
      MoreBytes(u, k);
      CapLast();
      LebRoundTrip(u / 128, k + 1, rest);
      ReadMore(u % 128 + 128, Leb(u / 128, k + 1) + rest, k);
      assert [u % 128 + 128] + Leb(u / 128, k + 1) + rest == [u % 128 + 128] + (Leb(u / 128, k + 1) + rest);
    }
  }

  lemma ReadLast(b: Byte, k: nat, rest: seq<Byte>)
    requires k <= 8 && (k == 8 || b < 128) && 1 + |rest| >= 9 - k
    ensures UnLeb([b] + rest, k) == (b, 1)
  {
  }

  lemma ReadMore(b: Byte, more: seq<Byte>, k: nat)
    requires k < 8 && b >= 128 && |more| >= 8 - k
    ensures UnLeb([b] + more, k) == (b - 128 + 128 * UnLeb(more, k + 1).0, UnLeb(more, k + 1).1 + 1)
  {
    assert ([b] + more)[1..] == more;
  }

  lemma RoundTrip(v: Int64, rest: seq<Byte>)
    requires |Encoded(v)| + |rest| >= 9
    ensures Decoded(Encoded(v) + rest) == (v, |Encoded(v)|)
  {
    ZigZagInverse(v);
    CapZero();
    LebRoundTrip(ZigZag(v), 0, rest);
  }

  function Encoded(v: Int64): (bs: seq<Byte>)
    ensures 1 <= |bs| <= 9
  {
    CapZero();
    Leb(ZigZag(v), 0)
  }

  function Decoded(bs: seq<Byte>): (r: (int, nat))
    requires |bs| >= 9
    ensures 1 <= r.1 <= 9
  {
    var (u, n) := UnLeb(bs, 0);
    (UnZigZag(u), n)
  }

  // ----- the byte-by-byte code; its nine nested levels are one method each way -----

  /** Writes what is left of a number after k bytes; returns the bytes written. */
  method EncodeFrom(buffer: array<Byte>, at: nat, u: nat, k: nat) returns (n: nat)
    requires k <= 8 && u < Cap(k) && at + |Leb(u, k)| <= buffer.Length
    modifies buffer
    ensures n == |Leb(u, k)|
    ensures buffer[at..at + n] == Leb(u, k)
    ensures forall i :: 0 <= i < buffer.Length && !(at <= i < at + n) ==> buffer[i] == old(buffer[i])
    decreases 8 - k
  {
    hide Cap, Leb;
    if k == 8 || u / 128 == 0 {
      LastByte(u, k);
      buffer[at] := u;
      n := 1;
    } else {
      MoreBytes(u, k);
      buffer[at] := u % 128 + 128;
      var m := EncodeFrom(buffer, at + 1, u / 128, k + 1);
      n := m + 1;
      assert buffer[at..at + n] == [buffer[at]] + buffer[at + 1..at + 1 + m];
    }
  }

  lemma LastByte(u: nat, k: nat)
    requires k <= 8 && u < Cap(k) && (k == 8 || u / 128 == 0)
    ensures u < 256 && Leb(u, k) == [u]
  {
  }

  lemma MoreBytes(u: nat, k: nat)
    requires k < 8 && u < Cap(k) && u / 128 != 0
    ensures 0 < u / 128 < Cap(k + 1) && 128 <= u % 128 + 128 < 256
    ensures Leb(u, k) == [u % 128 + 128] + Leb(u / 128, k + 1)
  {
    CapStep(k);
  }

  method Encode(buffer: array<Byte>, at: nat, v: Int64) returns (n: nat)
    requires at + |Encoded(v)| <= buffer.Length
    modifies buffer
    ensures n == |Encoded(v)|
    ensures buffer[at..at + n] == Encoded(v)
    ensures forall i :: 0 <= i < buffer.Length && !(at <= i < at + n) ==> buffer[i] == old(buffer[i])
  {
    CapZero();
    n := EncodeFrom(buffer, at, ZigZag(v), 0);
  }

  /** Reads the bytes of a number from position k on. */
  method DecodeFrom(buffer: array<Byte>, at: nat, k: nat) returns (u: nat, n: nat)
    requires k <= 8 && at + 9 - k <= buffer.Length
    ensures (u, n) == UnLeb(buffer[at..at + 9 - k], k)
    decreases 8 - k
  {
    if k == 8 || buffer[at] < 128 {
      return buffer[at], 1;
    }
    var hi, m := DecodeFrom(buffer, at + 1, k + 1);
    assert buffer[at..at + 9 - k][1..] == buffer[at + 1..at + 9 - k];
    return buffer[at] - 128 + 128 * hi, m + 1;
  }

  method Decode(buffer: array<Byte>, at: nat) returns (v: int, n: nat)
    requires at + 9 <= buffer.Length
    ensures (v, n) == Decoded(buffer[at..at + 9])
  {
    var u, m := DecodeFrom(buffer, at, 0);
    return UnZigZag(u), m;
  }
}

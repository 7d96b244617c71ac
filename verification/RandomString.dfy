/** Random strings: twenty-four characters at a time in three 64-bit words, or one
    at a time, from seeds below 36^12. */
module RandomString {
  import opened Bits

  // ----- eight characters in a word -----

  /** The character of a digit below 36: 0-9, then a-z. */
  function Alnum(b: bv64): bv64 {
    if b < 10 then b + 0x30 else b + 0x57
  }

  const ALPHABET := "0123456789abcdefghijklmnopqrstuvwxyz"

  /** A character code as a word. */
  ghost function Code(n: nat): bv64 {
    if n == 0 then 0
    else
      var h := Code(n / 2);
      if n % 2 == 0 then h + h else h + h + 1
  }

  /** The word-parallel form, on eight digits at once. */
  function RawToAlphanum(raw: bv64): bv64 {
    var n := raw + 0x3636_3636_3636_3636;
    var x := (n >> 6) & 0x0101_0101_0101_0101;
    var y := (x + 0x7f7f_7f7f_7f7f_7f7f) & 0x7a7a_7a7a_7a7a_7a7a;
    var x' := x | (x << 5);
    (n + (x' + y)) & 0x7f7f_7f7f_7f7f_7f7f
  }

  type LaneIndex = k: nat | k < 8

  /** Byte k of a word, as it lands in memory. */
  function Lane(n: bv64, k: LaneIndex): bv64 {
    match k
    case 0 => n & 0xff
    case 1 => (n >> 8) & 0xff
    case 2 => (n >> 16) & 0xff
    case 3 => (n >> 24) & 0xff
    case 4 => (n >> 32) & 0xff
    case 5 => (n >> 40) & 0xff
    case 6 => (n >> 48) & 0xff
    case _ => (n >> 56) & 0xff
  }

  function ToLane(d: bv64, k: LaneIndex): bv64 {
    match k
    case 0 => d
    case 1 => d << 8
    case 2 => d << 16
    case 3 => d << 24
    case 4 => d << 32
    case 5 => d << 40
    case 6 => d << 48
    case _ => d << 56
  }

  ghost predicate Digits(n: bv64) {
    forall k: LaneIndex :: Lane(n, k) < 36
  }

  /** Digits below 36 leave two bits of room in every byte: no carry crosses. */
  lemma NoCarry(n: bv64)
    requires Digits(n)
    ensures n & 0xc0c0_c0c0_c0c0_c0c0 == 0
  {
    assert Lane(n, 0) < 36 && Lane(n, 1) < 36 && Lane(n, 2) < 36 && Lane(n, 3) < 36;
    assert Lane(n, 4) < 36 && Lane(n, 5) < 36 && Lane(n, 6) < 36 && Lane(n, 7) < 36;
  }

  /** Each byte of the word-parallel form is the one-character form of its digit. */
  lemma AlphanumBytes(n: bv64)
    requires n & 0xc0c0_c0c0_c0c0_c0c0 == 0
    ensures n & 0xff < 36 ==> RawToAlphanum(n) & 0xff == Alnum(n & 0xff)
    ensures (n >> 8) & 0xff < 36 ==> (RawToAlphanum(n) >> 8) & 0xff == Alnum((n >> 8) & 0xff)
    ensures (n >> 16) & 0xff < 36 ==> (RawToAlphanum(n) >> 16) & 0xff == Alnum((n >> 16) & 0xff)
    ensures (n >> 24) & 0xff < 36 ==> (RawToAlphanum(n) >> 24) & 0xff == Alnum((n >> 24) & 0xff)
    ensures (n >> 32) & 0xff < 36 ==> (RawToAlphanum(n) >> 32) & 0xff == Alnum((n >> 32) & 0xff)
    ensures (n >> 40) & 0xff < 36 ==> (RawToAlphanum(n) >> 40) & 0xff == Alnum((n >> 40) & 0xff)
    ensures (n >> 48) & 0xff < 36 ==> (RawToAlphanum(n) >> 48) & 0xff == Alnum((n >> 48) & 0xff)
    ensures (n >> 56) & 0xff < 36 ==> (RawToAlphanum(n) >> 56) & 0xff == Alnum((n >> 56) & 0xff)
  {
  }

  lemma AlphanumLane(n: bv64, k: LaneIndex)
    requires Digits(n)
    ensures Lane(RawToAlphanum(n), k) == Alnum(Lane(n, k))
  {
    hide RawToAlphanum, Alnum;
    NoCarry(n);
    AlphanumBytes(n);
    assert Lane(n, k) < 36;
  }

  lemma OrBytes(a: bv64, b: bv64)
    ensures (a | b) & 0xff == (a & 0xff) | (b & 0xff)
    ensures ((a | b) >> 8) & 0xff == ((a >> 8) & 0xff) | ((b >> 8) & 0xff)
    ensures ((a | b) >> 16) & 0xff == ((a >> 16) & 0xff) | ((b >> 16) & 0xff)
    ensures ((a | b) >> 24) & 0xff == ((a >> 24) & 0xff) | ((b >> 24) & 0xff)
    ensures ((a | b) >> 32) & 0xff == ((a >> 32) & 0xff) | ((b >> 32) & 0xff)
    ensures ((a | b) >> 40) & 0xff == ((a >> 40) & 0xff) | ((b >> 40) & 0xff)
    ensures ((a | b) >> 48) & 0xff == ((a >> 48) & 0xff) | ((b >> 48) & 0xff)
    ensures ((a | b) >> 56) & 0xff == ((a >> 56) & 0xff) | ((b >> 56) & 0xff)
  {
  }

  /** A digit moved to byte k is zero elsewhere. */
  lemma OnlyLane(d: bv64, k: LaneIndex)
    requires d < 36
    ensures Lane(ToLane(d, k), k) == d
    ensures k != 0 ==> ToLane(d, k) & 0xff == 0
    ensures k != 1 ==> (ToLane(d, k) >> 8) & 0xff == 0
    ensures k != 2 ==> (ToLane(d, k) >> 16) & 0xff == 0
    ensures k != 3 ==> (ToLane(d, k) >> 24) & 0xff == 0
    ensures k != 4 ==> (ToLane(d, k) >> 32) & 0xff == 0
    ensures k != 5 ==> (ToLane(d, k) >> 40) & 0xff == 0
    ensures k != 6 ==> (ToLane(d, k) >> 48) & 0xff == 0
    ensures k != 7 ==> (ToLane(d, k) >> 56) & 0xff == 0
  {
    match k
    case 0 =>
    case 1 =>
    case 2 =>
    case 3 =>
    case 4 =>
    case 5 =>
    case 6 =>
    case _ =>
  }

  lemma LaneOfOr(a: bv64, b: bv64, j: LaneIndex)
    ensures Lane(a | b, j) == Lane(a, j) | Lane(b, j)
  {
    OrBytes(a, b);
    match j
    case 0 =>
    case 1 =>
    case 2 =>
    case 3 =>
    case 4 =>
    case 5 =>
    case 6 =>
    case _ =>
  }

  lemma OtherLane(d: bv64, k: LaneIndex, j: LaneIndex)
    requires d < 36 && j != k
    ensures Lane(ToLane(d, k), j) == 0
  {
    hide ToLane;
    OnlyLane(d, k);
    match j
    case 0 =>
    case 1 =>
    case 2 =>
    case 3 =>
    case 4 =>
    case 5 =>
    case 6 =>
    case _ =>
  }

  lemma OrLane(n: bv64, d: bv64, k: LaneIndex, j: LaneIndex)
    requires Lane(n, k) == 0 && d < 36
    ensures Lane(n | ToLane(d, k), j) == if j == k then d else Lane(n, j)
  {
    hide ToLane, Lane;
    LaneOfOr(n, ToLane(d, k), j);
    if j == k { OnlyLane(d, k); } else { OtherLane(d, k, j); }
  }

  /** Or-ing a digit into byte k. */
  function Put(n: bv64, d: bv64, k: LaneIndex): bv64 {
    n | ToLane(d, k)
  }

  /** Into an empty byte, it changes that byte alone. */
  lemma PutLane(n: bv64, d: bv64, k: LaneIndex, j: LaneIndex)
    requires Lane(n, k) == 0 && d < 36
    ensures Lane(Put(n, d, k), j) == if j == k then d else Lane(n, j)
  {
    hide ToLane, Lane;
    OrLane(n, d, k, j);
  }

  // ----- digits of a seed -----

  function Shifted(s: nat, k: nat): nat {
    if k == 0 then s else Shifted(s, k - 1) / 36
  }

  /** Base-36 digit k, the lowest first. */
  function DigitAt(s: nat, k: nat): (d: nat)
    ensures d < 36
  {
    Shifted(s, k) % 36
  }

  function Word(d: nat): (w: bv64)
    requires d < 36
    ensures w < 36
  {
    SmallWord(d);
    (d as bv6) as bv64
  }

  lemma SmallWord(d: nat)
    requires d < 36
    ensures ((d as bv6) as bv64) < 36
  {
  }

  /** Digit d is the d-th character of the alphabet. */
  lemma {:induction false} AlnumIs(d: nat)
    requires d < 36
    ensures |ALPHABET| == 36 && Alnum(Word(d)) == Code(ALPHABET[d] as nat)
  {
    hide Word, Code;
    AlphabetAt(d);
    if d == 0 {
      ZeroAndNine(0);
      FirstCodes();
    } else {
      AlphabetAt(d - 1);
      AlnumIs(d - 1);
      NextWord(d - 1);
      ZeroAndNine(d - 1);
      if d == 10 { FirstCodes(); } else { NextCode(ALPHABET[d - 1] as nat); }
    }
  }

  lemma AlphabetAt(d: nat)
    requires d < 36
    ensures ALPHABET[d] as nat == if d < 10 then 48 + d else 97 + (d - 10)
  {
  }

  lemma {:induction false} NextCode(n: nat)
    ensures Code(n + 1) == Code(n) + 1
  {
    if n % 2 == 1 { NextCode(n / 2); }
  }

  lemma FirstCodes()
    ensures Code(48) == 0x30 && Code(97) == 0x61
  {
    assert Code(1) == 1 && Code(3) == 3;
    assert Code(6) == 6 && Code(12) == 12 && Code(24) == 24;
  }

  lemma NextWord(d: nat)
    requires d < 35
    ensures Word(d + 1) == Word(d) + 1
  {
    NextSix(d);
    Widened(d as bv6);
  }

  lemma NextSix(d: nat)
    requires d < 35
    ensures (d + 1) as bv6 == d as bv6 + 1 && d as bv6 < 63
  {
  }

  lemma Widened(x: bv6)
    requires x < 63
    ensures (x + 1) as bv64 == x as bv64 + 1
  {
  }

  lemma ZeroAndNine(d: nat)
    requires d < 36
    ensures (d == 0 ==> Word(d) == 0) && (Word(d) == 9 <==> d == 9)
  {
  }

  /** The first |ds| bytes hold these digits, the others are empty. */
  ghost predicate Packed(c: bv64, ds: seq<nat>) {
    && |ds| <= 8
    && (forall j: LaneIndex :: j < |ds| ==> ds[j] < 36 && Lane(c, j) == Word(ds[j]))
    && (forall j: LaneIndex :: j >= |ds| ==> Lane(c, j) == 0)
  }

  lemma PackFirst(d: nat)
    requires d < 36
    ensures Packed(Word(d), [d])
  {
    hide Word;
    var w := Word(d);
    OnlyLane(w, 0);
    forall j: LaneIndex | j > 0
      ensures Lane(w, j) == 0
    {
      OtherLane(w, 0, j);
    }
  }

  lemma PackNext(c: bv64, ds: seq<nat>, d: nat)
    requires Packed(c, ds) && |ds| < 8 && d < 36
    ensures Packed(Put(c, Word(d), |ds|), ds + [d])
  {
    hide Word, Lane, Put;
    var c', ds' := Put(c, Word(d), |ds|), ds + [d];
    forall j: LaneIndex
      ensures j < |ds'| ==> ds'[j] < 36 && Lane(c', j) == Word(ds'[j])
      ensures j >= |ds'| ==> Lane(c', j) == 0
    {
      PutLane(c, Word(d), |ds|, j);
    }
  }

  /** A full word in memory: the characters of its digits. */
  lemma PackedChars(c: bv64, ds: seq<nat>, j: LaneIndex)
    requires Packed(c, ds) && |ds| == 8
    ensures ds[j] < 36 && Lane(RawToAlphanum(c), j) == Alnum(Word(ds[j]))
  {
    hide Word, Lane, RawToAlphanum, Alnum;
    forall k: LaneIndex
      ensures Lane(c, k) < 36
    {
      assert Lane(c, k) == Word(ds[k]);
    }
    AlphanumLane(c, j);
  }

  /** Digits k, k+1, ..., of a seed. */
  function DigitsFrom(s: nat, k: nat, n: nat): (r: seq<nat>)
    ensures |r| == n && forall i :: 0 <= i < n ==> r[i] == DigitAt(s, k + i)
  {
    seq<nat>(n, i requires 0 <= i => DigitAt(s, k + i))
  }

  lemma DigitsNext(s: nat, k: nat, n: nat)
    ensures DigitsFrom(s, k, n + 1) == DigitsFrom(s, k, n) + [DigitAt(s, k + n)]
  {
  }

  /** Twenty-four digits of two seeds in three words. */
  method PackWords(seed1: nat, seed2: nat) returns (c1: bv64, c2: bv64, c3: bv64)
    ensures Packed(c1, DigitsFrom(seed1, 0, 8))
    ensures Packed(c2, DigitsFrom(seed1, 8, 4) + DigitsFrom(seed2, 0, 4))
    ensures Packed(c3, DigitsFrom(seed2, 4, 8))
  {
    hide Packed, Word, Put, DigitsFrom;
    var s1, s2 := seed1, seed2;
    c1, s1 := PackEight(s1, 0, seed1);
    s1 := s1 / 36;
    c2 := Word(s1 % 36);
    PackFirst(s1 % 36);
    OneDigit(seed1, 8);
    for k := 1 to 4
      invariant s1 == Shifted(seed1, 7 + k)
      invariant Packed(c2, DigitsFrom(seed1, 8, k))
    {
      s1 := s1 / 36;
      PackNext(c2, DigitsFrom(seed1, 8, k), s1 % 36);
      DigitsNext(seed1, 8, k);
      c2 := Put(c2, Word(s1 % 36), k);
    }
    NoDigits(seed2, DigitsFrom(seed1, 8, 4));
    for k := 4 to 8
      invariant s2 == Shifted(seed2, k - 4)
      invariant Packed(c2, DigitsFrom(seed1, 8, 4) + DigitsFrom(seed2, 0, k - 4))
    {
      PackNext(c2, DigitsFrom(seed1, 8, 4) + DigitsFrom(seed2, 0, k - 4), s2 % 36);
      MoreDigits(DigitsFrom(seed1, 8, 4), seed2, k - 4);
      c2 := Put(c2, Word(s2 % 36), k);
      s2 := s2 / 36;
    }
    c3, s2 := PackEight(s2, 4, seed2);
  }

  /** One word from eight consecutive digits, the seed divided along the way. */
  method PackEight(s: nat, k0: nat, seed: nat) returns (c: bv64, s': nat)
    requires s == Shifted(seed, k0)
    ensures Packed(c, DigitsFrom(seed, k0, 8)) && s' == Shifted(seed, k0 + 7)
  {
    hide Packed, Word, Put, DigitsFrom;
    s' := s;
    c := Word(s' % 36);
    PackFirst(s' % 36);
    OneDigit(seed, k0);
    for k := 1 to 8
      invariant s' == Shifted(seed, k0 + k - 1)
      invariant Packed(c, DigitsFrom(seed, k0, k))
    {
      s' := s' / 36;
      PackNext(c, DigitsFrom(seed, k0, k), s' % 36);
      DigitsNext(seed, k0, k);
      c := Put(c, Word(s' % 36), k);
    }
  }

  lemma OneDigit(s: nat, k: nat)
    ensures DigitsFrom(s, k, 1) == [DigitAt(s, k)]
  {
  }

  lemma NoDigits(s: nat, ds: seq<nat>)
    ensures ds + DigitsFrom(s, 0, 0) == ds
  {
  }

  lemma MoreDigits(ds: seq<nat>, s: nat, n: nat)
    ensures ds + DigitsFrom(s, 0, n) + [DigitAt(s, n)] == ds + DigitsFrom(s, 0, n + 1)
  {
    DigitsNext(s, 0, n);
  }

  // ----- the string -----

  /** The one-character-at-a-time form: the character of digit k. */
  function Glyph(s: nat, k: nat): bv64 {
    Alnum(Word(DigitAt(s, k)))
  }

  /** What the string holds at p: digit p mod 12 of seed p / 12. */
  function CharAt(seeds: seq<nat>, p: nat): bv64
    requires p / 12 < |seeds|
  {
    Glyph(seeds[p / 12], p % 12)
  }

  /** The byte of three consecutive words at offset q. */
  function ByteOf(w1: bv64, w2: bv64, w3: bv64, q: nat): bv64
    requires q < 24
  {
    if q < 8 then Lane(w1, q) else if q < 16 then Lane(w2, q - 8) else Lane(w3, q - 16)
  }

  /** Twenty-four characters in three words are the characters of the two seeds. */
  lemma BlockChars(c1: bv64, c2: bv64, c3: bv64, seed1: nat, seed2: nat, q: nat)
    requires Packed(c1, DigitsFrom(seed1, 0, 8))
    requires Packed(c2, DigitsFrom(seed1, 8, 4) + DigitsFrom(seed2, 0, 4))
    requires Packed(c3, DigitsFrom(seed2, 4, 8))
    requires q < 24
    ensures ByteOf(RawToAlphanum(c1), RawToAlphanum(c2), RawToAlphanum(c3), q) ==
      if q < 12 then Glyph(seed1, q) else Glyph(seed2, q - 12)
  {
    hide Packed, RawToAlphanum, Lane, Word, DigitAt, Alnum;
    if q < 8 {
      PackedChars(c1, DigitsFrom(seed1, 0, 8), q);
    } else if q < 16 {
      PackedChars(c2, DigitsFrom(seed1, 8, 4) + DigitsFrom(seed2, 0, 4), q - 8);
    } else {
      PackedChars(c3, DigitsFrom(seed2, 4, 8), q - 16);
    }
  }

  method StoreWord(buf: array<bv64>, i: nat, w: bv64)
    requires i + 8 <= buf.Length
    modifies buf
    ensures forall j: LaneIndex :: buf[i + j] == Lane(w, j)
    ensures forall p :: 0 <= p < buf.Length && !(i <= p < i + 8) ==> buf[p] == old(buf[p])
  {
    hide Lane;
    for k := 0 to 8
      invariant forall j: LaneIndex :: j < k ==> buf[i + j] == Lane(w, j)
      invariant forall p :: 0 <= p < buf.Length && !(i <= p < i + k) ==> buf[p] == old(buf[p])
    {
      buf[i + k] := Lane(w, k);
    }
  }

  ghost predicate Filled(buf: seq<bv64>, seeds: seq<nat>, n: nat) {
    n <= |buf| && forall p: nat :: p < n ==> p / 12 < |seeds| && buf[p] == CharAt(seeds, p)
  }

  /** One more run of characters from seed b, starting at position 12 * b. */
  lemma FilledMore(before: seq<bv64>, after: seq<bv64>, seeds: seq<nat>, b: nat, run: seq<bv64>)
    requires Filled(before, seeds, 12 * b) && |run| <= 12 && 12 * b + |run| <= |after| && b < |seeds|
    requires after[..12 * b] == before[..12 * b] && after[12 * b..12 * b + |run|] == run
    requires forall q :: 0 <= q < |run| ==> run[q] == Glyph(seeds[b], q)
    ensures Filled(after, seeds, 12 * b + |run|)
  {
    hide Glyph;
    forall p: nat | p < 12 * b + |run|
      ensures p / 12 < |seeds| && after[p] == CharAt(seeds, p)
    {
      if p < 12 * b {
        assert after[p] == after[..12 * b][p] == before[p];
      } else {
        var q := p - 12 * b;
        assert p / 12 == b && p % 12 == q;
        assert after[p] == run[q];
      }
    }
  }

  lemma FilledBlock(before: seq<bv64>, after: seq<bv64>, seeds: seq<nat>, b: nat, run: seq<bv64>)
    requires Filled(before, seeds, 12 * b) && |run| == 24 && 12 * b + 24 <= |after| && b + 1 < |seeds|
    requires after[..12 * b] == before[..12 * b] && after[12 * b..12 * b + 24] == run
    requires forall q :: 0 <= q < 24 ==> run[q] == if q < 12 then Glyph(seeds[b], q) else Glyph(seeds[b + 1], q - 12)
    ensures Filled(after, seeds, 12 * b + 24)
  {
    hide Filled, Glyph;
    FilledMore(before, after, seeds, b, run[..12]);
    assert after[12 * (b + 1)..12 * (b + 1) + 12] == run[12..];
    FilledMore(after, after, seeds, b + 1, run[12..]);
  }

  /** Bytes allocated for a string and its terminator, in 32 bits. */
  function BufferSize(length: nat): nat {
    Wrap32(length + 1)
  }

  /** Characters and terminator all land inside the buffer. */
  ghost predicate WritesInside(length: nat) {
    forall p: nat :: p <= length ==> InBuffer(p, length)
  }

  predicate InBuffer(p: nat, length: nat) {
    p < BufferSize(length)
  }

  /** They do for every length a spec can hold but the last. */
  lemma WritesInsideIff(length: nat)
    requires length < TWO_32
    ensures WritesInside(length) <==> length < TWO_32 - 1
  {
    if length < TWO_32 - 1 {
      assert BufferSize(length) == length + 1;
    } else {
      assert !InBuffer(0, length);
    }
  }

  /** The string generator: whatever mix of words and single characters it uses,
      position p gets digit p mod 12 of seed p / 12, and no seed is drawn twice.
      The result says whether every write was inside the buffer; writes outside it
      are not made. */
  method GenRandomStr(length: nat, seeds: seq<nat>) returns (buf: array<bv64>, used: nat, inside: bool)
    requires length < TWO_32 && length <= 12 * |seeds|
    ensures buf.Length == BufferSize(length)
    ensures inside <==> WritesInside(length)
    ensures inside ==> buf.Length == length + 1 && buf[length] == 0 && Filled(buf[..], seeds, length)
    ensures 12 * used < length + 12 && length <= 12 * used
  {
    hide Filled, Glyph, RawToAlphanum, Lane, Packed, DigitsFrom, Word, Alnum, Shifted, WritesInside;
    WritesInsideIff(length);
    buf := new bv64[BufferSize(length)];
    var i := 0;
    used, inside := 0, true;
    NothingFilled(buf[..], seeds);
    while i + 24 <= length
      invariant i == 12 * used && i <= length
      invariant inside <==> i == 0 || length < TWO_32 - 1
      invariant inside ==> Filled(buf[..], seeds, i)
    {
      inside := inside && i + 24 <= buf.Length;
      if inside {
        i, used := WordBlock(buf, i, used, length, seeds);
      } else {
        i, used := i + 24, used + 2;
      }
    }
    while i < length
      invariant i <= length && 12 * used < i + 12 && i <= 12 * used && (i < length ==> i == 12 * used)
      invariant inside <==> length < TWO_32 - 1
      invariant inside ==> Filled(buf[..], seeds, i)
    {
      var size := if length - i < 12 then length - i else 12;
      inside := inside && i + size <= buf.Length;
      if inside {
        i, used := CharBlock(buf, i, used, length, seeds);
      } else {
        i, used := i + size, used + 1;
      }
    }
    inside := inside && length < buf.Length;
    if inside {
      ghost var before := buf[..];
      buf[length] := 0;
      FilledKept(before, buf[..], seeds, length);
    }
  }

  /** The longest string a spec accepts: the size wraps to nothing. */
  lemma LongestHasNoBuffer()
    ensures BufferSize(TWO_32 - 1) == 0 && !WritesInside(TWO_32 - 1)
  {
    WritesInsideIff(TWO_32 - 1);
  }

  lemma NothingFilled(buf: seq<bv64>, seeds: seq<nat>)
    ensures Filled(buf, seeds, 0)
  {
  }

  lemma FilledKept(before: seq<bv64>, after: seq<bv64>, seeds: seq<nat>, n: nat)
    requires Filled(before, seeds, n) && n <= |after| && forall p :: 0 <= p < n ==> after[p] == before[p]
    ensures Filled(after, seeds, n)
  {
    hide CharAt;
  }

  /** Twenty-four characters from two seeds. */
  method WordBlock(buf: array<bv64>, i: nat, used: nat, length: nat, seeds: seq<nat>) returns (i': nat, used': nat)
    requires i == 12 * used && i + 24 <= length < buf.Length && length <= 12 * |seeds| && Filled(buf[..], seeds, i)
    modifies buf
    ensures i' == i + 24 && used' == used + 2 && Filled(buf[..], seeds, i')
  {
    hide Filled, Glyph, RawToAlphanum, Lane, Packed, DigitsFrom, Word, Alnum, Shifted;
    ghost var before := buf[..];
    var s1, s2 := seeds[used], seeds[used + 1];
    var c1, c2, c3 := PackWords(s1, s2);
    var w1, w2, w3 := RawToAlphanum(c1), RawToAlphanum(c2), RawToAlphanum(c3);
    StoreWord(buf, i, w1);
    StoreWord(buf, i + 8, w2);
    StoreWord(buf, i + 16, w3);
    var run := buf[i..i + 24];
    forall q | 0 <= q < 24
      ensures run[q] == if q < 12 then Glyph(s1, q) else Glyph(s2, q - 12)
    {
      BlockChars(c1, c2, c3, s1, s2, q);
      BytesStored(buf, i, w1, w2, w3, q);
    }
    FilledBlock(before, buf[..], seeds, used, run);
    i', used' := i + 24, used + 2;
  }

  lemma BytesStored(buf: array<bv64>, i: nat, w1: bv64, w2: bv64, w3: bv64, q: nat)
    requires i + 24 <= buf.Length && q < 24
    requires forall j: LaneIndex :: buf[i + j] == Lane(w1, j)
    requires forall j: LaneIndex :: buf[i + 8 + j] == Lane(w2, j)
    requires forall j: LaneIndex :: buf[i + 16 + j] == Lane(w3, j)
    ensures buf[i + q] == ByteOf(w1, w2, w3, q)
  {
    hide Lane;
    if q < 8 {
      var j: LaneIndex := q;
      assert buf[i + j] == Lane(w1, j);
    } else if q < 16 {
      var j: LaneIndex := q - 8;
      assert buf[i + 8 + j] == Lane(w2, j);
    } else {
      var j: LaneIndex := q - 16;
      assert buf[i + 16 + j] == Lane(w3, j);
    }
  }

  /** Up to twelve characters from one seed, one at a time. */
  method CharBlock(buf: array<bv64>, i: nat, used: nat, length: nat, seeds: seq<nat>) returns (i': nat, used': nat)
    requires i == 12 * used && i < length < buf.Length && length <= 12 * |seeds| && Filled(buf[..], seeds, i)
    modifies buf
    ensures i' == (if length - i < 12 then length else i + 12) && used' == used + 1 && Filled(buf[..], seeds, i')
  {
    hide Filled, Word, Alnum, Shifted;
    ghost var before := buf[..];
    var seed := seeds[used];
    var size := if length - i < 12 then length - i else 12;
    var s := seed;
    FirstDigit(seed);
    buf[i] := Alnum(Word(s % 36));
    for j := 1 to size
      invariant s == Shifted(seed, j - 1)
      invariant forall p :: 0 <= p < i ==> buf[p] == before[p]
      invariant forall q :: 0 <= q < j ==> buf[i + q] == Glyph(seed, q)
    {
      NextShift(seed, j);
      s := s / 36;
      buf[i + j] := Alnum(Word(s % 36));
    }
    FilledMore(before, buf[..], seeds, used, buf[i..i + size]);
    i', used' := i + size, used + 1;
  }

  lemma FirstDigit(s: nat)
    ensures Shifted(s, 0) == s
  {
  }

  lemma NextShift(s: nat, k: nat)
    requires k > 0
    ensures Shifted(s, k) == Shifted(s, k - 1) / 36
  {
  }
}

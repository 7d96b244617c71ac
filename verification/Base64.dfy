/** Base64 as the histogram log uses it. */
module Base64 {
  import opened Bits
  import opened ZigZag

  type Sextet = v: int | 0 <= v < 64

  /** The encoding table. */
  function Symbol(v: Sextet): char {
    if v < 26 then 'A' + v as char
    else if v < 52 then 'a' + (v - 26) as char
    else if v < 62 then '0' + (v - 52) as char
    else if v == 62 then '+'
    else '/'
  }

  /** Decoding one character; the padding counts as zero, and the error code 22 that
      anything else gives is used as a value. */
  function Value(c: char): Sextet {
    if 'A' <= c <= 'Z' then c as int - 'A' as int
    else if 'a' <= c <= 'z' then c as int - 'a' as int + 26
    else if '0' <= c <= '9' then c as int - '0' as int + 52
    else if c == '+' then 62
    else if c == '/' then 63
    else if c == '=' then 0
    else 22
  }

  lemma ValueOfSymbol(v: Sextet)
    ensures Value(Symbol(v)) == v && Symbol(v) != '='
  {
  }

  type Word24 = v: int | 0 <= v < 0x100_0000

  function Group(v: Word24, shift: nat): Sextet
    requires shift in {1, 64, 4096, 262144}
  {
    v / shift % 64
  }

  /** Three bytes as four characters. */
  function Quad(a: Byte, b: Byte, c: Byte): (r: seq<char>)
    ensures |r| == 4
  {
    var v: Word24 := a * 65536 + b * 256 + c;
    [Symbol(Group(v, 262144)), Symbol(Group(v, 4096)), Symbol(Group(v, 64)), Symbol(Group(v, 1))]
  }

  /** One or two last bytes, padded. */
  function LastQuad(input: seq<Byte>): (r: seq<char>)
    requires 1 <= |input| <= 2
    ensures |r| == 4
  {
    if |input| == 2 then
      var a: int, b: int := input[0], input[1];
      var v: Word24 := a * 65536 + b * 256;
      [Symbol(Group(v, 262144)), Symbol(Group(v, 4096)), Symbol(Group(v, 64)), '=']
    else
      var a: int := input[0];
      var v: Word24 := a * 65536;
      [Symbol(Group(v, 262144)), Symbol(Group(v, 4096)), '=', '=']
  }

  function Encoded(input: seq<Byte>): (r: seq<char>)
    ensures |r| == EncodedLen(|input|)
  {
    if |input| == 0 then []
    else if |input| < 3 then LastQuad(input)
    else Quad(input[0], input[1], input[2]) + Encoded(input[3..])
  }

  /** Four characters for every three bytes begun. */
  function EncodedLen(n: nat): (r: nat)
    ensures r % 4 == 0
  {
    (n + 2) / 3 * 4
  }

  /** Four characters as three bytes. */
  function Triple(t: seq<char>): (r: seq<Byte>)
    requires |t| == 4
    ensures |r| == 3
  {
    var v: Word24 := Value(t[0]) * 262144 + Value(t[1]) * 4096 + Value(t[2]) * 64 + Value(t[3]);
    [v / 65536 % 256, v / 256 % 256, v % 256]
  }

  function Decoded(text: seq<char>): (r: seq<Byte>)
    requires |text| % 4 == 0
    ensures |r| == |text| / 4 * 3
  {
    if text == [] then [] else Triple(text[..4]) + Decoded(text[4..])
  }

  // ----- against the standard -----

  /** Byte i, zero past the end. */
  function At(input: seq<Byte>, i: nat): Byte {
    if i < |input| then input[i] else 0
  }

  /** The k-th group of six bits of the input as one string of bits, zero-extended. */
  function SixBits(input: seq<Byte>, k: nat): Sextet {
    var i := k / 4 * 3;
    if k % 4 == 0 then At(input, i) / 4
    else if k % 4 == 1 then At(input, i) % 4 * 16 + At(input, i + 1) / 16
    else if k % 4 == 2 then At(input, i + 1) % 16 * 4 + At(input, i + 2) / 64
    else At(input, i + 2) % 64
  }

  /** Groups that hold at least one input bit. */
  function Groups(n: nat): nat {
    (n * 8 + 5) / 6
  }

  lemma GroupIs(v: Word24, shift: nat, high: int, g: Sextet, low: int)
    requires shift in {1, 64, 4096, 262144} && 0 <= low < shift && v == (high * 64 + g) * shift + low
    ensures Group(v, shift) == g
  {
    DivModUnique(v, shift, high * 64 + g, low);
    DivModUnique(high * 64 + g, 64, high, g);
  }

  lemma QuadGroups(a: Byte, b: Byte, c: Byte)
    ensures var v: Word24 := a * 65536 + b * 256 + c;
      && Group(v, 262144) == a / 4 && Group(v, 4096) == a % 4 * 16 + b / 16
      && Group(v, 64) == b % 16 * 4 + c / 64 && Group(v, 1) == c % 64
  {
    hide Group;
    var v: Word24 := a * 65536 + b * 256 + c;
    GroupIs(v, 262144, 0, a / 4, a % 4 * 65536 + b * 256 + c);
    GroupIs(v, 4096, a / 4, a % 4 * 16 + b / 16, b % 16 * 256 + c);
    GroupIs(v, 64, a * 16 + b / 16, b % 16 * 4 + c / 64, c % 64);
    GroupIs(v, 1, a * 1024 + b * 4 + c / 64, c % 64, 0);
  }

  lemma SixBitsLater(input: seq<Byte>, k: nat)
    requires |input| >= 3 && k >= 4
    ensures SixBits(input, k) == SixBits(input[3..], k - 4)
  {
    assert (k - 4) / 4 == k / 4 - 1 && (k - 4) % 4 == k % 4;
    forall i: nat | i >= 3
      ensures At(input, i) == At(input[3..], i - 3)
    {
    }
  }

  /** The padded form of section 4 of RFC 4648: every group of six bits that holds
      input as its symbol, then padding to a multiple of four. */
  lemma {:induction false} EncodedIsStandard(input: seq<Byte>, k: nat)
    requires k < EncodedLen(|input|)
    ensures Encoded(input)[k] == if k < Groups(|input|) then Symbol(SixBits(input, k)) else '='
  {
    hide Quad, LastQuad, SixBits, Symbol;
    if |input| < 3 {
      LastGroups(input, k);
    } else if k < 4 {
      FirstGroups(input, k);
    } else {
      EncodedIsStandard(input[3..], k - 4);
      SixBitsLater(input, k);
      assert Encoded(input)[k] == Encoded(input[3..])[k - 4];
    }
  }

  lemma FirstGroups(input: seq<Byte>, k: nat)
    requires |input| >= 3 && k < 4
    ensures Quad(input[0], input[1], input[2])[k] == Symbol(SixBits(input, k))
  {
    hide Group, Symbol;
    QuadGroups(input[0], input[1], input[2]);
  }

  lemma LastGroups(input: seq<Byte>, k: nat)
    requires 1 <= |input| <= 2 && k < 4
    ensures LastQuad(input)[k] == if k < Groups(|input|) then Symbol(SixBits(input, k)) else '='
  {
    hide Group, Symbol;
    QuadGroups(input[0], At(input, 1), 0);
  }

  // ----- round trip -----

  function Zeros(n: nat): (r: seq<Byte>)
    ensures |r| == n && forall i :: 0 <= i < n ==> r[i] == 0
  {
    seq<Byte>(n, i => 0)
  }

  lemma SextetsBack(a: Byte, b: Byte, c: Byte)
    ensures var v: Word24 := (a / 4) * 262144 + (a % 4 * 16 + b / 16) * 4096 + (b % 16 * 4 + c / 64) * 64 + c % 64;
      v / 65536 % 256 == a && v / 256 % 256 == b && v % 256 == c
  {
    var v: Word24 := a * 65536 + b * 256 + c;
    DivModUnique(v, 65536, a, b * 256 + c);
    DivModUnique(v, 256, a * 256 + b, c);
    DivModUnique(a * 256 + b, 256, a, b);
  }

  lemma TripleOfQuad(a: Byte, b: Byte, c: Byte)
    ensures Triple(Quad(a, b, c)) == [a, b, c]
  {
    QuadGroups(a, b, c);
    SextetsBack(a, b, c);
    hide Group, Symbol, Value;
    ValueOfSymbol(a / 4);
    ValueOfSymbol(a % 4 * 16 + b / 16);
    ValueOfSymbol(b % 16 * 4 + c / 64);
    ValueOfSymbol(c % 64);
  }

  lemma TripleOfLast(input: seq<Byte>)
    requires 1 <= |input| <= 2
    ensures Triple(LastQuad(input)) == [input[0], At(input, 1), 0]
  {
    var a, b := input[0], At(input, 1);
    QuadGroups(a, b, 0);
    SextetsBack(a, b, 0);
    hide Group, Symbol;
    ValueOfSymbol(a / 4);
    ValueOfSymbol(a % 4 * 16 + b / 16);
    ValueOfSymbol(b % 16 * 4);
  }

  /** Bytes missing to the next multiple of three. */
  function Missing(n: nat): nat {
    (3 - n % 3) % 3
  }

  lemma DecodeFirst(quad: seq<char>, rest: seq<char>)
    requires |quad| == 4 && |rest| % 4 == 0
    ensures Decoded(quad + rest) == Triple(quad) + Decoded(rest)
  {
    hide Triple;
    assert (quad + rest)[..4] == quad && (quad + rest)[4..] == rest;
  }

  lemma LastBytes(input: seq<Byte>)
    requires 1 <= |input| <= 2
    ensures [input[0], At(input, 1), 0] == input + Zeros(Missing(|input|))
  {
  }

  lemma FirstBytes(input: seq<Byte>, rest: seq<Byte>)
    requires |input| >= 3
    ensures [input[0], input[1], input[2]] + (input[3..] + rest) == input + rest
  {
  }

  /** Decoding an encoding gives the bytes back, then only zeros up to the next
      multiple of three. */
  lemma {:induction false} RoundTrip(input: seq<Byte>)
    ensures Decoded(Encoded(input)) == input + Zeros(Missing(|input|))
  {
    hide Triple, LastQuad, Quad, Decoded, At, Zeros, EncodedLen;
    if |input| == 0 {
      NothingBack(input);
    } else if |input| < 3 {
      TripleOfLast(input);
      DecodeOne(LastQuad(input));
      LastBytes(input);
    } else {
      RoundTrip(input[3..]);
      TripleOfQuad(input[0], input[1], input[2]);
      DecodeFirst(Quad(input[0], input[1], input[2]), Encoded(input[3..]));
      FirstBytes(input, Zeros(Missing(|input|)));
    }
  }

  lemma NothingBack(input: seq<Byte>)
    requires input == []
    ensures Decoded(Encoded(input)) == input + Zeros(Missing(0))
  {
  }

  lemma DecodeOne(quad: seq<char>)
    requires |quad| == 4
    ensures Decoded(quad) == Triple(quad)
  {
    hide Triple;
    assert quad[..4] == quad && quad[4..] == [];
  }

  // ----- filling buffers -----

  /** Fills the output and succeeds exactly when it has the encoded length. */
  method Encode(input: seq<Byte>, output: array<char>) returns (ok: bool)
    modifies output
    ensures ok <==> output.Length == EncodedLen(|input|)
    ensures ok ==> output[..] == Encoded(input)
    ensures !ok ==> output[..] == old(output[..])
  {
    hide Quad, LastQuad, Encoded, EncodedLen;
    if output.Length != EncodedLen(|input|) {
      return false;
    }
    var i, j := 0, 0;
    WholeInput(input);
    while |input| - i >= 3 && j < output.Length
      invariant 0 <= i <= |input| && j + EncodedLen(|input| - i) == output.Length
      invariant output[..j] + Encoded(input[i..]) == Encoded(input)
      decreases |input| - i
    {
      LenOf(|input| - i);
      EncodedNext(input, i);
      var q := Quad(input[i], input[i + 1], input[i + 2]);
      ghost var before := output[..j];
      PutQuad(output, j, q);
      assert output[..j + 4] == before + q;
      assert before + q + Encoded(input[i + 3..]) == before + (q + Encoded(input[i + 3..]));
      i, j := i + 3, j + 4;
    }
    LenOf(|input| - i);
    EncodedLast(input[i..]);
    if |input| - i > 0 {
      ghost var before := output[..j];
      PutQuad(output, j, LastQuad(input[i..]));
      assert output[..] == before + LastQuad(input[i..]);
    }
    return true;
  }

  method PutQuad(output: array<char>, j: nat, q: seq<char>)
    requires |q| == 4 && j + 4 <= output.Length
    modifies output
    ensures output[..] == old(output[..j]) + q + old(output[j + 4..])
  {
    output[j], output[j + 1], output[j + 2], output[j + 3] := q[0], q[1], q[2], q[3];
  }

  lemma LenOf(n: nat)
    ensures EncodedLen(n) == if n >= 3 then 4 + EncodedLen(n - 3) else if n > 0 then 4 else 0
  {
  }

  lemma WholeInput(input: seq<Byte>)
    ensures [] + Encoded(input[0..]) == Encoded(input)
  {
    assert input[0..] == input;
  }

  lemma EncodedNext(input: seq<Byte>, i: nat)
    requires i + 3 <= |input|
    ensures Encoded(input[i..]) == Quad(input[i], input[i + 1], input[i + 2]) + Encoded(input[i + 3..])
  {
    assert input[i..][3..] == input[i + 3..];
  }

  lemma EncodedLast(rest: seq<Byte>)
    requires |rest| < 3
    ensures Encoded(rest) == if rest == [] then [] else LastQuad(rest)
  {
  }

  /** Decoding refuses a text that is empty, not whole quads, or not the size of the
      output. */
  method Decode(text: seq<char>, output: array<Byte>) returns (ok: bool)
    modifies output
    ensures ok <==> |text| >= 4 && |text| % 4 == 0 && |text| / 4 * 3 == output.Length
    ensures ok ==> output[..] == Decoded(text)
    ensures !ok ==> output[..] == old(output[..])
  {
    hide Triple, Decoded;
    if |text| < 4 || |text| % 4 != 0 || |text| / 4 * 3 != output.Length {
      return false;
    }
    var i, j := 0, 0;
    assert text[0..] == text;
    while i < |text|
      invariant 0 <= i <= |text| && i % 4 == 0 && j == i / 4 * 3
      invariant output[..j] + Decoded(text[i..]) == Decoded(text)
    {
      DecodedNext(text, i);
      var b := Triple(text[i..i + 4]);
      ghost var before := output[..j];
      output[j], output[j + 1], output[j + 2] := b[0], b[1], b[2];
      assert output[..j + 3] == before + b;
      assert before + b + Decoded(text[i + 4..]) == before + (b + Decoded(text[i + 4..]));
      i, j := i + 4, j + 3;
    }
    return true;
  }

  lemma DecodedNext(text: seq<char>, i: nat)
    requires i + 4 <= |text| && i % 4 == 0 && |text| % 4 == 0
    ensures Decoded(text[i..]) == Triple(text[i..i + 4]) + Decoded(text[i + 4..])
  {
    hide Triple;
    assert text[i..][..4] == text[i..i + 4] && text[i..][4..] == text[i + 4..];
  }
}

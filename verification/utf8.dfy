/**
  UTF-8 as defined in RFC 3629: the strict decoder behind Python's
  `bytes.decode("utf-8")`, the lossy decoders behind `errors="ignore"` and
  `errors="replace"`, and the encoder they invert.

  Lossy decoding follows the "maximal subpart" policy of CPython's codec: at a
  position where no well-formed sequence starts, the longest prefix of a
  well-formed sequence (at least one byte) is dropped as one error.
 */
module Utf8 {
  import opened Optional

  /** One byte of a blob. */
  type Byte = b: int | 0 <= b < 0x100

  /** Unicode scalar values: exactly the code points a Dafny `char` can hold. */
  predicate IsScalar(cp: int) {
    0 <= cp < 0xD800 || 0xE000 <= cp < 0x11_0000
  }

  /** A continuation byte, 10xxxxxx. */
  predicate IsTail(b: Byte) {
    0x80 <= b <= 0xBF
  }

  /** Length of the sequence a lead byte introduces; 0 for a byte that starts none
      (continuation bytes, the overlong leads 0xC0/0xC1, and 0xF5..0xFF). */
  function SequenceLength(lead: Byte): nat {
    if lead < 0x80 then 1
    else if 0xC2 <= lead <= 0xDF then 2
    else if 0xE0 <= lead <= 0xEF then 3
    else if 0xF0 <= lead <= 0xF4 then 4
    else 0
  }

  /** Bounds on the second byte of a multi-byte sequence (the table of RFC 3629
      section 4 excludes overlongs, surrogates and code points above U+10FFFF). */
  function SecondLow(lead: Byte): Byte {
    if lead == 0xE0 then 0xA0 else if lead == 0xF0 then 0x90 else 0x80
  }

  function SecondHigh(lead: Byte): Byte {
    if lead == 0xED then 0x9F else if lead == 0xF4 then 0x8F else 0xBF
  }

  /** Number of leading bytes of `b` that form a well-formed sequence or a prefix of one. */
  function ValidPrefix(b: seq<Byte>): (k: nat)
    requires |b| > 0
    ensures k <= SequenceLength(b[0]) && k <= |b|
    ensures k == 0 <==> SequenceLength(b[0]) == 0
  {
    var n := SequenceLength(b[0]);
    if n == 0 then 0
    else if n == 1 || |b| < 2 || !(SecondLow(b[0]) <= b[1] <= SecondHigh(b[0])) then 1
    else if n == 2 || |b| < 3 || !IsTail(b[2]) then 2
    else if n == 3 || |b| < 4 || !IsTail(b[3]) then 3
    else 4
  }

  /** The code point carried by the first `n` bytes of a well-formed sequence. */
  function CodePoint(b: seq<Byte>, n: nat): int
    requires 1 <= n <= 4 && n <= |b|
  {
    var b0: int := b[0];
    if n == 1 then b0
    else if n == 2 then (b0 - 0xC0) * 64 + Low6(b[1])
    else if n == 3 then (b0 - 0xE0) * 4096 + Low6(b[1]) * 64 + Low6(b[2])
    else (b0 - 0xF0) * 262144 + Low6(b[1]) * 4096 + Low6(b[2]) * 64 + Low6(b[3])
  }

  /** The payload bits of a continuation byte. */
  function Low6(b: Byte): int {
    b as int - 0x80
  }

  /** Decodes the sequence at the head of `b`: the character and how many bytes it used. */
  function DecodeFirst(b: seq<Byte>): (r: Option<(char, nat)>)
    requires |b| > 0
    ensures r.Some? ==> 1 <= r.value.1 <= 4 && r.value.1 <= |b|
    ensures r.Some? <==> SequenceLength(b[0]) > 0 && ValidPrefix(b) == SequenceLength(b[0])
  {
    var n := SequenceLength(b[0]);
    if n > 0 && ValidPrefix(b) == n then
      var cp := CodePoint(b, n);
      assert IsScalar(cp);
      Some((cp as char, n))
    else None
  }

  /** Bytes dropped as one error where no well-formed sequence starts. */
  function ErrorLength(b: seq<Byte>): (k: nat)
    requires |b| > 0
    ensures 1 <= k <= |b|
  {
    var k := ValidPrefix(b);
    if k == 0 then 1 else k
  }

  /** The encoding of one character. */
  function EncodeChar(c: char): (r: seq<Byte>)
    ensures 1 <= |r| <= 4
  {
    var cp := c as int;
    if cp < 0x80 then [cp]
    else if cp < 0x800 then [0xC0 + cp / 64, 0x80 + cp % 64]
    else if cp < 0x1_0000 then [0xE0 + cp / 4096, 0x80 + (cp / 64) % 64, 0x80 + cp % 64]
    else [0xF0 + cp / 262144, 0x80 + (cp / 4096) % 64, 0x80 + (cp / 64) % 64, 0x80 + cp % 64]
  }

  /** `str.encode("utf-8")`. */
  function Encode(s: string): seq<Byte> {
    if s == [] then [] else EncodeChar(s[0]) + Encode(s[1..])
  }

  /** `bytes.decode("utf-8")`: `None` where Python raises `UnicodeDecodeError`. */
  function DecodeStrict(b: seq<Byte>): Option<string>
    decreases |b|
  {
    if b == [] then Some([])
    else match DecodeFirst(b)
      case None => None
      case Some((c, n)) =>
        match DecodeStrict(b[n..])
        case None => None
        case Some(rest) => Some([c] + rest)
  }

  /** `bytes.decode("utf-8", errors=...)`: every error becomes `replacement`
      (empty for "ignore", U+FFFD for "replace"). */
  function DecodeLossy(b: seq<Byte>, replacement: string): string
    decreases |b|
  {
    if b == [] then []
    else match DecodeFirst(b)
      case Some((c, n)) => [c] + DecodeLossy(b[n..], replacement)
      case None => replacement + DecodeLossy(b[ErrorLength(b)..], replacement)
  }

  /** The character whose code point is an ASCII byte. */
  function AsciiChar(b: Byte): char
    requires b < 0x80
  {
    b as char
  }

  // ----- Round trips -----

  lemma EncodeCharTwo(c: char, rest: seq<Byte>)
    requires 0x80 <= c as int < 0x800
    ensures DecodeFirst(EncodeChar(c) + rest) == Some((c, 2))
  {
    var b := EncodeChar(c) + rest;
    var cp := c as int;
    assert b[0] == 0xC0 + cp / 64 && b[1] == 0x80 + cp % 64;
    assert CodePoint(b, 2) == cp;
  }

  lemma EncodeCharThree(c: char, rest: seq<Byte>)
    requires 0x800 <= c as int < 0x1_0000
    ensures DecodeFirst(EncodeChar(c) + rest) == Some((c, 3))
  {
    var b := EncodeChar(c) + rest;
    var cp := c as int;
    var q, r := cp / 64, cp % 64;
    assert cp == q * 64 + r;
    assert q / 64 == cp / 4096 && q % 64 == (cp / 64) % 64;
    assert b[0] == 0xE0 + q / 64 && b[1] == 0x80 + q % 64 && b[2] == 0x80 + r;
    assert CodePoint(b, 3) == (q / 64) * 4096 + (q % 64) * 64 + r;
  }

  lemma EncodeCharFour(c: char, rest: seq<Byte>)
    requires 0x1_0000 <= c as int
    ensures DecodeFirst(EncodeChar(c) + rest) == Some((c, 4))
  {
    var b := EncodeChar(c) + rest;
    var cp := c as int;
    var q, r := cp / 64, cp % 64;
    var q2 := q / 64;
    assert cp == q * 64 + r && q == q2 * 64 + q % 64;
    assert q2 == cp / 4096 && q2 / 64 == cp / 262144;
    assert b[0] == 0xF0 + q2 / 64 && b[1] == 0x80 + q2 % 64;
    assert b[2] == 0x80 + q % 64 && b[3] == 0x80 + r;
    assert CodePoint(b, 4) == (q2 / 64) * 262144 + (q2 % 64) * 4096 + (q % 64) * 64 + r;
  }

  lemma DecodeFirstEncodeChar(c: char, rest: seq<Byte>)
    ensures DecodeFirst(EncodeChar(c) + rest) == Some((c, |EncodeChar(c)|))
  {
    var cp := c as int;
    if cp < 0x80 {
    } else if cp < 0x800 {
      EncodeCharTwo(c, rest);
    } else if cp < 0x1_0000 {
      EncodeCharThree(c, rest);
    } else {
      EncodeCharFour(c, rest);
    }
  }

  lemma EncodeCharOfDecodeFirst(b: seq<Byte>)
    requires |b| > 0 && DecodeFirst(b).Some?
    ensures EncodeChar(DecodeFirst(b).value.0) == b[..DecodeFirst(b).value.1]
  {
    var n := SequenceLength(b[0]);
    if n == 2 {
      EncodeTwo(b);
    } else if n == 3 {
      EncodeThree(b);
    } else if n == 4 {
      EncodeFour(b);
    }
  }

  /** Division by a power of 64 undoes the shift that built a value. */
  lemma Shift64(q: int, r: int)
    requires 0 <= r < 64
    ensures (q * 64 + r) / 64 == q && (q * 64 + r) % 64 == r
  {
  }

  lemma Shift4096(q: int, r: int)
    requires 0 <= r < 4096
    ensures (q * 4096 + r) / 4096 == q
  {
  }

  lemma Shift262144(q: int, r: int)
    requires 0 <= r < 262144
    ensures (q * 262144 + r) / 262144 == q
  {
  }

  lemma EncodeTwo(b: seq<Byte>)
    requires |b| > 0 && DecodeFirst(b).Some? && SequenceLength(b[0]) == 2
    ensures EncodeChar(DecodeFirst(b).value.0) == b[..2]
  {
    var b0: int := b[0];
    Shift64(b0 - 0xC0, Low6(b[1]));
  }

  lemma EncodeThree(b: seq<Byte>)
    requires |b| > 0 && DecodeFirst(b).Some? && SequenceLength(b[0]) == 3
    ensures EncodeChar(DecodeFirst(b).value.0) == b[..3]
  {
    var b0: int := b[0];
    var q := (b0 - 0xE0) * 64 + Low6(b[1]);
    var cp := CodePoint(b, 3);
    assert cp == q * 64 + Low6(b[2]);
    Shift64(q, Low6(b[2]));
    Shift64(b0 - 0xE0, Low6(b[1]));
    Shift4096(b0 - 0xE0, Low6(b[1]) * 64 + Low6(b[2]));
  }

  lemma EncodeFour(b: seq<Byte>)
    requires |b| > 0 && DecodeFirst(b).Some? && SequenceLength(b[0]) == 4
    ensures EncodeChar(DecodeFirst(b).value.0) == b[..4]
  {
    var b0: int := b[0];
    var q2 := (b0 - 0xF0) * 64 + Low6(b[1]);
    var q := q2 * 64 + Low6(b[2]);
    var cp := CodePoint(b, 4);
    assert cp == q * 64 + Low6(b[3]);
    Shift64(q, Low6(b[3]));
    Shift64(q2, Low6(b[2]));
    Shift64(b0 - 0xF0, Low6(b[1]));
    Shift4096(q2, Low6(b[2]) * 64 + Low6(b[3]));
    Shift262144(b0 - 0xF0, Low6(b[1]) * 4096 + Low6(b[2]) * 64 + Low6(b[3]));
  }

  /** Decoding what was encoded gives the text back. */
  lemma {:induction false} DecodeEncode(s: string)
    ensures DecodeStrict(Encode(s)) == Some(s)
  {
    if s != [] {
      var e := EncodeChar(s[0]);
      DecodeFirstEncodeChar(s[0], Encode(s[1..]));
      assert (e + Encode(s[1..]))[|e|..] == Encode(s[1..]);
      DecodeEncode(s[1..]);
      assert [s[0]] + s[1..] == s;
    }
  }

  /** A successful strict decode is undone by encoding: the decoder drops nothing. */
  lemma {:induction false} EncodeDecode(b: seq<Byte>)
    requires DecodeStrict(b).Some?
    ensures Encode(DecodeStrict(b).value) == b
    decreases |b|
  {
    if b != [] {
      var c, n := DecodeFirst(b).value.0, DecodeFirst(b).value.1;
      DecodeStrictCons(b);
      var rest := DecodeStrict(b[n..]).value;
      EncodeCharOfDecodeFirst(b);
      EncodeDecode(b[n..]);
      EncodeStep(b, c, n, rest);
    }
  }

  /** The encoding of a first character and of the rest, each matching its part of `b`,
      is `b`. */
  lemma EncodeStep(b: seq<Byte>, c: char, n: nat, rest: string)
    requires n <= |b| && EncodeChar(c) == b[..n] && Encode(rest) == b[n..]
    ensures Encode([c] + rest) == b
  {
    EncodeCons(c, rest);
    assert b[..n] + b[n..] == b;
  }

  /** A successful strict decode is the first character and the decode of the rest. */
  lemma DecodeStrictCons(b: seq<Byte>)
    requires b != [] && DecodeStrict(b).Some?
    ensures DecodeFirst(b).Some?
    ensures var (c, n) := DecodeFirst(b).value;
            DecodeStrict(b[n..]).Some? && DecodeStrict(b).value == [c] + DecodeStrict(b[n..]).value
  {
  }

  /** The encoding of a string is the encoding of its first character and of the rest. */
  lemma EncodeCons(c: char, rest: string)
    ensures Encode([c] + rest) == EncodeChar(c) + Encode(rest)
  {
    assert ([c] + rest)[1..] == rest;
  }

  /** Where the strict decoder succeeds, every lossy decoder agrees with it. */
  lemma {:induction false} LossyAgreesWithStrict(b: seq<Byte>, replacement: string)
    requires DecodeStrict(b).Some?
    ensures DecodeLossy(b, replacement) == DecodeStrict(b).value
    decreases |b|
  {
    if b != [] {
      var (c, n) := DecodeFirst(b).value;
      LossyAgreesWithStrict(b[n..], replacement);
    }
  }

  /** ASCII bytes decode, strictly or not, to the characters with the same code points. */
  lemma {:induction false} AsciiDecodes(b: seq<Byte>, replacement: string)
    requires forall i :: 0 <= i < |b| ==> b[i] < 0x80
    ensures DecodeStrict(b).Some?
    ensures DecodeLossy(b, replacement) == DecodeStrict(b).value
    ensures |DecodeStrict(b).value| == |b|
    ensures forall i :: 0 <= i < |b| ==> DecodeStrict(b).value[i] == AsciiChar(b[i])
    decreases |b|
  {
    if b != [] {
      assert DecodeFirst(b) == Some((AsciiChar(b[0]), 1));
      AsciiDecodes(b[1..], replacement);
      var rest := DecodeStrict(b[1..]).value;
      assert DecodeStrict(b) == Some([AsciiChar(b[0])] + rest);
      LossyAgreesWithStrict(b, replacement);
    }
  }
}

/**
  Percent-decoding as Python's `urllib.parse.unquote` performs it with its
  defaults (UTF-8, errors="replace"), following section 2.1 of RFC 3986: the
  string is cut into maximal runs of ASCII characters and runs of other
  characters; in an ASCII run every `%` followed by two hex digits becomes the
  byte they spell, and the resulting bytes are decoded as UTF-8 with U+FFFD
  for each error; other characters are kept as they are.
 */
module PercentDecoding {
  import opened Utf8

  /** What `errors="replace"` puts in place of each ill-formed byte sequence. */
  const Replacement: string := "\U{FFFD}"

  predicate IsAscii(c: char) {
    c as int < 0x80
  }

  predicate AllAscii(s: string) {
    forall i :: 0 <= i < |s| ==> IsAscii(s[i])
  }

  /** A hex digit of either case (Python's `_hexdig`). */
  predicate IsHex(c: char) {
    '0' <= c <= '9' || 'A' <= c <= 'F' || 'a' <= c <= 'f'
  }

  function HexValue(c: char): (v: nat)
    requires IsHex(c)
    ensures v < 16
  {
    if c <= '9' then c as int - '0' as int
    else if c <= 'F' then c as int - 'A' as int + 10
    else c as int - 'a' as int + 10
  }

  /** The upper-case hex digit of a value below 16. */
  function HexDigit(v: nat): (c: char)
    requires v < 16
    ensures IsHex(c) && HexValue(c) == v
  {
    if v < 10 then ('0' as int + v) as char else ('A' as int + v - 10) as char
  }

  /** `unquote_to_bytes` on a run of ASCII characters: a `%` and two hex digits give the
      byte they spell; any other character, a `%` without two hex digits after it
      included, gives its own code. */
  function UnquoteBytes(s: string): seq<Byte>
    requires AllAscii(s)
    decreases |s|
  {
    if s == [] then []
    else if s[0] == '%' && |s| >= 3 && IsHex(s[1]) && IsHex(s[2]) then
      [HexValue(s[1]) * 16 + HexValue(s[2])] + UnquoteBytes(s[3..])
    else [s[0] as int] + UnquoteBytes(s[1..])
  }

  /** Length of the longest ASCII prefix. */
  function AsciiRun(s: string): (k: nat)
    ensures k <= |s|
    ensures forall i :: 0 <= i < k ==> IsAscii(s[i])
    ensures k < |s| ==> !IsAscii(s[k])
  {
    if s == [] || !IsAscii(s[0]) then 0 else 1 + AsciiRun(s[1..])
  }

  /** The decoding proper: ASCII runs decoded through bytes, other characters kept. */
  function UnquoteRuns(s: string): string
    decreases |s|
  {
    if s == [] then []
    else if !IsAscii(s[0]) then [s[0]] + UnquoteRuns(s[1..])
    else
      var k := AsciiRun(s);
      DecodeLossy(UnquoteBytes(s[..k]), Replacement) + UnquoteRuns(s[k..])
  }

  /** `urllib.parse.unquote(s)`: a string without `%` is returned at once. */
  function Unquote(s: string): string {
    if '%' !in s then s else UnquoteRuns(s)
  }

  /** An encoder `Unquote` inverts: ASCII characters other than `%` are kept, every other
      character is written as `%XX` escapes of its UTF-8 bytes. */
  function PercentEncode(s: string): (r: string)
    ensures AllAscii(r)
  {
    if s == [] then []
    else (if IsAscii(s[0]) && s[0] != '%' then [s[0]] else PercentBytes(EncodeChar(s[0]))) + PercentEncode(s[1..])
  }

  /** Every byte as a `%XX` escape. */
  function PercentBytes(b: seq<Byte>): (r: string)
    ensures AllAscii(r)
    ensures |r| == 3 * |b|
  {
    if b == [] then [] else ['%', HexDigit(b[0] / 16), HexDigit(b[0] % 16)] + PercentBytes(b[1..])
  }

  // ----- Without escapes nothing changes -----

  /** Without `%`, the bytes of an ASCII run are its character codes. */
  lemma {:induction false} UnquoteBytesPlain(s: string)
    requires AllAscii(s) && '%' !in s
    ensures |UnquoteBytes(s)| == |s|
    ensures forall i :: 0 <= i < |s| ==> UnquoteBytes(s)[i] == s[i] as int
    decreases |s|
  {
    if s != [] {
      assert '%' !in s[1..];
      UnquoteBytesPlain(s[1..]);
    }
  }

  /** An ASCII run without `%` decodes to itself. */
  lemma PlainRunDecodes(s: string)
    requires AllAscii(s) && '%' !in s
    ensures DecodeLossy(UnquoteBytes(s), Replacement) == s
  {
    var b := UnquoteBytes(s);
    UnquoteBytesPlain(s);
    AsciiDecodes(b, Replacement);
    var d := DecodeStrict(b).value;
    assert forall i :: 0 <= i < |s| ==> d[i] == AsciiChar(b[i]) == s[i];
  }

  /** Without `%`, decoding changes nothing: the early return of `unquote` is a shortcut
      and not a different result. */
  lemma {:induction false} UnquoteRunsPlain(s: string)
    requires '%' !in s
    ensures UnquoteRuns(s) == s
    decreases |s|
  {
    if s != [] {
      if !IsAscii(s[0]) {
        assert '%' !in s[1..];
        UnquoteRunsPlain(s[1..]);
      } else {
        var k := AsciiRun(s);
        assert '%' !in s[..k] && '%' !in s[k..];
        assert AllAscii(s[..k]);
        PlainRunDecodes(s[..k]);
        UnquoteRunsPlain(s[k..]);
        assert s == s[..k] + s[k..];
      }
    }
  }

  /** `unquote` is its run-by-run decoding on every string. */
  lemma UnquoteIsRuns(s: string)
    ensures Unquote(s) == UnquoteRuns(s)
  {
    if '%' !in s {
      UnquoteRunsPlain(s);
    }
  }

  // ----- Decoding inverts encoding -----

  /** One escape reads back as its byte. */
  lemma UnquoteBytesEscape(x: Byte, rest: string)
    requires AllAscii(rest)
    ensures UnquoteBytes(['%', HexDigit(x / 16), HexDigit(x % 16)] + rest) == [x] + UnquoteBytes(rest)
  {
    var s := ['%', HexDigit(x / 16), HexDigit(x % 16)] + rest;
    assert s[3..] == rest;
    assert x == (x / 16) * 16 + x % 16;
  }

  /** Escaped bytes read back as those bytes. */
  lemma {:induction false} UnquoteBytesEscaped(b: seq<Byte>, t: string)
    requires AllAscii(t)
    ensures UnquoteBytes(PercentBytes(b) + t) == b + UnquoteBytes(t)
    decreases |b|
  {
    if b != [] {
      var rest := PercentBytes(b[1..]) + t;
      assert PercentBytes(b) + t == ['%', HexDigit(b[0] / 16), HexDigit(b[0] % 16)] + rest;
      UnquoteBytesEscape(b[0], rest);
      UnquoteBytesEscaped(b[1..], t);
      assert b == [b[0]] + b[1..];
    } else {
      assert PercentBytes(b) + t == t;
    }
  }

  /** The bytes an encoded string reads back as are the string's UTF-8 encoding. */
  lemma {:induction false} UnquoteBytesEncoded(s: string)
    ensures UnquoteBytes(PercentEncode(s)) == Encode(s)
    decreases |s|
  {
    if s != [] {
      var t := PercentEncode(s[1..]);
      UnquoteBytesEncoded(s[1..]);
      if IsAscii(s[0]) && s[0] != '%' {
        assert ([s[0]] + t)[1..] == t;
      } else {
        UnquoteBytesEscaped(EncodeChar(s[0]), t);
      }
    }
  }

  /** An ASCII string is one run. */
  lemma UnquoteRunsAscii(s: string)
    requires AllAscii(s)
    ensures UnquoteRuns(s) == DecodeLossy(UnquoteBytes(s), Replacement)
  {
    if s != [] {
      var k := AsciiRun(s);
      assert k == |s|;
      assert s[..k] == s;
    }
  }

  /** `unquote` inverts percent-encoding. */
  lemma UnquotePercentEncode(s: string)
    ensures Unquote(PercentEncode(s)) == s
  {
    var e := PercentEncode(s);
    UnquoteIsRuns(e);
    UnquoteRunsAscii(e);
    UnquoteBytesEncoded(s);
    DecodeEncode(s);
    LossyAgreesWithStrict(Encode(s), Replacement);
  }
}

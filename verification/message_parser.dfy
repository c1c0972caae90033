/**
  The legacy rich-text extractor of server/message_parser.py: heuristic
  recovery of the plain text stored in an `attributedBody` typedstream blob.

  Strategy 1 finds the `NSString` (else `NSMutableString`) class name, looks
  for the `0x01 0x2B` pair shortly after it and reads the length-prefixed UTF-8
  payload that follows. Strategy 2 scans for the longest run of text-like bytes
  from offset 50 on. Every function here is total and every index is proved in
  range: the extractor cannot fail, which is what the source's blanket
  `except Exception` was there to guarantee.
 */
module MessageParser {
  import opened Optional
  import opened Utf8
  import opened Text

  // ----- Markers -----

  /** The class name `NSString` as bytes. */
  const ImmutableMarker: seq<Byte> := [0x4E, 0x53, 0x53, 0x74, 0x72, 0x69, 0x6E, 0x67]

  /** The class name `NSMutableString` as bytes. */
  const MutableMarker: seq<Byte> :=
    [0x4E, 0x53, 0x4D, 0x75, 0x74, 0x61, 0x62, 0x6C, 0x65, 0x53, 0x74, 0x72, 0x69, 0x6E, 0x67]

  /** `pat` occurs in `blob` at offset `k`. */
  predicate OccursAt(blob: seq<Byte>, pat: seq<Byte>, k: nat) {
    k + |pat| <= |blob| && blob[k..k + |pat|] == pat
  }

  /** `blob.find(pat, from)`: the first occurrence at or after `from`. */
  function Find(blob: seq<Byte>, pat: seq<Byte>, from: nat): Option<nat>
    decreases |blob| - from
  {
    if from + |pat| > |blob| then None
    else if blob[from..from + |pat|] == pat then Some(from)
    else Find(blob, pat, from + 1)
  }

  /** `Find` returns the first occurrence at or after `from`, and `None` exactly when
      there is none. */
  lemma {:induction false} FindSpec(blob: seq<Byte>, pat: seq<Byte>, from: nat)
    ensures var r := Find(blob, pat, from);
            && (r.Some? ==> from <= r.value && OccursAt(blob, pat, r.value))
            && (r.Some? ==> forall k :: from <= k < r.value ==> !OccursAt(blob, pat, k))
            && (r.None? ==> forall k :: from <= k ==> !OccursAt(blob, pat, k))
    decreases |blob| - from
  {
    if from + |pat| <= |blob| && blob[from..from + |pat|] != pat {
      FindSpec(blob, pat, from + 1);
    }
  }

  /** The offset just past the class-name marker: the first `NSString`, or, only when
      `NSString` occurs nowhere, the first `NSMutableString`. */
  function LocateMarker(blob: seq<Byte>): Option<nat> {
    match Find(blob, ImmutableMarker, 0)
    case Some(idx) => Some(idx + |ImmutableMarker|)
    case None =>
      match Find(blob, MutableMarker, 0)
      case Some(idx) => Some(idx + |MutableMarker|)
      case None => None
  }

  /** `NSString` wins wherever it occurs; `NSMutableString` is searched for only when
      `NSString` is absent; either way the first occurrence is used. */
  lemma LocateMarkerSpec(blob: seq<Byte>)
    ensures var r := LocateMarker(blob);
            (exists k :: OccursAt(blob, ImmutableMarker, k)) ==>
              && r.Some? && r.value >= |ImmutableMarker|
              && OccursAt(blob, ImmutableMarker, r.value - |ImmutableMarker|)
              && forall k :: 0 <= k < r.value - |ImmutableMarker| ==> !OccursAt(blob, ImmutableMarker, k)
    ensures var r := LocateMarker(blob);
            (forall k :: !OccursAt(blob, ImmutableMarker, k)) ==>
              && (r.Some? <==> exists k :: OccursAt(blob, MutableMarker, k))
              && (r.Some? ==> r.value >= |MutableMarker|
                              && OccursAt(blob, MutableMarker, r.value - |MutableMarker|)
                              && forall k :: 0 <= k < r.value - |MutableMarker| ==> !OccursAt(blob, MutableMarker, k))
  {
    FindSpec(blob, ImmutableMarker, 0);
    FindSpec(blob, MutableMarker, 0);
  }

  // ----- Length prefix -----

  /** Largest payload length accepted. */
  const MaxPayload: nat := 100_000

  /** Bytes read as one unsigned big-endian number (`int.from_bytes(b, "big")`). */
  function BigEndian(b: seq<Byte>): nat {
    if b == [] then 0 else BigEndian(b[..|b| - 1]) * 256 + b[|b| - 1]
  }

  /** The length field at `pos`: the payload length and the offset where the payload starts. */
  function LengthPrefix(blob: seq<Byte>, pos: nat): (r: Option<(nat, nat)>)
    ensures pos >= |blob| ==> r.None?
    ensures pos < |blob| && 1 <= blob[pos] <= 0x7F ==> r == Some((blob[pos] as nat, pos + 1))
    ensures pos < |blob| && blob[pos] == 0x81 ==>
              r == if pos + 1 < |blob| then Some((blob[pos + 1] as nat, pos + 2)) else None
    ensures pos < |blob| && blob[pos] == 0x84 ==>
              r == if pos + 4 < |blob| then Some((BigEndian(blob[pos + 1..pos + 5]), pos + 5)) else None
    ensures pos < |blob| && !(1 <= blob[pos] <= 0x7F || blob[pos] == 0x81 || blob[pos] == 0x84) ==> r.None?
    ensures r.Some? ==> r.value.1 <= |blob|
  {
    if pos >= |blob| then None
    else
      var lead := blob[pos];
      if 1 <= lead <= 0x7F then Some((lead as nat, pos + 1))
      else if lead == 0x81 && pos + 1 < |blob| then Some((blob[pos + 1] as nat, pos + 2))
      else if lead == 0x84 && pos + 4 < |blob| then
        BigEndianFour(blob[pos + 1..pos + 5]);
        Some((blob[pos + 1] as nat * 0x100_0000 + blob[pos + 2] as nat * 0x1_0000
              + blob[pos + 3] as nat * 0x100 + blob[pos + 4] as nat, pos + 5))
      else None
  }

  /** The length field a writer of this format produces: the shortest of the three forms. */
  function EncodeLength(n: nat): (r: seq<Byte>)
    requires 1 <= n < 0x1_0000_0000
    ensures |r| == 1 || |r| == 2 || |r| == 5
  {
    if n <= 0x7F then [n]
    else if n <= 0xFF then [0x81, n]
    else [0x84, n / 0x100_0000, (n / 0x1_0000) % 0x100, (n / 0x100) % 0x100, n % 0x100]
  }

  lemma BigEndianFour(b: seq<Byte>)
    requires |b| == 4
    ensures BigEndian(b) == b[0] as nat * 0x100_0000 + b[1] as nat * 0x1_0000 + b[2] as nat * 0x100 + b[3] as nat
  {
    assert b[..3][..2] == b[..2] && b[..2][..1] == b[..1] && b[..1][..0] == [];
    assert BigEndian(b[..1]) == b[0] as nat;
    assert BigEndian(b[..2]) == b[0] as nat * 0x100 + b[1] as nat;
    assert BigEndian(b[..3]) == b[0] as nat * 0x1_0000 + b[1] as nat * 0x100 + b[2] as nat;
  }

  /** The length field is read back as written, wherever it sits in the blob. */
  lemma LengthPrefixEncodeLength(prefix: seq<Byte>, n: nat, rest: seq<Byte>)
    requires 1 <= n < 0x1_0000_0000
    ensures LengthPrefix(prefix + EncodeLength(n) + rest, |prefix|)
            == Some((n, |prefix| + |EncodeLength(n)|))
  {
    var blob := prefix + EncodeLength(n) + rest;
    var p := |prefix|;
    if n > 0xFF {
      var f := blob[p + 1..p + 5];
      assert f == EncodeLength(n)[1..5];
      BigEndianFour(f);
      var q1, q2, q3 := n / 0x100, n / 0x1_0000, n / 0x100_0000;
      assert n == q1 * 0x100 + n % 0x100;
      assert q1 == q2 * 0x100 + q1 % 0x100 && q1 % 0x100 == (n / 0x100) % 0x100;
      assert q2 == q3 * 0x100 + q2 % 0x100;
    }
  }

  // ----- Strategy 1: the payload after the marker -----

  /** A payload of `lp.0` bytes starting at `lp.1` is acceptable and inside the blob. */
  predicate PayloadFits(blob: seq<Byte>, lp: (nat, nat)) {
    1 <= lp.0 <= MaxPayload && lp.1 + lp.0 <= |blob|
  }

  function Payload(blob: seq<Byte>, lp: (nat, nat)): seq<Byte>
    requires PayloadFits(blob, lp)
  {
    blob[lp.1..lp.1 + lp.0]
  }

  /** `_read_length_prefixed`: the length-prefixed string at `pos`, strictly UTF-8 decoded. */
  function ReadLengthPrefixed(blob: seq<Byte>, pos: nat): Option<string> {
    match LengthPrefix(blob, pos)
    case None => None
    case Some(lp) =>
      if lp.0 <= 0 || lp.0 > MaxPayload then None
      else if lp.1 + lp.0 > |blob| then None
      else DecodeStrict(Payload(blob, lp))
  }

  /** A string is read exactly when the length field parses, the length is within
      1..100000, the payload lies inside the blob and it is valid UTF-8; the string
      read is then the payload's decoding, and never empty. */
  lemma ReadLengthPrefixedSpec(blob: seq<Byte>, pos: nat)
    ensures var r := ReadLengthPrefixed(blob, pos);
            r.Some? <==> && LengthPrefix(blob, pos).Some?
                         && PayloadFits(blob, LengthPrefix(blob, pos).value)
                         && DecodeStrict(Payload(blob, LengthPrefix(blob, pos).value)).Some?
    ensures var r := ReadLengthPrefixed(blob, pos);
            r.Some? ==> Encode(r.value) == Payload(blob, LengthPrefix(blob, pos).value) && r.value != []
  {
    var r := ReadLengthPrefixed(blob, pos);
    if r.Some? {
      EncodeDecode(Payload(blob, LengthPrefix(blob, pos).value));
    }
  }

  /** The `0x01 0x2B` pair that precedes the length field. */
  predicate IsControlAt(blob: seq<Byte>, p: nat) {
    p + 1 < |blob| && blob[p] == 0x01 && blob[p + 1] == 0x2B
  }

  /** End of the window searched for the pair: 20 bytes past the marker, and never
      closer than 2 bytes to the end of the blob. */
  function WindowEnd(blob: seq<Byte>, start: nat): int {
    if start + 20 < |blob| - 2 then start + 20 else |blob| - 2
  }

  /** The first position of the pair in [pos, end). */
  function FindControl(blob: seq<Byte>, pos: nat, end: int): Option<nat>
    requires end <= |blob| - 2
    decreases end - pos
  {
    if pos >= end then None
    else if blob[pos] == 0x01 && blob[pos + 1] == 0x2B then Some(pos)
    else FindControl(blob, pos + 1, end)
  }

  /** `FindControl` returns the first pair in [pos, end), and `None` exactly when there is none. */
  lemma {:induction false} FindControlSpec(blob: seq<Byte>, pos: nat, end: int)
    requires end <= |blob| - 2
    ensures var r := FindControl(blob, pos, end);
            && (r.Some? ==> pos <= r.value < end && IsControlAt(blob, r.value))
            && (r.Some? ==> forall q :: pos <= q < r.value ==> !IsControlAt(blob, q))
            && (r.None? ==> forall q :: pos <= q < end ==> !IsControlAt(blob, q))
    decreases end - pos
  {
    if pos < end && !(blob[pos] == 0x01 && blob[pos + 1] == 0x2B) {
      FindControlSpec(blob, pos + 1, end);
    }
  }

  /** `_parse_after_nsstring`: only the first pair in the window is used; a failed read
      there is final, even if a later pair would have led to text. */
  function ParseAfterMarker(blob: seq<Byte>, start: nat): Option<string> {
    match FindControl(blob, start, WindowEnd(blob, start))
    case Some(p) => ReadLengthPrefixed(blob, p + 2)
    case None => None
  }

  /** The first pair in the window decides the outcome; with no pair in the window the
      result is `None`. */
  lemma ParseAfterMarkerSpec(blob: seq<Byte>, start: nat)
    ensures forall p :: start <= p < WindowEnd(blob, start) && IsControlAt(blob, p)
                        && (forall q :: start <= q < p ==> !IsControlAt(blob, q))
                        ==> ParseAfterMarker(blob, start) == ReadLengthPrefixed(blob, p + 2)
    ensures (forall q :: start <= q < WindowEnd(blob, start) ==> !IsControlAt(blob, q)) ==>
              ParseAfterMarker(blob, start).None?
  {
    FindControlSpec(blob, start, WindowEnd(blob, start));
  }

  /** Strategy 1 as a whole: the text found after the marker, if any. */
  function MarkerText(blob: seq<Byte>): Option<string> {
    match LocateMarker(blob)
    case Some(end) => ParseAfterMarker(blob, end)
    case None => None
  }

  // ----- Strategy 2: the fallback scan -----

  /** Offset where the fallback scan begins; the archive header comes before it. */
  const ScanStart: nat := 50

  /** Bytes a text run may contain: printable ASCII, tab, LF, CR, and UTF-8 lead bytes. */
  predicate IsRunByte(b: Byte) {
    (0x20 <= b < 0x7F) || b == 9 || b == 10 || b == 13 || b >= 0xC0
  }

  /** The end of the run that starts at `i`: the first byte from `i` on that is not a run byte. */
  function RunEnd(blob: seq<Byte>, i: nat): (e: nat)
    requires i <= |blob|
    ensures i <= e <= |blob|
    decreases |blob| - i
  {
    if i < |blob| && IsRunByte(blob[i]) then RunEnd(blob, i + 1) else i
  }

  /** Every byte of [i, RunEnd) is a run byte and the byte at `RunEnd`, if any, is not. */
  lemma {:induction false} RunEndSpec(blob: seq<Byte>, i: nat)
    requires i <= |blob|
    ensures forall k :: i <= k < RunEnd(blob, i) ==> IsRunByte(blob[k])
    ensures RunEnd(blob, i) < |blob| ==> !IsRunByte(blob[RunEnd(blob, i)])
    decreases |blob| - i
  {
    if i < |blob| && IsRunByte(blob[i]) {
      RunEndSpec(blob, i + 1);
    }
  }

  /** The text a run contributes: lenient decode (`errors="ignore"`), then strip. */
  function RunChunk(blob: seq<Byte>, s: nat, e: nat): string
    requires s <= e <= |blob|
  {
    Strip(DecodeLossy(blob[s..e], []))
  }

  /** `str.isprintable()` for one character: exact on ASCII; above it, the C1 controls,
      the soft hyphen and the non-ASCII whitespace are the unprintable ones. */
  predicate IsPrintable(c: char) {
    if c < '\U{80}' then ' ' <= c <= '~'
    else c > '\U{A0}' && c != '\U{AD}' && !IsSpace(c)
  }

  /** How many characters of `s` are printable or one of tab, LF, CR. */
  function CountPrintable(s: string): (n: nat)
    ensures n <= |s|
  {
    if s == [] then 0
    else (if IsPrintable(s[0]) || s[0] in "\n\r\t" then 1 else 0) + CountPrintable(s[1..])
  }

  /** `_looks_like_text`: not empty, not blank (`s.strip()` is empty exactly for blank
      strings, see `Text.StripEmptyIffBlank`), and more than half of it printable. */
  predicate LooksLikeText(s: string) {
    s != [] && !IsBlank(s) && 2 * CountPrintable(s) > |s|
  }

  /** The non-empty runs from offset `i` on, as [start, end) pairs in scan order. The
      byte that ends a run is skipped, and a position where no run starts yields none. */
  function Runs(blob: seq<Byte>, i: nat): (r: seq<(nat, nat)>)
    ensures forall k :: 0 <= k < |r| ==> i <= r[k].0 < r[k].1 <= |blob|
    decreases |blob| - i
  {
    if i >= |blob| then []
    else
      var e := RunEnd(blob, i);
      if e > i then [(i, e)] + Runs(blob, e + 1) else Runs(blob, e + 1)
  }

  /** The chunk of each run, in order. */
  function Chunks(blob: seq<Byte>, runs: seq<(nat, nat)>): (cs: seq<string>)
    requires forall k :: 0 <= k < |runs| ==> runs[k].0 <= runs[k].1 <= |blob|
    ensures |cs| == |runs|
  {
    seq(|runs|, k requires 0 <= k < |runs| => RunChunk(blob, runs[k].0, runs[k].1))
  }

  /** One step of the scan: `chunk` replaces `best` when it is strictly longer and looks
      like text. */
  function Better(chunk: string, best: string): string {
    if |chunk| > |best| && LooksLikeText(chunk) then chunk else best
  }

  /** The scan loop over the chunks in order, starting from `best`. */
  function Longest(chunks: seq<string>, best: string): string
    decreases |chunks|
  {
    if chunks == [] then best else Longest(chunks[1..], Better(chunks[0], best))
  }

  /** `_scan_for_utf8_run`: the longest text-like chunk, or `None` if there is none. */
  function ScanForUtf8Run(blob: seq<Byte>): (r: Option<string>)
    ensures r.Some? ==> r.value != []
  {
    var best := Longest(Chunks(blob, Runs(blob, ScanStart)), []);
    if best != [] then Some(best) else None
  }

  // ----- Cleaning and the entry point -----

  /** The characters `_clean` removes: U+FFFC (object replacement), NUL and SOH. */
  const CleanedOut: set<char> := {'\U{FFFC}', '\U{0}', '\U{1}'}

  /** `_clean`: drop U+FFFC, NUL and SOH, then strip. */
  function Clean(text: string): string {
    Strip(RemoveChars(text, CleanedOut))
  }

  /** `extract_text_from_attributed_body`. */
  function ExtractText(blob: Option<seq<Byte>>): (r: Option<string>)
    ensures blob.None? || blob.value == [] ==> r.None?
  {
    if blob.None? || blob.value == [] then None
    else
      var b := blob.value;
      var marked := MarkerText(b);
      if marked.Some? && marked.value != [] then Some(Clean(marked.value))
      else
        var scanned := ScanForUtf8Run(b);
        if scanned.Some? && scanned.value != [] then Some(Clean(scanned.value)) else None
  }
}

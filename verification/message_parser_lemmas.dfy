/** Properties of the legacy rich-text extractor (server/message_parser.py). */
module MessageParserLemmas {
  import opened Optional
  import opened Utf8
  import opened Text
  import opened MessageParser

  // ----- What the fallback scan chooses -----

  /** A maximal run of run bytes at or after the scan start. A run may begin right at
      the scan start whatever byte precedes it. */
  ghost predicate IsRun(blob: seq<Byte>, s: nat, e: nat) {
    && ScanStart <= s < e <= |blob|
    && (forall k :: s <= k < e ==> IsRunByte(blob[k]))
    && (s == ScanStart || !IsRunByte(blob[s - 1]))
    && (e == |blob| || !IsRunByte(blob[e]))
  }

  /** A run whose chunk passes the printable-ratio test. */
  ghost predicate Qualifies(blob: seq<Byte>, s: nat, e: nat) {
    IsRun(blob, s, e) && LooksLikeText(RunChunk(blob, s, e))
  }

  /** The run starting at a run start `i` is the one `RunEnd` finds, and no other run
      starts between `i` and the byte that ends it. */
  lemma RunAt(blob: seq<Byte>, i: nat)
    requires ScanStart <= i < |blob|
    requires i == ScanStart || !IsRunByte(blob[i - 1])
    ensures RunEnd(blob, i) > i ==> IsRun(blob, i, RunEnd(blob, i))
    ensures forall s: nat, e': nat :: IsRun(blob, s, e') && i <= s <= RunEnd(blob, i) ==>
              s == i && e' == RunEnd(blob, i)
  {
    var e := RunEnd(blob, i);
    RunEndSpec(blob, i);
    forall s: nat, e': nat | IsRun(blob, s, e') && i <= s <= e
      ensures s == i && e' == e
    {
      if s != i || e' != e {
        assert false;
      }
    }
  }

  /** The chunk-level scan: the result is either `best` (no text-like chunk beats it) or
      the first text-like chunk of maximal length, which is then strictly longer than
      `best` and than every text-like chunk before it. */
  lemma {:induction false} LongestSpec(cs: seq<string>, best: string) returns (j: int)
    ensures -1 <= j < |cs|
    ensures j == -1 ==> && Longest(cs, best) == best
                        && forall k :: 0 <= k < |cs| && LooksLikeText(cs[k]) ==> |cs[k]| <= |best|
    ensures j >= 0 ==> && Longest(cs, best) == cs[j] && LooksLikeText(cs[j]) && |best| < |cs[j]|
                       && forall k :: 0 <= k < |cs| && LooksLikeText(cs[k]) ==>
                            |cs[k]| <= |cs[j]| && (k < j ==> |cs[k]| < |cs[j]|)
    decreases |cs|
  {
    if cs == [] {
      j := -1;
    } else {
      var b := Better(cs[0], best);
      var j' := LongestSpec(cs[1..], b);
      assert forall k :: 1 <= k < |cs| ==> cs[k] == cs[1..][k - 1];
      if j' >= 0 {
        j := j' + 1;
      } else if |cs[0]| > |best| && LooksLikeText(cs[0]) {
        j := 0;
      } else {
        j := -1;
      }
    }
  }

  /** The runs listed from a run boundary `i` are maximal runs, in strictly increasing
      order, and every maximal run starting at or after `i` is listed. */
  lemma {:induction false} RunsSpec(blob: seq<Byte>, i: nat)
    requires ScanStart <= i
    requires i == ScanStart || i > |blob| || !IsRunByte(blob[i - 1])
    ensures forall k :: 0 <= k < |Runs(blob, i)| ==> IsRun(blob, Runs(blob, i)[k].0, Runs(blob, i)[k].1)
    ensures forall k, l :: 0 <= k < l < |Runs(blob, i)| ==> Runs(blob, i)[k].1 < Runs(blob, i)[l].0
    ensures forall s: nat, e: nat :: IsRun(blob, s, e) && i <= s ==> (s, e) in Runs(blob, i)
    decreases |blob| - i
  {
    if i < |blob| {
      RunEndSpec(blob, i);
      RunsSpec(blob, RunEnd(blob, i) + 1);
      RunsSoundStep(blob, i);
      RunsCompleteStep(blob, i);
    }
  }

  /** Every listed pair is a maximal run. */
  ghost predicate AllRuns(blob: seq<Byte>, r: seq<(nat, nat)>) {
    forall k :: 0 <= k < |r| ==> IsRun(blob, r[k].0, r[k].1)
  }

  /** Each listed run ends before the next one starts. */
  ghost predicate Increasing(r: seq<(nat, nat)>) {
    forall k, l :: 0 <= k < l < |r| ==> r[k].1 < r[l].0
  }

  /** If the runs listed after the run at `i` are maximal and in order, so are the runs
      listed from `i`. */
  lemma RunsSoundStep(blob: seq<Byte>, i: nat)
    requires ScanStart <= i < |blob|
    requires i == ScanStart || !IsRunByte(blob[i - 1])
    requires AllRuns(blob, Runs(blob, RunEnd(blob, i) + 1))
    requires Increasing(Runs(blob, RunEnd(blob, i) + 1))
    ensures AllRuns(blob, Runs(blob, i)) && Increasing(Runs(blob, i))
  {
    var e := RunEnd(blob, i);
    RunAt(blob, i);
    var r, rest := Runs(blob, i), Runs(blob, e + 1);
    if e > i {
      assert r == [(i, e)] + rest;
      forall k | 0 <= k < |r|
        ensures IsRun(blob, r[k].0, r[k].1)
      {
        if k > 0 {
          assert r[k] == rest[k - 1];
        }
      }
      forall k, l | 0 <= k < l < |r|
        ensures r[k].1 < r[l].0
      {
        assert r[l] == rest[l - 1];
        if k > 0 {
          assert r[k] == rest[k - 1];
        }
      }
    } else {
      assert r == rest;
    }
  }

  /** If every maximal run after the run at `i` is listed after it, every maximal run from
      `i` on is listed from `i`. */
  lemma RunsCompleteStep(blob: seq<Byte>, i: nat)
    requires ScanStart <= i < |blob|
    requires i == ScanStart || !IsRunByte(blob[i - 1])
    requires forall s: nat, e: nat :: IsRun(blob, s, e) && RunEnd(blob, i) + 1 <= s ==>
               (s, e) in Runs(blob, RunEnd(blob, i) + 1)
    ensures forall s: nat, e: nat :: IsRun(blob, s, e) && i <= s ==> (s, e) in Runs(blob, i)
  {
    var e := RunEnd(blob, i);
    RunAt(blob, i);
    var r, rest := Runs(blob, i), Runs(blob, e + 1);
    assert r == (if e > i then [(i, e)] else []) + rest;
    forall s: nat, e': nat | IsRun(blob, s, e') && i <= s
      ensures (s, e') in r
    {
      if s <= e {
        assert s == i && e' == e;
      } else {
        assert (s, e') in rest;
      }
    }
  }

  /** Every qualifying run is listed by the scan, and its chunk is the one the scan sees. */
  lemma RunListed(blob: seq<Byte>, s: nat, e: nat) returns (k: nat)
    requires Qualifies(blob, s, e)
    ensures k < |Runs(blob, ScanStart)| && Runs(blob, ScanStart)[k] == (s, e)
    ensures Chunks(blob, Runs(blob, ScanStart))[k] == RunChunk(blob, s, e)
  {
    RunsSpec(blob, ScanStart);
    var runs := Runs(blob, ScanStart);
    k :| 0 <= k < |runs| && runs[k] == (s, e);
  }

  /** The scan finds nothing exactly when no run qualifies. */
  lemma ScanNoneSpec(blob: seq<Byte>)
    ensures ScanForUtf8Run(blob).None? <==> forall s: nat, e: nat :: !Qualifies(blob, s, e)
  {
    var runs := Runs(blob, ScanStart);
    var cs := Chunks(blob, runs);
    var j := LongestSpec(cs, []);
    RunsSpec(blob, ScanStart);
    if j >= 0 {
      assert Qualifies(blob, runs[j].0, runs[j].1);
    } else {
      forall s: nat, e: nat
        ensures !Qualifies(blob, s, e)
      {
        if Qualifies(blob, s, e) {
          var k := RunListed(blob, s, e);
        }
      }
    }
  }

  /** When the scan finds text, it is the chunk of a qualifying run, at least as long as
      every qualifying chunk and strictly longer than those of earlier runs. */
  lemma ScanSomeSpec(blob: seq<Byte>) returns (s: nat, e: nat)
    requires ScanForUtf8Run(blob).Some?
    ensures Qualifies(blob, s, e) && ScanForUtf8Run(blob).value == RunChunk(blob, s, e)
    ensures forall s': nat, e': nat :: Qualifies(blob, s', e') ==>
              && |RunChunk(blob, s', e')| <= |RunChunk(blob, s, e)|
              && (s' < s ==> |RunChunk(blob, s', e')| < |RunChunk(blob, s, e)|)
  {
    var runs := Runs(blob, ScanStart);
    var cs := Chunks(blob, runs);
    var j := LongestSpec(cs, []);
    RunsAreRuns(blob, j, j);
    s, e := runs[j].0, runs[j].1;
    assert cs[j] == RunChunk(blob, s, e);
    forall s': nat, e': nat | Qualifies(blob, s', e')
      ensures |RunChunk(blob, s', e')| <= |cs[j]| && (s' < s ==> |RunChunk(blob, s', e')| < |cs[j]|)
    {
      var k := RunListed(blob, s', e');
      if s' < s {
        RunsAreRuns(blob, j, k);
      }
    }
  }

  /** Two listed runs are runs, and they are listed in the order they start. */
  lemma RunsAreRuns(blob: seq<Byte>, j: nat, k: nat)
    requires j < |Runs(blob, ScanStart)| && k < |Runs(blob, ScanStart)|
    ensures var r := Runs(blob, ScanStart); IsRun(blob, r[j].0, r[j].1) && IsRun(blob, r[k].0, r[k].1)
    ensures var r := Runs(blob, ScanStart); r[k].0 < r[j].0 ==> k < j
  {
    RunListedIsRun(blob, j);
    RunListedIsRun(blob, k);
    if j < k {
      RunsOrdered(blob, j, k);
    }
  }

  lemma RunListedIsRun(blob: seq<Byte>, j: nat)
    requires j < |Runs(blob, ScanStart)|
    ensures IsRun(blob, Runs(blob, ScanStart)[j].0, Runs(blob, ScanStart)[j].1)
  {
    RunsSpec(blob, ScanStart);
  }

  lemma RunsOrdered(blob: seq<Byte>, j: nat, k: nat)
    requires j < k < |Runs(blob, ScanStart)|
    ensures Runs(blob, ScanStart)[j].0 < Runs(blob, ScanStart)[k].0
  {
    RunsSpec(blob, ScanStart);
  }

  // ----- What a run decodes to -----

  /** The ASCII bytes of `b`, as characters; every other byte dropped. */
  function AsciiOnly(b: seq<Byte>): (r: string)
    ensures forall i :: 0 <= i < |r| ==> r[i] < '\U{80}'
  {
    if b == [] then []
    else (if b[0] < 0x80 then [AsciiChar(b[0])] else []) + AsciiOnly(b[1..])
  }

  /** A run holds no continuation byte, so the lenient decoder drops each byte >= 0xC0 on
      its own and keeps exactly the ASCII bytes. */
  lemma {:induction false} RunDecodesToAscii(b: seq<Byte>)
    requires forall i :: 0 <= i < |b| ==> IsRunByte(b[i])
    ensures DecodeLossy(b, []) == AsciiOnly(b)
    ensures forall i :: 0 <= i < |DecodeLossy(b, [])| ==>
              IsPlainAscii(DecodeLossy(b, [])[i])
    decreases |b|
  {
    if b != [] {
      RunDecodesToAscii(b[1..]);
      if b[0] < 0x80 {
        assert DecodeFirst(b) == Some((AsciiChar(b[0]), 1));
      } else {
        assert DecodeFirst(b).None?;
        assert ErrorLength(b) == 1;
      }
    }
  }

  lemma {:induction false} CountPrintableAll(s: string)
    requires forall i :: 0 <= i < |s| ==> IsPrintable(s[i]) || s[i] in "\n\r\t"
    ensures CountPrintable(s) == |s|
  {
    if s != [] {
      CountPrintableAll(s[1..]);
    }
  }

  /** Printable ASCII, tab, LF or CR: what a run decodes to. */
  predicate IsPlainAscii(c: char) {
    (' ' <= c <= '~') || c == '\t' || c == '\n' || c == '\r'
  }

  /** Text made only of printable ASCII, tab, LF and CR looks like text once stripped,
      unless stripping leaves nothing. */
  lemma PrintableStripLooksLikeText(d: string)
    requires forall i :: 0 <= i < |d| ==> IsPlainAscii(d[i])
    ensures LooksLikeText(Strip(d)) <==> Strip(d) != []
  {
    StripAll(d, IsPlainAscii);
    PlainLooksLikeText(Strip(d));
  }

  /** Plain ASCII without whitespace at its start looks like text unless it is empty. */
  lemma PlainLooksLikeText(c: string)
    requires forall i :: 0 <= i < |c| ==> IsPlainAscii(c[i])
    requires c == [] || !IsSpace(c[0])
    ensures LooksLikeText(c) <==> c != []
  {
    forall k | 0 <= k < |c|
      ensures IsPrintable(c[k]) || c[k] in "\n\r\t"
    {
    }
    CountPrintableAll(c);
  }

  /** For a run, the printable-ratio test passes exactly when the chunk is not empty. */
  lemma RunChunkLooksLikeText(blob: seq<Byte>, s: nat, e: nat)
    requires IsRun(blob, s, e)
    ensures LooksLikeText(RunChunk(blob, s, e)) <==> RunChunk(blob, s, e) != []
  {
    RunDecodesToAscii(blob[s..e]);
    PrintableStripLooksLikeText(DecodeLossy(blob[s..e], []));
  }

  /** The bytes before the scan start never influence where the runs are. */
  lemma {:induction false} RunsIgnoreHeader(b1: seq<Byte>, b2: seq<Byte>, i: nat)
    requires |b1| == |b2| && ScanStart <= i
    requires forall k :: ScanStart <= k < |b1| ==> b1[k] == b2[k]
    ensures Runs(b1, i) == Runs(b2, i)
    decreases |b1| - i
  {
    if i < |b1| {
      RunEndAgrees(b1, b2, i);
      RunsIgnoreHeader(b1, b2, RunEnd(b1, i) + 1);
    }
  }

  lemma {:induction false} RunEndAgrees(b1: seq<Byte>, b2: seq<Byte>, i: nat)
    requires |b1| == |b2| && ScanStart <= i <= |b1|
    requires forall k :: ScanStart <= k < |b1| ==> b1[k] == b2[k]
    ensures RunEnd(b1, i) == RunEnd(b2, i)
    decreases |b1| - i
  {
    if i < |b1| {
      RunEndAgrees(b1, b2, i + 1);
    }
  }

  /** Two blobs that differ only in their first 50 bytes scan alike. */
  lemma ScanIgnoresHeader(b1: seq<Byte>, b2: seq<Byte>)
    requires |b1| == |b2|
    requires |b1| <= ScanStart || b1[ScanStart..] == b2[ScanStart..]
    ensures ScanForUtf8Run(b1) == ScanForUtf8Run(b2)
  {
    if |b1| > ScanStart {
      assert forall k :: ScanStart <= k < |b1| ==> b1[k] == b1[ScanStart..][k - ScanStart];
    }
    RunsIgnoreHeader(b1, b2, ScanStart);
    var runs := Runs(b1, ScanStart);
    forall k | 0 <= k < |runs|
      ensures b1[runs[k].0..runs[k].1] == b2[runs[k].0..runs[k].1]
    {
    }
    assert Chunks(b1, runs) == Chunks(b2, runs);
  }

  // ----- Cleaning -----

  /** Cleaned text holds none of the removed characters, has no whitespace at either
      end, and consists of characters of the original. */
  lemma CleanSpec(text: string)
    ensures forall i :: 0 <= i < |Clean(text)| ==> Clean(text)[i] !in CleanedOut
    ensures Clean(text) == [] || (!IsSpace(Clean(text)[0]) && !IsSpace(Clean(text)[|Clean(text)| - 1]))
    ensures forall i :: 0 <= i < |Clean(text)| ==> Clean(text)[i] in text
  {
    var kept := RemoveChars(text, CleanedOut);
    StripChars(kept);
    forall i | 0 <= i < |Clean(text)|
      ensures Clean(text)[i] in text
    {
      var c := Clean(text)[i];
      RemoveCharsCounts(text, CleanedOut, c);
      assert c in multiset(kept);
    }
  }

  /** Cleaning clean text changes nothing; in particular cleaning is idempotent. */
  lemma CleanIdempotent(s: string)
    ensures Clean(Clean(s)) == Clean(s)
  {
    var c := Clean(s);
    RemoveCharsAbsent(c, CleanedOut);
    StripKeeps(c);
  }

  // ----- The extractor end to end -----

  /** A blob carrying `s` the way the typedstream writer lays out a string object. */
  function StringBlob(s: string): seq<Byte>
    requires 1 <= |Encode(s)| <= MaxPayload
  {
    ImmutableMarker + [0x01, 0x2B] + EncodeLength(|Encode(s)|) + Encode(s)
  }

  lemma StringBlobShape(s: string)
    requires 1 <= |Encode(s)| <= MaxPayload
    ensures |StringBlob(s)| >= 12 && OccursAt(StringBlob(s), ImmutableMarker, 0)
    ensures IsControlAt(StringBlob(s), 8) && 8 < WindowEnd(StringBlob(s), 8)
  {
    var blob := StringBlob(s);
    var rest: seq<Byte> := [0x01, 0x2B] + EncodeLength(|Encode(s)|) + Encode(s);
    assert blob == ImmutableMarker + rest;
    assert blob[0..8] == ImmutableMarker;
    assert blob[8] == rest[0] && blob[9] == rest[1];
  }

  lemma LocateMarkerAtStart(blob: seq<Byte>)
    requires OccursAt(blob, ImmutableMarker, 0)
    ensures LocateMarker(blob) == Some(|ImmutableMarker|)
  {
  }

  lemma ParseAfterMarkerAt(blob: seq<Byte>, start: nat)
    requires start < WindowEnd(blob, start) && IsControlAt(blob, start)
    ensures ParseAfterMarker(blob, start) == ReadLengthPrefixed(blob, start + 2)
  {
    ParseAfterMarkerSpec(blob, start);
  }

  lemma ReadStringBlob(s: string)
    requires 1 <= |Encode(s)| <= MaxPayload
    ensures ReadLengthPrefixed(StringBlob(s), |ImmutableMarker| + 2) == Some(s)
  {
    var blob := StringBlob(s);
    var n := |Encode(s)|;
    var head := ImmutableMarker + [0x01, 0x2B];
    assert blob == head + EncodeLength(n) + Encode(s);
    LengthPrefixEncodeLength(head, n, Encode(s));
    var lp := (n, 10 + |EncodeLength(n)|);
    assert LengthPrefix(blob, 10) == Some(lp);
    assert Payload(blob, lp) == Encode(s);
    DecodeEncode(s);
  }

  lemma MarkerTextFound(blob: seq<Byte>, t: string)
    requires MarkerText(blob) == Some(t) && t != []
    ensures ExtractText(Some(blob)) == Some(Clean(t))
  {
  }

  /** The extractor recovers (the cleaned form of) every string stored after an `NSString` marker. */
  lemma ExtractStringBlob(s: string)
    requires 1 <= |Encode(s)| <= MaxPayload
    ensures ExtractText(Some(StringBlob(s))) == Some(Clean(s))
  {
    var blob := StringBlob(s);
    StringBlobShape(s);
    LocateMarkerAtStart(blob);
    ParseAfterMarkerAt(blob, 8);
    ReadStringBlob(s);
    assert MarkerText(blob) == Some(s);
    MarkerTextFound(blob, s);
  }

  /** The worked example: marker, `01 2B`, length 5 and the bytes of "hello". */
  lemma ExtractHello()
    ensures ExtractText(Some(ImmutableMarker + [0x01, 0x2B, 0x05, 0x68, 0x65, 0x6C, 0x6C, 0x6F]))
            == Some("hello")
  {
    EncodeHello();
    ExtractStringBlob("hello");
    CleanHello();
  }

  lemma EncodeHello()
    ensures Encode("hello") == [0x68, 0x65, 0x6C, 0x6C, 0x6F]
    ensures StringBlob("hello") == ImmutableMarker + [0x01, 0x2B, 0x05, 0x68, 0x65, 0x6C, 0x6C, 0x6F]
  {
    var h := "hello";
    assert h[1..][1..][1..][1..][1..] == [];
  }

  lemma CleanHello()
    ensures Clean("hello") == "hello"
  {
    var h := "hello";
    assert forall i :: 0 <= i < |h| ==> 'a' <= h[i] <= 'z';
    assert h[0] == 'h' && h[|h| - 1] == 'o';
    CleanKeeps(h);
  }

  /** Text without removed characters and without whitespace at either end is clean. */
  lemma CleanKeeps(s: string)
    requires forall i :: 0 <= i < |s| ==> s[i] !in CleanedOut
    requires s == [] || (!IsSpace(s[0]) && !IsSpace(s[|s| - 1]))
    ensures Clean(s) == s
  {
    RemoveCharsAbsent(s, CleanedOut);
    StripKeeps(s);
  }

  /** A stored string that cleaning empties (blanks, say) is found and reported as "",
      not as absent. */
  lemma ExtractBlankIsEmpty(s: string)
    requires 1 <= |Encode(s)| <= MaxPayload
    requires Clean(s) == ""
    ensures ExtractText(Some(StringBlob(s))) == Some("")
  {
    ExtractStringBlob(s);
  }

  /** No marker and no qualifying run: nothing is extracted. */
  lemma ExtractNothing(blob: seq<Byte>)
    requires forall k :: !OccursAt(blob, ImmutableMarker, k) && !OccursAt(blob, MutableMarker, k)
    requires forall s: nat, e: nat :: !Qualifies(blob, s, e)
    ensures ExtractText(Some(blob)) == None
  {
    LocateMarkerSpec(blob);
    ScanNoneSpec(blob);
  }

  /** Whatever the extractor returns is clean: none of the removed characters and no
      whitespace at either end. */
  lemma ExtractTextClean(blob: Option<seq<Byte>>)
    ensures ExtractText(blob).Some? ==>
              var t := ExtractText(blob).value;
              && (forall i :: 0 <= i < |t| ==> t[i] !in CleanedOut)
              && (t == [] || (!IsSpace(t[0]) && !IsSpace(t[|t| - 1])))
  {
    if ExtractText(blob).Some? {
      var raw := ExtractedFrom(blob);
      CleanSpec(raw);
    }
  }

  /** A successful extraction is the cleaning of some raw text. */
  lemma ExtractedFrom(blob: Option<seq<Byte>>) returns (raw: string)
    requires ExtractText(blob).Some?
    ensures ExtractText(blob).value == Clean(raw)
  {
    var marked := MarkerText(blob.value);
    if marked.Some? && marked.value != [] {
      raw := marked.value;
    } else {
      raw := ScanForUtf8Run(blob.value).value;
    }
  }

  /** Extraction fails only when both strategies do. */
  lemma ExtractNoneMeansBothFailed(blob: seq<Byte>)
    requires blob != []
    requires ExtractText(Some(blob)) == None
    ensures MarkerText(blob).None? && ScanForUtf8Run(blob).None?
  {
    MarkerTextNonEmpty(blob);
  }

  /** Strategy 1 never yields the empty string. */
  lemma MarkerTextNonEmpty(blob: seq<Byte>)
    ensures MarkerText(blob).Some? ==> MarkerText(blob).value != []
  {
    match LocateMarker(blob) {
      case Some(start) =>
        match FindControl(blob, start, WindowEnd(blob, start)) {
          case Some(p) => ReadLengthPrefixedSpec(blob, p + 2);
          case None =>
        }
      case None =>
    }
  }
}

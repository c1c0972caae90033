/**
  The Python logic `server/database.py` applies to what its SQL queries
  return, for the conversation list and the attachment records. Each query
  result is an input: a sequence of typed rows, or `None` where `fetchone`
  found nothing. The calendar values SQLite computes in local time arrive
  ready-made on the rows.
 */
module Database {
  import opened Optional
  import opened Utf8
  import opened Text
  import opened Decimal
  import opened Sorting
  import opened PercentDecoding
  import MessageParser

  // ----- Text and time -----

  /** The characters `_sanitize_text` deletes: NUL and SOH. */
  const SanitizedOut: set<char> := {'\0', '\U{1}'}

  /** `_sanitize_text`: `None` stays `None`; otherwise NUL and SOH are removed. (The
      surrogate round trip that follows cannot change a string of scalar values.) */
  function SanitizeText(text: Option<string>): (r: Option<string>)
    ensures r.None? <==> text.None?
  {
    match text
    case None => None
    case Some(t) => Some(RemoveChars(t, SanitizedOut))
  }

  /** Seconds between the Unix epoch and Apple's, 2001-01-01 00:00:00 UTC. */
  const AppleEpochOffset: int := 978307200

  /** Apple timestamps count nanoseconds. */
  const Nanoseconds: int := 1_000_000_000

  /** `apple_ts_to_unix`, in exact arithmetic: `None` for a missing or zero timestamp. */
  function AppleToUnix(ts: Option<int>): (r: Option<real>)
    ensures r.None? <==> ts.None? || ts.value == 0
  {
    if ts.None? || ts.value == 0 then None
    else Some(ts.value as real / Nanoseconds as real + AppleEpochOffset as real)
  }

  // ----- The years of a conversation -----

  /** The pieces of a split that `if y` keeps. */
  function NonEmpty(pieces: seq<string>): (r: seq<string>)
    ensures forall i :: 0 <= i < |r| ==> r[i] != []
  {
    if pieces == [] then []
    else (if pieces[0] != [] then [pieces[0]] else []) + NonEmpty(pieces[1..])
  }

  /** `[int(y) for y in pieces]`: `None` where `int` raises. */
  function ParseAll(pieces: seq<string>): Option<seq<int>> {
    MapAll(ParseInt, pieces)
  }

  /** The sort key that puts larger years first. */
  function Negate(y: int): int {
    -y
  }

  /** `sorted([int(y) for y in (years or "").split(",") if y], reverse=True)`. */
  function ParseYears(concat: Option<string>): (r: Option<seq<int>>)
  {
    match ParseAll(NonEmpty(Split(OrElse(concat, ""), ',')))
    case None => None
    case Some(ys) => Some(SortBy(ys, Negate))
  }

  // ----- Conversation summaries -----

  /** A row of the `chat` table. */
  datatype ChatRow = ChatRow(id: int, displayName: Option<string>, style: Option<int>, identifier: Option<string>)

  /** The newest message of a conversation on the day. */
  datatype LastMessage = LastMessage(text: Option<string>, body: Option<seq<Byte>>)

  /** One conversation of `get_conversations_on_day`, with the results of its per-chat
      queries: the message count and `GROUP_CONCAT` of years, the newest date, the
      handles, and the newest message (if the query found one). */
  datatype DayRow = DayRow(
    chat: ChatRow, messageCount: int, years: Option<string>, lastDate: Option<int>,
    handles: seq<string>, last: Option<LastMessage>)

  /** A conversation as the list endpoint returns it (the date as Unix seconds). */
  datatype Summary = Summary(
    chatId: int, displayName: string, handles: seq<string>, isGroup: bool,
    messageCount: int, years: seq<int>, preview: string, lastDate: Option<real>)

  /** The chat style of group conversations. */
  const GroupStyle: int := 43

  /** `(style or 0) == 43`. */
  function IsGroup(style: Option<int>): (r: bool)
    ensures r <==> style == Some(GroupStyle)
  {
    style.GetOr(0) == GroupStyle
  }

  /** `display_name or chat_identifier or ""`. */
  function DisplayName(chat: ChatRow): string {
    OrElse(chat.displayName, OrElse(chat.identifier, ""))
  }

  /** The longest preview. */
  const PreviewLength: nat := 100

  /** `s[:n]`. */
  function Take(s: string, n: nat): (r: string)
    ensures r <= s
    ensures |r| == if |s| < n then |s| else n
  {
    if |s| <= n then s else s[..n]
  }

  /** The preview text: the text column when non-empty, else what the extractor finds in a
      non-empty body, else the (missing or empty) text. */
  function PreviewSource(m: LastMessage): Option<string> {
    if m.text.Some? && m.text.value != [] then m.text
    else if m.body.Some? && m.body.value != [] then MessageParser.ExtractText(m.body)
    else m.text
  }

  /** `(preview or "")[:100]`. */
  function Preview(last: Option<LastMessage>): (r: string)
    ensures |r| <= PreviewLength
  {
    var p := if last.Some? then OrElse(PreviewSource(last.value), "") else "";
    Take(p, PreviewLength)
  }

  /** One entry of the conversation list; `None` where parsing the years raises. */
  function Summarize(row: DayRow): (r: Option<Summary>)
    ensures r.Some? <==> ParseYears(row.years).Some?
  {
    match ParseYears(row.years)
    case None => None
    case Some(years) =>
      Some(Summary(row.chat.id, DisplayName(row.chat), row.handles, IsGroup(row.chat.style),
                   row.messageCount, years, Preview(row.last), AppleToUnix(row.lastDate)))
  }

  /** The post-query part of `get_conversations_on_day`: one summary per row, in order;
      `None` where parsing some row's years raises. */
  function ConversationsOnDay(rows: seq<DayRow>): Option<seq<Summary>> {
    MapAll(Summarize, rows)
  }

  // ----- Attachments -----

  /** A row of the attachment query of `_get_attachments_for_message`. */
  datatype AttachmentRow = AttachmentRow(id: int, filename: Option<string>, mimeType: Option<string>, transferName: Option<string>)

  /** An attachment as the timeline returns it. */
  datatype Attachment = Attachment(id: int, filename: string, mimeType: Option<string>, url: string)

  /** The route attachments are served from. */
  const AttachmentRoute: string := "/api/attachments/"

  /** `f"/api/attachments/{id}"`. */
  function AttachmentUrl(id: int): string {
    AttachmentRoute + IntToString(id)
  }

  /** `transfer_name or filename or "attachment"`. */
  function AttachmentName(row: AttachmentRow): string {
    OrElse(row.transferName, OrElse(row.filename, "attachment"))
  }

  function AttachmentRecord(row: AttachmentRow): Attachment {
    Attachment(row.id, AttachmentName(row), row.mimeType, AttachmentUrl(row.id))
  }

  /** `_get_attachments_for_message`: one record per row, in order. */
  function Attachments(rows: seq<AttachmentRow>): (r: seq<Attachment>)
    ensures |r| == |rows|
  {
    seq(|rows|, k requires 0 <= k < |rows| => AttachmentRecord(rows[k]))
  }

  /** The row `get_attachment_path` reads. */
  datatype AttachmentFile = AttachmentFile(filename: Option<string>, mimeType: Option<string>)

  /** `get_attachment_path`, with the home directory as a parameter: `(None, None)` without
      a row or a filename; otherwise every `~` replaced by the home directory, then
      percent-decoded, with the MIME type. */
  function AttachmentPath(row: Option<AttachmentFile>, home: string): (r: (Option<string>, Option<string>))
  {
    if row.None? || OrElse(row.value.filename, "") == [] then (None, None)
    else (Some(Unquote(ReplaceChar(row.value.filename.value, '~', home))), row.value.mimeType)
  }

  // ----- Properties: text and time -----

  /** `_sanitize_text` leaves no NUL or SOH and keeps every other character as often as it
      occurs. */
  lemma SanitizeTextSpec(text: string, c: char)
    ensures var r := SanitizeText(Some(text)).value;
      && (forall i :: 0 <= i < |r| ==> r[i] != '\0' && r[i] != '\U{1}')
      && (c !in SanitizedOut ==> multiset(r)[c] == multiset(text)[c])
  {
    if c !in SanitizedOut {
      RemoveCharsCounts(text, SanitizedOut, c);
    }
  }

  /** Sanitizing twice is sanitizing once. */
  lemma SanitizeTextIdempotent(text: Option<string>)
    ensures SanitizeText(SanitizeText(text)) == SanitizeText(text)
  {
    if text.Some? {
      RemoveCharsAbsent(RemoveChars(text.value, SanitizedOut), SanitizedOut);
    }
  }

  /** A later timestamp never converts to an earlier date. Only this non-strict order holds
      for the source's floating-point division as well: timestamps a few nanoseconds apart
      may round to the same value there. */
  lemma AppleToUnixMonotone(a: int, b: int)
    requires a != 0 && b != 0 && a <= b
    ensures AppleToUnix(Some(a)).value <= AppleToUnix(Some(b)).value
  {
  }

  // ----- Properties: years -----

  /** Parsing succeeds exactly when every piece is an integer, and keeps their values in order. */
  lemma ParseAllSpec(pieces: seq<string>)
    ensures ParseAll(pieces).Some? <==> forall i :: 0 <= i < |pieces| ==> ParseInt(pieces[i]).Some?
    ensures ParseAll(pieces).Some? ==>
      && |ParseAll(pieces).value| == |pieces|
      && forall i :: 0 <= i < |pieces| ==> ParseAll(pieces).value[i] == ParseInt(pieces[i]).value
  {
    MapAllSpec(ParseInt, pieces);
  }

  /** The year list is sorted from the newest year down and holds exactly the parsed years. */
  lemma ParseYearsSpec(concat: Option<string>)
    ensures var r := ParseYears(concat);
      r.Some? <==> ParseAll(NonEmpty(Split(OrElse(concat, ""), ','))).Some?
    ensures var r := ParseYears(concat);
      r.Some? ==>
        && multiset(r.value) == multiset(ParseAll(NonEmpty(Split(OrElse(concat, ""), ','))).value)
        && forall i, j :: 0 <= i < j < |r.value| ==> r.value[i] >= r.value[j]
  {
    var parsed := ParseAll(NonEmpty(Split(OrElse(concat, ""), ',')));
    if parsed.Some? {
      var r := SortBy(parsed.value, Negate);
      assert SortedBy(r, Negate);
      assert forall i, j :: 0 <= i < j < |r| ==> Negate(r[i]) <= Negate(r[j]);
    }
  }

  /** Distinct parsed years come out strictly descending. */
  lemma ParseYearsDistinct(concat: Option<string>)
    requires ParseAll(NonEmpty(Split(OrElse(concat, ""), ','))).Some?
    requires var p := ParseAll(NonEmpty(Split(OrElse(concat, ""), ','))).value;
      forall i, j :: 0 <= i < j < |p| ==> p[i] != p[j]
    ensures ParseYears(concat).Some?
    ensures var r := ParseYears(concat).value; forall i, j :: 0 <= i < j < |r| ==> r[i] > r[j]
  {
    var p := ParseAll(NonEmpty(Split(OrElse(concat, ""), ','))).value;
    assert DistinctKeys(p, Negate);
    SortByDistinct(p, Negate);
    SortedDistinctIsStrict(SortBy(p, Negate), Negate);
  }

  /** `str(y)` for each year. */
  function Render(ys: seq<int>): (r: seq<string>)
    ensures |r| == |ys|
  {
    seq(|ys|, i requires 0 <= i < |ys| => IntToString(ys[i]))
  }

  /** A rendered integer holds no comma. */
  lemma IntToStringNoComma(y: int)
    ensures ',' !in IntToString(y)
  {
    var d := NatToString(if y < 0 then -y else y);
    assert forall i :: 0 <= i < |d| ==> IsDigit(d[i]);
    if y < 0 {
      assert IntToString(y) == "-" + d;
    }
  }

  /** Reading back rendered years gives the years. */
  lemma ParseAllRendered(ys: seq<int>)
    ensures ParseAll(Render(ys)) == Some(ys)
  {
    forall i | 0 <= i < |ys|
      ensures ParseInt(Render(ys)[i]) == Some(ys[i])
    {
      ParseIntToString(ys[i]);
    }
    ParseAllSpec(Render(ys));
    assert ParseAll(Render(ys)).value == ys;
  }

  /** `NonEmpty` keeps a list of non-empty pieces whole. */
  lemma {:induction false} NonEmptyKeeps(pieces: seq<string>)
    requires forall i :: 0 <= i < |pieces| ==> pieces[i] != []
    ensures NonEmpty(pieces) == pieces
  {
    if pieces != [] {
      NonEmptyKeeps(pieces[1..]);
      assert [pieces[0]] + pieces[1..] == pieces;
    }
  }

  /** Years joined with commas, as `GROUP_CONCAT` delivers them, parse back to the same
      years, newest first. */
  lemma ParseYearsRendered(ys: seq<int>)
    ensures ParseYears(Some(Join(Render(ys), ","))) == Some(SortBy(ys, Negate))
  {
    var pieces := Render(ys);
    if ys == [] {
      assert Join(pieces, ",") == [];
      assert Split([], ',') == [[]];
    } else {
      forall i | 0 <= i < |pieces|
        ensures ',' !in pieces[i] && pieces[i] != []
      {
        IntToStringNoComma(ys[i]);
      }
      SplitJoin(pieces, ',');
      NonEmptyKeeps(pieces);
      ParseAllRendered(ys);
    }
  }

  // ----- Properties: summaries -----

  /** The display name falls back from the chat's name to its identifier to "". */
  lemma DisplayNameSpec(chat: ChatRow)
    ensures chat.displayName.Some? && chat.displayName.value != [] ==> DisplayName(chat) == chat.displayName.value
    ensures (chat.displayName.None? || chat.displayName.value == []) && chat.identifier.Some? ==>
              DisplayName(chat) == chat.identifier.value
    ensures (chat.displayName.None? || chat.displayName.value == []) && chat.identifier.None? ==>
              DisplayName(chat) == ""
  {
  }

  /** No newest message: an empty preview. */
  lemma PreviewNone()
    ensures Preview(None) == ""
  {
  }

  /** A non-empty text column gives the preview: its first 100 characters. */
  lemma PreviewFromText(m: LastMessage)
    requires m.text.Some? && m.text.value != []
    ensures Preview(Some(m)) <= m.text.value
    ensures |Preview(Some(m))| == if |m.text.value| < PreviewLength then |m.text.value| else PreviewLength
  {
  }

  /** Without text, a non-empty body gives the preview through the extractor. */
  lemma PreviewFromBody(m: LastMessage)
    requires m.text.None? || m.text.value == []
    requires m.body.Some? && m.body.value != []
    ensures var t := MessageParser.ExtractText(m.body);
      && (t.Some? ==> Preview(Some(m)) <= t.value)
      && (t.Some? ==> |Preview(Some(m))| == if |t.value| < PreviewLength then |t.value| else PreviewLength)
      && (t.None? ==> Preview(Some(m)) == "")
  {
  }

  /** Without text or body, the preview is empty. */
  lemma PreviewEmpty(m: LastMessage)
    requires m.text.None? || m.text.value == []
    requires m.body.None? || m.body.value == []
    ensures Preview(Some(m)) == ""
  {
  }

  /** A summary carries the chat, its group flag, its years newest first and a bounded
      preview. */
  lemma SummarizeSpec(row: DayRow)
    requires Summarize(row).Some?
    ensures var s := Summarize(row).value;
      && s.chatId == row.chat.id
      && (s.isGroup <==> row.chat.style == Some(GroupStyle))
      && s.handles == row.handles
      && s.messageCount == row.messageCount
      && |s.preview| <= PreviewLength
      && (s.lastDate.None? <==> row.lastDate.None? || row.lastDate.value == 0)
      && forall i, j :: 0 <= i < j < |s.years| ==> s.years[i] >= s.years[j]
  {
    ParseYearsSpec(row.years);
  }

  /** The list succeeds exactly when every row's years parse, and keeps the rows' order. */
  lemma ConversationsOnDaySpec(rows: seq<DayRow>)
    ensures ConversationsOnDay(rows).Some? <==> forall i :: 0 <= i < |rows| ==> ParseYears(rows[i].years).Some?
    ensures ConversationsOnDay(rows).Some? ==>
      && |ConversationsOnDay(rows).value| == |rows|
      && forall i :: 0 <= i < |rows| ==> ConversationsOnDay(rows).value[i] == Summarize(rows[i]).value
  {
    MapAllSpec(Summarize, rows);
  }

  // ----- Properties: attachments -----

  /** The URL is the route followed by the id, which the route reads back. */
  lemma AttachmentUrlSpec(id: int)
    ensures AttachmentRoute <= AttachmentUrl(id)
    ensures ParseInt(AttachmentUrl(id)[|AttachmentRoute|..]) == Some(id)
  {
    assert AttachmentUrl(id)[|AttachmentRoute|..] == IntToString(id);
    ParseIntToString(id);
  }

  /** The name falls back from the transfer name to the filename to "attachment"; it is
      never empty. */
  lemma AttachmentNameSpec(row: AttachmentRow)
    ensures AttachmentName(row) != []
    ensures row.transferName.Some? && row.transferName.value != [] ==> AttachmentName(row) == row.transferName.value
    ensures (row.transferName.None? || row.transferName.value == []) && row.filename.Some? && row.filename.value != [] ==>
              AttachmentName(row) == row.filename.value
    ensures (row.transferName.None? || row.transferName.value == []) && (row.filename.None? || row.filename.value == []) ==>
              AttachmentName(row) == "attachment"
  {
  }

  /** Each record keeps its row's id and MIME type, has a non-empty name and a URL that
      reads back as the id. */
  lemma AttachmentsSpec(rows: seq<AttachmentRow>)
    ensures forall k :: 0 <= k < |rows| ==>
              var a := Attachments(rows)[k];
              && a.id == rows[k].id && a.mimeType == rows[k].mimeType && a.filename != []
              && AttachmentRoute <= a.url && ParseInt(a.url[|AttachmentRoute|..]) == Some(rows[k].id)
  {
    forall k | 0 <= k < |rows|
      ensures var a := Attachments(rows)[k];
              && a.id == rows[k].id && a.mimeType == rows[k].mimeType && a.filename != []
              && AttachmentRoute <= a.url && ParseInt(a.url[|AttachmentRoute|..]) == Some(rows[k].id)
    {
      AttachmentNameSpec(rows[k]);
      AttachmentUrlSpec(rows[k].id);
    }
  }

  /** No path without a row and a non-empty filename; then there is no MIME type either. */
  lemma AttachmentPathMissing(row: Option<AttachmentFile>, home: string)
    ensures AttachmentPath(row, home).0.None? <==>
      row.None? || row.value.filename.None? || row.value.filename.value == []
    ensures AttachmentPath(row, home).0.None? ==> AttachmentPath(row, home).1.None?
    ensures AttachmentPath(row, home).0.Some? ==> AttachmentPath(row, home).1 == row.value.mimeType
  {
  }

  /** Every `~` is expanded when nothing is percent-escaped. */
  lemma AttachmentPathExpands(filename: string, mime: Option<string>, home: string)
    requires filename != [] && '%' !in filename && '%' !in home
    ensures AttachmentPath(Some(AttachmentFile(Some(filename), mime)), home).0 == Some(ReplaceChar(filename, '~', home))
  {
  }

  /** A filename without `~` or `%` is the path itself. */
  lemma AttachmentPathPlain(filename: string, mime: Option<string>, home: string)
    requires filename != [] && '%' !in filename && '~' !in filename
    ensures AttachmentPath(Some(AttachmentFile(Some(filename), mime)), home).0 == Some(filename)
  {
  }

  /** Percent-encoding adds no `~`. */
  lemma {:induction false} PercentEncodeNoTilde(name: string)
    requires '~' !in name
    ensures '~' !in PercentEncode(name)
  {
    if name != [] {
      PercentEncodeNoTilde(name[1..]);
      PercentBytesNoTilde(EncodeChar(name[0]));
      assert PercentEncode(name) == (if IsAscii(name[0]) && name[0] != '%' then [name[0]] else PercentBytes(EncodeChar(name[0]))) + PercentEncode(name[1..]);
    }
  }

  /** Escapes are `%` and hex digits. */
  lemma {:induction false} PercentBytesNoTilde(b: seq<Byte>)
    ensures '~' !in PercentBytes(b)
  {
    if b != [] {
      PercentBytesNoTilde(b[1..]);
    }
  }

  /** A percent-encoded filename without `~` comes back decoded. */
  lemma AttachmentPathDecodes(name: string, mime: Option<string>, home: string)
    requires name != [] && '~' !in name
    ensures AttachmentPath(Some(AttachmentFile(Some(PercentEncode(name)), mime)), home).0 == Some(name)
  {
    PercentEncodeNoTilde(name);
    UnquotePercentEncode(name);
  }

  /** `~` is expanded before anything is decoded, so an escaped `~` comes out as a literal
      `~` and not as the home directory. */
  lemma AttachmentPathEscapedTilde(mime: Option<string>, home: string)
    ensures AttachmentPath(Some(AttachmentFile(Some("%7E"), mime)), home).0 == Some("~")
  {
    var s := "%7E";
    assert s[0] == '%' && s[1] == '7' && s[2] == 'E' && |s| == 3;
    assert ReplaceChar(s, '~', home) == s;
    UnquoteTilde(s);
  }

  /** The escape `%7E` decodes to `~`. */
  lemma UnquoteTilde(s: string)
    requires s == "%7E"
    ensures Unquote(s) == "~"
  {
    assert s[0] == '%' && s[1] == '7' && s[2] == 'E' && |s| == 3;
    UnquoteRunsAscii(s);
    assert s[3..] == [];
    TildeDecodes();
  }

  /** The byte 0x7E is the UTF-8 encoding of `~`. */
  lemma TildeDecodes()
    ensures DecodeLossy([0x7E], Replacement) == "~"
  {
    var b: seq<Byte> := [0x7E];
    assert DecodeFirst(b) == Some(('~', 1));
    assert b[1..] == [];
  }
}

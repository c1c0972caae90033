/**
  The post-query part of `get_messages_for_chat_on_day` in
  `server/database.py`. The message rows of one chat on one day are split into
  reactions (tapbacks), retracted reactions and messages. The reactions are
  indexed by the guid of the message they answer. The messages, each with its
  tapbacks and attachments, are grouped by year.
 */
module Timeline {
  import opened Optional
  import opened Utf8
  import opened Text
  import opened Sorting
  import opened Database
  import MessageParser

  /** One row of the day's message query. The query runs `ORDER BY m.date ASC`. Each row
      carries what later queries return for it: its own guid (`None` when that query
      finds no row or a NULL guid) and its attachment rows. `year` is the local-time
      calendar year SQLite computes for the message date. */
  datatype MessageRow = MessageRow(
    id: int, text: Option<string>, body: Option<seq<Byte>>, isFromMe: Option<int>,
    date: Option<int>, dateRead: Option<int>,
    associatedGuid: Option<string>, associatedType: Option<int>,
    handle: Option<string>, year: int, guid: Option<string>,
    attachments: seq<AttachmentRow>)

  /** A reaction as the index stores it. */
  datatype Reaction = Reaction(kind: int, fromMe: bool)

  /** A reaction as a message carries it. */
  datatype Tapback = Tapback(kind: int, emoji: string, fromMe: bool)

  /** A message of the timeline. The dates are Unix seconds; `sender` is not set here. */
  datatype Message = Message(
    id: int, text: Option<string>, isFromMe: bool, date: Option<real>, dateRead: Option<real>,
    year: int, handle: Option<string>, attachments: seq<Attachment>, tapbacks: seq<Tapback>)

  datatype YearGroup = YearGroup(year: int, messages: seq<Message>)

  /** What `get_messages_for_chat_on_day` returns for a chat it finds. */
  datatype ChatTimeline = ChatTimeline(
    chatId: int, displayName: string, handles: seq<string>, isGroup: bool, groups: seq<YearGroup>)

  // ----- Classification -----

  datatype RowKind = ReactionRow | RetractionRow | PrimaryRow

  /** The first reaction type and the last. */
  const FirstReaction: int := 2000
  const LastReaction: int := 2005

  /** Types from here up retract a reaction. */
  const FirstRetraction: int := 3000

  /** `associated_message_type or 0`. */
  function AssociatedType(row: MessageRow): int {
    row.associatedType.GetOr(0)
  }

  /** Types 2000..2005 are reactions, 3000 and above retractions, all others messages. */
  function Classify(row: MessageRow): RowKind {
    var t := AssociatedType(row);
    if FirstReaction <= t <= LastReaction then ReactionRow
    else if t >= FirstRetraction then RetractionRow
    else PrimaryRow
  }

  /** `bool(is_from_me)`, with NULL false. */
  function FromMe(flag: Option<int>): bool {
    flag.Some? && flag.value != 0
  }

  // ----- Reaction guids -----

  /** The prefixes a reaction's guid may carry, tried in this order. */
  const GuidPrefixes: seq<string> := ["p:0/", "p:1/", "bp:"]

  /** The guid of the message a reaction answers: NULL as "", without the first of the
      prefixes it starts with (only that one). */
  function StripGuidPrefix(guid: Option<string>): string {
    var g := OrElse(guid, "");
    if GuidPrefixes[0] <= g then g[|GuidPrefixes[0]|..]
    else if GuidPrefixes[1] <= g then g[|GuidPrefixes[1]|..]
    else if GuidPrefixes[2] <= g then g[|GuidPrefixes[2]|..]
    else g
  }

  /** Reactions by the guid they answer. */
  type ReactionIndex = map<string, seq<Reaction>>

  /** `index.get(guid, [])`. */
  function Get(index: ReactionIndex, guid: string): seq<Reaction> {
    if guid in index then index[guid] else []
  }

  /** `tapbacks_by_guid.setdefault(guid, []).append(...)` for a reaction row. */
  function AddReaction(index: ReactionIndex, row: MessageRow): ReactionIndex {
    if Classify(row) == ReactionRow then
      var g := StripGuidPrefix(row.associatedGuid);
      index[g := Get(index, g) + [Reaction(AssociatedType(row), FromMe(row.isFromMe))]]
    else index
  }

  /** The index after reading every row in order. */
  function IndexReactions(rows: seq<MessageRow>): ReactionIndex
    decreases |rows|
  {
    if rows == [] then map[] else AddReaction(IndexReactions(rows[..|rows| - 1]), rows[|rows| - 1])
  }

  /** The messages in order. */
  function Primaries(rows: seq<MessageRow>): (r: seq<MessageRow>)
    ensures forall k :: 0 <= k < |r| ==> Classify(r[k]) == PrimaryRow
    decreases |rows|
  {
    if rows == [] then []
    else Primaries(rows[..|rows| - 1]) + (if Classify(rows[|rows| - 1]) == PrimaryRow then [rows[|rows| - 1]] else [])
  }

  // ----- Emoji -----

  /** `TAPBACK_EMOJI.get(kind, "")`, with each emoji as the characters it names: red heart,
      thumbs up, thumbs down, face with tears of joy, double exclamation mark, question
      mark (with the emoji variation selector where the table has one). */
  function Emoji(kind: int): string {
    if kind == 2000 then "\U{2764}\U{FE0F}"
    else if kind == 2001 then "\U{1F44D}"
    else if kind == 2002 then "\U{1F44E}"
    else if kind == 2003 then "\U{1F602}"
    else if kind == 2004 then "\U{203C}\U{FE0F}"
    else if kind == 2005 then "\U{2753}"
    else ""
  }

  /** The table as `server/database.py` spells it, as the code points of each Python
      literal. The entries for 2001..2003 are written as UTF-16 surrogate pairs in `\u`
      escapes, which a Python string keeps as two lone surrogates instead of one emoji. */
  function EmojiAsWritten(kind: int): seq<int> {
    if kind == 2000 then [0x2764, 0xFE0F]
    else if kind == 2001 then [0xD83D, 0xDC4D]
    else if kind == 2002 then [0xD83D, 0xDC4E]
    else if kind == 2003 then [0xD83D, 0xDE02]
    else if kind == 2004 then [0x203C, 0xFE0F]
    else if kind == 2005 then [0x2753]
    else []
  }

  /** The bytes the JSON response sends for a string of code points: each scalar value in
      UTF-8, and "?" for each surrogate (`encode("utf-8", errors="replace")`). */
  function ResponseBytes(cps: seq<int>): seq<Byte> {
    if cps == [] then []
    else (if IsScalar(cps[0]) then EncodeChar(cps[0] as char) else [0x3F]) + ResponseBytes(cps[1..])
  }

  /** The code points of a string. */
  function CodePoints(s: string): (r: seq<int>)
    ensures |r| == |s|
  {
    seq(|s|, i requires 0 <= i < |s| => s[i] as int)
  }

  /** UTF-16 decoding of code units: a high surrogate followed by a low one is one code point. */
  function CombineSurrogates(units: seq<int>): seq<int> {
    if units == [] then []
    else if |units| >= 2 && 0xD800 <= units[0] <= 0xDBFF && 0xDC00 <= units[1] <= 0xDFFF then
      [0x1_0000 + (units[0] - 0xD800) * 0x400 + (units[1] - 0xDC00)] + CombineSurrogates(units[2..])
    else [units[0]] + CombineSurrogates(units[1..])
  }

  // ----- Messages -----

  /** The message text: sanitized text if non-empty, else what the extractor finds in a
      non-empty body, else the (missing or empty) sanitized text. */
  function MessageText(row: MessageRow): Option<string> {
    var text := SanitizeText(row.text);
    if (text.None? || text.value == []) && row.body.Some? && row.body.value != [] then
      MessageParser.ExtractText(row.body)
    else text
  }

  /** The tapbacks of a message: none without a guid, else the indexed reactions. */
  function Tapbacks(index: ReactionIndex, guid: Option<string>): (r: seq<Tapback>)
    ensures guid.None? ==> r == []
  {
    match guid
    case None => []
    case Some(g) =>
      var rs := Get(index, g);
      seq(|rs|, k requires 0 <= k < |rs| => Tapback(rs[k].kind, Emoji(rs[k].kind), rs[k].fromMe))
  }

  function BuildMessage(index: ReactionIndex, row: MessageRow): Message {
    Message(row.id, MessageText(row), FromMe(row.isFromMe), AppleToUnix(row.date),
            AppleToUnix(row.dateRead), row.year, row.handle, Attachments(row.attachments),
            Tapbacks(index, row.guid))
  }

  function BuildMessages(index: ReactionIndex, rows: seq<MessageRow>): (r: seq<Message>)
    ensures |r| == |rows|
  {
    seq(|rows|, k requires 0 <= k < |rows| => BuildMessage(index, rows[k]))
  }

  // ----- Year groups -----

  /** The position of the group for `year`, or `|groups|` when there is none. */
  function FindYear(groups: seq<YearGroup>, year: int): (k: nat)
    ensures k <= |groups|
    ensures k < |groups| ==> groups[k].year == year
    ensures forall j :: 0 <= j < k ==> groups[j].year != year
  {
    if groups == [] then 0
    else if groups[0].year == year then 0
    else 1 + FindYear(groups[1..], year)
  }

  /** `year_groups.setdefault(year, []).append(msg)`: the dict, in insertion order. */
  function AddToGroups(groups: seq<YearGroup>, m: Message): seq<YearGroup> {
    var k := FindYear(groups, m.year);
    if k < |groups| then groups[k := YearGroup(m.year, groups[k].messages + [m])]
    else groups + [YearGroup(m.year, [m])]
  }

  /** The dict after every message, in order. */
  function CollectGroups(msgs: seq<Message>): seq<YearGroup>
    decreases |msgs|
  {
    if msgs == [] then [] else AddToGroups(CollectGroups(msgs[..|msgs| - 1]), msgs[|msgs| - 1])
  }

  function GroupYear(g: YearGroup): int {
    g.year
  }

  /** `sorted(year_groups.items())`: the groups by ascending year. */
  function GroupByYear(msgs: seq<Message>): seq<YearGroup> {
    SortBy(CollectGroups(msgs), GroupYear)
  }

  // ----- The timeline -----

  /** The post-query part of `get_messages_for_chat_on_day`: `None` for an unknown chat. */
  function MessagesForChatOnDay(chat: Option<ChatRow>, handles: seq<string>, rows: seq<MessageRow>): (r: Option<ChatTimeline>)
    ensures r.None? <==> chat.None?
  {
    match chat
    case None => None
    case Some(c) =>
      var index := IndexReactions(rows);
      var msgs := BuildMessages(index, Primaries(rows));
      Some(ChatTimeline(c.id, DisplayName(c), handles, IsGroup(c.style), GroupByYear(msgs)))
  }
}

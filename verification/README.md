# On-this-day iMessage server: the pure core, in Dafny

This project models the three pieces of pure logic inside a small server that shows the
iMessage conversations of one calendar day across the years:

- **The `attributedBody` extractor** (`server/message_parser.py`). It recovers the plain
  text of a message from its typedstream blob. First it finds the `NSString` (else
  `NSMutableString`) class name. It then looks for the `0x01 0x2B` pair within 20 bytes and
  reads the length-prefixed UTF-8 payload after it. The length prefix is one byte, `0x81`
  plus one byte, or `0x84` plus four big-endian bytes. If that fails, it scans from offset
  50 for the longest run of text-like bytes. Either way, the result is cleaned. Modules
  `MessageParser` and `MessageParserLemmas`. UTF-8 follows RFC 3629 and lives in module
  `Utf8`.
- **Contact-name resolution** (`server/contacts.py`). Phone numbers are normalized to
  their last ten digits, and handles are resolved against the contact cache. The cache is
  built from the AddressBook rows, and here it is a plain `map`. A classifier spots display
  names that are raw phone numbers or chat identifiers. Conversation titles join up to
  four names. Module `Contacts`.
- **The post-query logic of `server/database.py`**:
  - the conversation list: the year list from `GROUP_CONCAT`, the preview, the group flag
    and the display-name fallback (module `Database`);
  - the timeline of one chat: reaction classification, guid prefix stripping, reaction
    emoji, and grouping by year (modules `Timeline` and `TimelineLemmas`);
  - attachment records and attachment paths. The percent-decoding of paths follows
    section 2.1 of RFC 3986, as Python's `urllib.parse.unquote` does, and lives in module
    `PercentDecoding`.

Each SQL query result is an input: a sequence of typed rows, or `None` where `fetchone`
finds nothing. The calendar year SQLite computes in local time arrives ready-made on each
row. Helper modules hold what Python's `str` and `int` provide: `Text`, `Decimal`,
`Sorting` (a stable insertion sort with a permutation contract) and `Optional`.

Each operation has a partner, stated in a lemma:

- UTF-8 decoding inverts encoding, in both directions.
- Reading a length prefix inverts writing one.
- `unquote` inverts a percent-encoder.
- `int()` inverts `str()` on the attachment URL and on the year list.
- The tapbacks, the year groups and the fallback scan are each checked against an
  independent reference definition.

When cleaning empties a string it found, the extractor returns `""` rather than `None`
(`MessageParserLemmas.ExtractBlankIsEmpty`). The one place where the model departs from
the code on purpose is the tapback emoji table. The timeline carries the intended emoji,
and the table as written is modelled separately (see "## Findings").

## Model

| member | source | states |
|---|---|---|
| MessageParser.ExtractText | server/message_parser.py:18-19 | An absent or empty blob yields `None`. |
| MessageParser.FindSpec | server/message_parser.py:24-28 | `find` returns the first offset at or after the start where the pattern occurs, or `None` when it occurs nowhere there. |
| MessageParser.LocateMarkerSpec | server/message_parser.py:24-29 | If `NSString` occurs, the text starts right after its first occurrence. `NSMutableString` is searched only when `NSString` occurs nowhere, and then it is found exactly when it occurs. |
| MessageParser.LengthPrefix | server/message_parser.py:62-80 | Each case of the length decoding. A lead byte 1..0x7F is the length, with the payload at pos+1. `0x81` reads the next byte when pos+1 is inside the blob, with the payload at pos+2. `0x84` reads four big-endian bytes when pos+4 is inside, with the payload at pos+5. Any other lead byte, or pos at or past the end, gives `None`. |
| MessageParser.LengthPrefixEncodeLength | server/message_parser.py:65-80 | Reading back a length written in the shortest of the three forms gives that length and the payload offset just after it. |
| MessageParser.ReadLengthPrefixedSpec | server/message_parser.py:82-90 | A string is read exactly when all of these hold: the prefix parses, 1 <= length <= 100000, the payload lies inside the blob, and the payload is valid UTF-8. The string then encodes back to exactly that payload, and it is never empty. |
| MessageParser.FindControlSpec | server/message_parser.py:52-54 | The search for `0x01 0x2B` returns the first matching position in the window, or none when no position there matches. |
| MessageParser.ParseAfterMarkerSpec | server/message_parser.py:52-57 | Only the first pair in [start, min(start+20, len-2)) is read, with no further scanning after a failed read. No pair in the window gives `None`. |
| MessageParser.RunEndSpec | server/message_parser.py:99-104 | The inner loop stops at the first byte that is not a run byte: 0x20..0x7E, tab, LF, CR or >= 0xC0. |
| MessageParser.ScanForUtf8Run | server/message_parser.py:113 | The scan never returns an empty string: nothing found is `None`. |
| MessageParserLemmas.RunAt | server/message_parser.py:97-105 | At a run start, the inner loop finds a maximal run, and no other run starts before that run ends. |
| MessageParserLemmas.RunsSpec | server/message_parser.py:96-112 | The outer loop visits exactly the maximal runs at or after offset 50, in order. |
| MessageParserLemmas.LongestSpec | server/message_parser.py:108-109 | The kept chunk is strictly longer than every earlier qualifying chunk and at least as long as every later one, so the earliest wins ties. |
| MessageParserLemmas.ScanNoneSpec | server/message_parser.py:93-113 | The scan finds nothing exactly when no run qualifies. |
| MessageParserLemmas.ScanSomeSpec | server/message_parser.py:93-113 | A scan result is the chunk of a qualifying run. No qualifying run has a longer chunk, and every earlier one has a strictly shorter chunk. |
| MessageParserLemmas.RunDecodesToAscii | server/message_parser.py:101-107 | Lenient decoding of a run drops every byte >= 0xC0 (a run holds no continuation bytes) and keeps the rest as plain ASCII. |
| MessageParserLemmas.RunChunkLooksLikeText | server/message_parser.py:116-121 | The printable-ratio test passes for a run's chunk exactly when the chunk is non-empty. |
| MessageParserLemmas.ScanIgnoresHeader | server/message_parser.py:96 | Bytes before offset 50 never affect the scan. |
| MessageParserLemmas.CleanSpec | server/message_parser.py:124-130 | Cleaned text has no U+FFFC, NUL or SOH, and no leading or trailing whitespace. Every character it keeps comes from the input. |
| MessageParserLemmas.CleanIdempotent | server/message_parser.py:124-130 | Cleaning twice is cleaning once. |
| MessageParserLemmas.ReadStringBlob | server/message_parser.py:60-90 | A string written after the marker as `01 2B`, length and UTF-8 bytes is read back exactly. |
| MessageParserLemmas.ExtractStringBlob | server/message_parser.py:24-32 | For every string of 1..100000 UTF-8 bytes stored after `NSString`, the extractor returns its cleaned form. |
| MessageParserLemmas.ExtractHello | server/message_parser.py:4-32 | The worked example: marker, `01 2B`, `05` and "hello" yields "hello". |
| MessageParserLemmas.ExtractBlankIsEmpty | server/message_parser.py:29-32 | Any stored string of 1 to 100000 bytes that cleaning empties is found and returned as `""`, not `None`. |
| MessageParserLemmas.ExtractNothing | server/message_parser.py:34-42 | With neither marker and no qualifying run, the result is `None`. |
| MessageParserLemmas.ExtractTextClean | server/message_parser.py:29-37 | Whatever the extractor returns is clean. |
| MessageParserLemmas.ExtractNoneMeansBothFailed | server/message_parser.py:29-42 | For a non-empty blob, `None` means both strategies failed. |
| Utf8.DecodeEncode | server/message_parser.py:88 | Strict decoding of a string's UTF-8 encoding gives the string back. |
| Utf8.EncodeDecode | server/message_parser.py:88 | Strictly decodable bytes are the encoding of what they decode to. |
| Utf8.LossyAgreesWithStrict | server/message_parser.py:107 | On valid UTF-8, lenient decoding agrees with strict decoding. |
| Contacts.NormalizePhone | server/contacts.py:13-18 | The result is all digits and at most 10 long. |
| Contacts.NormalizePhoneSpec | server/contacts.py:15-18 | The result is the last min(10, n) of the input's n digits. |
| Contacts.NormalizePhoneIdempotent | server/contacts.py:15-18 | Normalizing a normalized number changes nothing. |
| Contacts.NormalizePhoneIgnoresNonDigit | server/contacts.py:15 | Inserting a non-digit anywhere leaves the normal form unchanged. |
| Contacts.NormalizePhoneSameTail | server/contacts.py:16-17 | Numbers whose digits end in the same ten digits normalize alike. |
| Contacts.NormalizeLocalNumber | server/contacts.py:13-18 | "555-2671" gives "5552671", with no padding. |
| Contacts.NormalizeNorthAmericanNumber | server/contacts.py:13-18 | "+1 (AAA) EEE-LLLL" gives "AAAEEELLLL". |
| Contacts.BuildCacheGood | server/contacts.py:60-90 | Every cache entry has a non-empty lower-case key and a non-empty name with no surrounding whitespace. |
| Contacts.BuildCacheLastWins | server/contacts.py:60-90 | A row with a name and a non-empty key is what the cache holds under that key, unless a later row overwrites it. |
| Contacts.ResolveName | server/contacts.py:101-122 | An empty handle is returned unchanged. Otherwise the result is the handle or a name stored in the cache. An e-mail miss, or a phone miss or digit-less handle, returns the handle. |
| Contacts.ResolveEmailUsesLowerOnly | server/contacts.py:109-113 | An e-mail handle's result depends only on the cache entry at its lower-cased form, never on phone normalization. |
| Contacts.ResolveEmailIgnoresCase | server/contacts.py:109-113 | E-mail handles that differ only in case resolve to the same stored name. |
| Contacts.ResolvePhoneByNormalized | server/contacts.py:116-120 | Phone handles with the same non-empty normal form resolve to the same stored name. |
| Contacts.ResolveAfterLoad | server/contacts.py:101-122 | After loading, a handle whose key is a row's key, with no later row overwriting it, resolves to that row's name. |
| Contacts.IdentifierHasPlusOrDigit | server/contacts.py:125-138 | A non-empty identifier-like name, once stripped, starts with "+" or contains a digit. |
| Contacts.LetterNameIsNotIdentifier | server/contacts.py:125-138 | A name whose stripped form starts with none of "+", "c", a digit or phone punctuation is not an identifier. |
| Contacts.PlusIsIdentifier | server/contacts.py:130-132 | A leading "+" after stripping makes an identifier. |
| Contacts.PunctuatedDigitsIsIdentifier | server/contacts.py:133-134 | A name whose stripped form is all digits once "-", "(", ")" and spaces are removed is an identifier. |
| Contacts.ChatDigitsIsIdentifier | server/contacts.py:136-137 | "chat" followed by one or more digits is an identifier. |
| Contacts.ChatAloneIsNotIdentifier | server/contacts.py:136-138 | "chat" alone is not an identifier. |
| Contacts.EmptyIsIdentifier | server/contacts.py:127-128 | The empty name is an identifier. |
| Contacts.ResolveConversationName | server/contacts.py:141-158 | A real display name is kept. With no display name and no handles the title is "Unknown". A one-to-one title is its first handle's resolution. |
| Contacts.ConversationNameNoHandles | server/contacts.py:147-153 | With no handles, an identifier-like display name gives its own resolution, or itself when that resolution is unchanged. |
| Contacts.GroupTitleShort | server/contacts.py:155-157 | A group of 1..4 handles is titled by their resolved names joined with ", ". |
| Contacts.GroupTitleLong | server/contacts.py:155-157 | A group of more than 4 handles is titled exactly by the first four resolved names joined with ", ", followed by "...". |
| Contacts.GroupTitleFirstFour | server/contacts.py:157 | A large group's title depends only on its first four handles. |
| Database.SanitizeTextSpec | server/database.py:14-19 | The result has no NUL or SOH, and every other character occurs as often as in the input. |
| Database.SanitizeTextIdempotent | server/database.py:14-19 | Sanitizing twice is sanitizing once. |
| Database.AppleToUnix | server/database.py:30-34 | A missing or zero timestamp is `None`, and only those are. |
| Database.AppleToUnixMonotone | server/database.py:34 | A later timestamp never converts to an earlier date (the non-strict order, which floating-point rounding also keeps). |
| Database.ParseYearsSpec | server/database.py:78-79 | The year list is the non-empty comma-separated pieces parsed as integers, in descending order and as a permutation. It is `None` exactly where `int()` would raise. |
| Database.ParseYearsDistinct | server/database.py:79 | When the parsed pieces hold no year twice, parsing succeeds and the years come out strictly descending. |
| Database.ParseYearsRendered | server/database.py:78-79 | Parsing the comma-joined decimal forms of any years gives those years sorted descending. |
| Database.IsGroup | server/database.py:116 | A chat is a group exactly when its style (NULL counting as 0) is 43. |
| Database.DisplayNameSpec | server/database.py:117 | The display name falls back from `display_name` to `chat_identifier` to "". |
| Database.PreviewNone | server/database.py:109-126 | No newest message gives the preview "". |
| Database.PreviewFromText | server/database.py:109-126 | A non-empty text column gives a preview that is its first min(100, length) characters. |
| Database.PreviewFromBody | server/database.py:109-126 | Without text, a non-empty body gives the first min(100, length) characters of the extracted text, or "" when extraction fails. |
| Database.PreviewEmpty | server/database.py:109-126 | With no text and no body, the preview is "". |
| Database.SummarizeSpec | server/database.py:76-128 | A summary keeps the chat id, handles and count. Its group flag is style 43, its preview is at most 100 characters, its date is `None` exactly for a missing or zero date, and its years are descending. |
| Database.ConversationsOnDaySpec | server/database.py:75-130 | The list has one summary per row, in order. It is `None` exactly when some row's years do not parse. |
| Database.AttachmentNameSpec | server/database.py:299 | The filename falls back from `transfer_name` to `filename` to "attachment", and is never empty. |
| Database.AttachmentUrlSpec | server/database.py:304 | The URL is `/api/attachments/` followed by a decimal form that reads back as the id. |
| Database.AttachmentsSpec | server/database.py:297-306 | Each record keeps its row's id and MIME type, has a non-empty name, and has a URL that reads back as the id. |
| Database.AttachmentPathMissing | server/database.py:317-318 | No path exactly when the row or its filename is missing or empty, and then no MIME type either. Otherwise the row's MIME type is returned. |
| Database.AttachmentPathExpands | server/database.py:319 | Without escapes, every `~` becomes the home directory. |
| Database.AttachmentPathPlain | server/database.py:319-322 | A filename with neither `~` nor `%` is returned as it is. |
| Database.AttachmentPathDecodes | server/database.py:319-322 | A percent-encoded filename without `~` comes back decoded. |
| Database.AttachmentPathEscapedTilde | server/database.py:319-322 | `%7E` becomes a literal `~`, not the home directory, because expansion runs before decoding. |
| PercentDecoding.UnquoteIsRuns | server/database.py:322 | `unquote`'s early return for strings without `%` is only a shortcut and gives the same result. |
| PercentDecoding.UnquotePercentEncode | server/database.py:321-322 | `unquote` inverts percent-encoding of UTF-8 bytes, for every string. |
| Timeline.MessagesForChatOnDay | server/database.py:147-148 | An unknown chat gives `None`, and a known one never does. |
| TimelineLemmas.ClassifyNull | server/database.py:195 | A NULL type counts as 0, so the row is a message. |
| TimelineLemmas.ClassifyBetween | server/database.py:195-212 | Types 2006..2999 are messages. |
| TimelineLemmas.StripGuidPrefixAdded | server/database.py:198-203 | A guid that starts with one of `p:0/`, `p:1/` or `bp:` loses exactly that prefix. |
| TimelineLemmas.StripGuidPrefixPlain | server/database.py:198-203 | A guid with none of the prefixes is kept, and NULL becomes "". |
| TimelineLemmas.IndexReactionsSpec | server/database.py:194-207 | The index entry for a guid is exactly the reaction rows whose stripped guid matches, in row order. |
| TimelineLemmas.ReactionsToKinds | server/database.py:196 | Every indexed reaction has a type in 2000..2005. |
| TimelineLemmas.TapbacksSpec | server/database.py:237-248 | A message's tapbacks are its indexed reactions in order: type, sender flag, and that type's non-empty emoji. |
| TimelineLemmas.IndexIgnoresRetractions | server/database.py:208-210 | Removing the retraction rows leaves the reaction index unchanged. |
| TimelineLemmas.PrimariesIgnoreRetractions | server/database.py:208-212 | Removing the retraction rows leaves the message list unchanged. |
| TimelineLemmas.RetractionsIgnored | server/database.py:208-210 | Removing the retraction rows leaves the whole timeline unchanged. |
| TimelineLemmas.MessageTextSpec | server/database.py:229-231 | The text is the sanitized text when non-empty, else the extracted text of a non-empty body. It never holds NUL or SOH. |
| TimelineLemmas.CollectGroupsSpec | server/database.py:225-263 | The `setdefault` loop keeps one group per year. Each group holds exactly that year's messages in input order, and every message's year has a group. |
| TimelineLemmas.GroupByYearSpec | server/database.py:263-268 | The groups are in strictly ascending year order. Each holds exactly its year's messages in input order and is non-empty, and every message's year has a group. |
| TimelineLemmas.OfYearMembers | server/database.py:263 | Every message in the group for a year has that year and is one of the day's messages. |
| TimelineLemmas.MessagesForChatOnDaySpec | server/database.py:147-276 | A known chat's timeline has its id, display-name fallback, handles and group flag. Its groups are the year grouping of the built messages. |
| TimelineLemmas.LikedAsWrittenIsQuestionMarks | server/database.py:217 | As written, the "liked" emoji reaches the client as the two bytes "??". |
| TimelineLemmas.DislikedLaughedAsWrittenAreQuestionMarks | server/database.py:218-219 | As written, the "disliked" and "laughed" emoji also reach the client as "??". |
| TimelineLemmas.ResponseBytesOfString | server/routes/messages.py:20 | For a string of scalar values, the response encoding is plain UTF-8. |
| TimelineLemmas.EmojiIntended | server/database.py:215-222 | Each emoji the model uses is the UTF-16 decoding of the table's code units, and it reaches the client as its UTF-8 encoding. |

## Left out

- The SQL text, joins, `GROUP_CONCAT` and `ORDER BY`, and opening and closing connections. Each query result is an input row sequence, already in the order the query gives it.
- The local-time calendar (`strftime(... 'localtime')`, `datetime.fromtimestamp`). The year on each message row is an integer input, and `unix_to_iso` (server/database.py:37-41) is not modelled. Dates stay exact Unix seconds as `real`, where the source uses floating point.
- The message-guid query of the timeline loop. Its result is an input field on each row, with `None` for no row or a NULL guid.
- AddressBook discovery and reads in `load_contacts`: the glob, the file checks, SQLite, the per-database `try`, and the `_loaded` flag. The cache is built from an input row sequence (`Contacts.BuildCache`) and passed explicitly.
- Exceptions. Every function is total, and `None` stands where the source catches an exception and returns `None`, or where `int()` would raise.
- The `sender` field of a message, which is always `None` in this code. The routes, JSON encoding and HEIC conversion are also left out. The response encoding appears only in the emoji finding below.
- Timeline.Tapbacks: gives each reaction the intended emoji (`Timeline.Emoji`). It does not use the surrogate pairs written at server/database.py:217-219, which a Dafny string cannot hold and which the server sends as "??". That table is `Timeline.EmojiAsWritten`, and "## Findings" shows both.
- Database.AppleToUnix: computes in exact `real` arithmetic, where the source divides in floating point and rounds. So only the non-strict order (`Database.AppleToUnixMonotone`) is claimed, and not the exact inverse or the strict order.
- Text.Lower: lower-cases the ASCII letters only. `str.lower()` covers all of Unicode, so e-mail keys with non-ASCII capitals are folded differently. (Whitespace, `Text.IsSpace`, is Python's full set.)
- Text.IsDigit: ASCII digits only. `str.isdigit()` also accepts other Unicode digits.
- Contacts.NormalizePhone: `\D` and `isdigit` accept all Unicode decimal digits, but the model keeps only ASCII digits.
- MessageParser.IsPrintable: exact on ASCII. Above it, only the C1 controls, soft hyphen and non-ASCII whitespace count as unprintable, not the full Unicode category table.
- Decimal.ParseInt: accepts an optional `-` and ASCII digits only. `int()` also accepts surrounding whitespace, `+` and `_` separators, so the model returns `None` in cases where the source would parse.
- The surrogate round trip in `_clean` (server/message_parser.py:128) and `_sanitize_text` (server/database.py:19). Dafny strings hold scalar values only, so it is the identity here. Strict UTF-8 decoding and SQLite text never produce lone surrogates, so nothing is lost.
- `server/models.py`, `server/main.py`, `run.py` and `server/routes/conversations.py` are not part of this model.

## Findings

| source | as written | input that shows it | evidently intended | confidence | as-written member | corrected member |
|---|---|---|---|---|---|---|
| server/database.py:217-219 | The "liked", "disliked" and "laughed" emoji are written as UTF-16 surrogate pairs in `\u` escapes. A Python string keeps these as two lone surrogates each. | A reaction row of type 2001. The response encodes with `errors="replace"` (server/routes/messages.py:20), so its emoji arrives as the two bytes "??". | U+1F44D, U+1F44E and U+1F602, each sent as its 4-byte UTF-8 encoding. | not executed | TimelineLemmas.LikedAsWrittenIsQuestionMarks | TimelineLemmas.EmojiIntended |

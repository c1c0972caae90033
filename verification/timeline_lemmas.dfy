/** What the timeline promises: which rows become messages, which reactions each message
    carries, and how messages are grouped by year. */
module TimelineLemmas {
  import opened Optional
  import opened Utf8
  import opened Text
  import opened Sorting
  import opened Database
  import opened Timeline
  import MessageParser
  import MessageParserLemmas

  // ----- Message text -----

  /** The sanitized text when it is non-empty, else what the extractor finds in a non-empty
      body; either way the text carries no NUL and no SOH. */
  lemma MessageTextSpec(row: MessageRow)
    ensures row.text.Some? && RemoveChars(row.text.value, SanitizedOut) != [] ==>
              MessageText(row) == Some(RemoveChars(row.text.value, SanitizedOut))
    ensures (row.text.None? || RemoveChars(row.text.value, SanitizedOut) == []) && row.body.Some? && row.body.value != [] ==>
              MessageText(row) == MessageParser.ExtractText(row.body)
    ensures MessageText(row).Some? ==>
              forall i :: 0 <= i < |MessageText(row).value| ==> MessageText(row).value[i] !in SanitizedOut
  {
    MessageParserLemmas.ExtractTextClean(row.body);
  }

  // ----- Classification and guids -----

  /** A NULL type counts as 0: the row is a message. */
  lemma ClassifyNull(row: MessageRow)
    requires row.associatedType.None?
    ensures Classify(row) == PrimaryRow
  {
  }

  /** Types between the reactions and the retractions are messages too. */
  lemma ClassifyBetween(row: MessageRow)
    requires row.associatedType.Some? && LastReaction < row.associatedType.value < FirstRetraction
    ensures Classify(row) == PrimaryRow
  {
  }

  /** A prefixed guid loses exactly its prefix, even when more prefixes follow. */
  lemma StripGuidPrefixAdded(p: string, g: string)
    requires p in GuidPrefixes
    ensures StripGuidPrefix(Some(p + g)) == g
  {
    var s := p + g;
    assert s[..|p|] == p;
    if p == GuidPrefixes[1] {
      assert s[2] == '1';
    } else if p == GuidPrefixes[2] {
      assert s[0] == 'b';
    }
    assert s[|p|..] == g;
  }

  /** A guid with none of the prefixes is kept; a NULL guid is "". */
  lemma StripGuidPrefixPlain(g: string)
    requires forall p :: p in GuidPrefixes ==> !(p <= g)
    ensures StripGuidPrefix(Some(g)) == g
    ensures StripGuidPrefix(None) == ""
  {
    assert GuidPrefixes[0] in GuidPrefixes && GuidPrefixes[1] in GuidPrefixes && GuidPrefixes[2] in GuidPrefixes;
  }

  // ----- The reaction index -----

  /** Whether a row is a reaction to the message with guid `g`. */
  predicate ReactsTo(row: MessageRow, g: string) {
    Classify(row) == ReactionRow && StripGuidPrefix(row.associatedGuid) == g
  }

  /** The reaction a row records. */
  function ReactionOf(row: MessageRow): Reaction {
    Reaction(AssociatedType(row), FromMe(row.isFromMe))
  }

  /** Reference definition: the reactions to `g`, in row order. */
  function ReactionsTo(rows: seq<MessageRow>, g: string): seq<Reaction> {
    if rows == [] then []
    else (if ReactsTo(rows[0], g) then [ReactionOf(rows[0])] else []) + ReactionsTo(rows[1..], g)
  }

  /** The reference definition read from the end. */
  lemma {:induction false} ReactionsToSnoc(rows: seq<MessageRow>, g: string)
    requires rows != []
    ensures ReactionsTo(rows, g) ==
      ReactionsTo(rows[..|rows| - 1], g) + (if ReactsTo(rows[|rows| - 1], g) then [ReactionOf(rows[|rows| - 1])] else [])
  {
    if |rows| > 1 {
      ReactionsToSnoc(rows[1..], g);
      assert rows[1..][..|rows| - 2] == rows[..|rows| - 1][1..];
    }
  }

  /** The index holds, under each guid, exactly the reactions to it in row order. */
  lemma {:induction false} IndexReactionsSpec(rows: seq<MessageRow>, g: string)
    ensures Get(IndexReactions(rows), g) == ReactionsTo(rows, g)
    decreases |rows|
  {
    if rows != [] {
      IndexReactionsSpec(rows[..|rows| - 1], g);
      ReactionsToSnoc(rows, g);
    }
  }

  /** Every indexed reaction has a reaction type, so its emoji comes from the table. */
  lemma {:induction false} ReactionsToKinds(rows: seq<MessageRow>, g: string)
    ensures forall k :: 0 <= k < |ReactionsTo(rows, g)| ==>
      FirstReaction <= ReactionsTo(rows, g)[k].kind <= LastReaction
  {
    if rows != [] {
      ReactionsToKinds(rows[1..], g);
    }
  }

  /** A message with a guid carries one tapback per reaction to it, in row order, with the
      reaction's type, sender flag and emoji; the emoji is never empty. */
  lemma TapbacksSpec(rows: seq<MessageRow>, g: string)
    ensures var t := Tapbacks(IndexReactions(rows), Some(g));
      var rs := ReactionsTo(rows, g);
      && |t| == |rs|
      && forall k :: 0 <= k < |t| ==>
           && t[k].kind == rs[k].kind && t[k].fromMe == rs[k].fromMe
           && t[k].emoji == Emoji(rs[k].kind) && t[k].emoji != []
  {
    IndexReactionsSpec(rows, g);
    ReactionsToKinds(rows, g);
  }

  // ----- Retractions -----

  /** The rows without the retractions. */
  function WithoutRetractions(rows: seq<MessageRow>): seq<MessageRow>
    decreases |rows|
  {
    if rows == [] then []
    else WithoutRetractions(rows[..|rows| - 1])
         + (if Classify(rows[|rows| - 1]) == RetractionRow then [] else [rows[|rows| - 1]])
  }

  /** Retractions do not touch the index. */
  lemma {:induction false} IndexIgnoresRetractions(rows: seq<MessageRow>)
    ensures IndexReactions(WithoutRetractions(rows)) == IndexReactions(rows)
    decreases |rows|
  {
    if rows != [] {
      var init := rows[..|rows| - 1];
      var last := rows[|rows| - 1];
      IndexIgnoresRetractions(init);
      if Classify(last) != RetractionRow {
        var w := WithoutRetractions(init) + [last];
        assert WithoutRetractions(rows) == w;
        assert w[..|w| - 1] == WithoutRetractions(init);
        assert IndexReactions(w) == AddReaction(IndexReactions(WithoutRetractions(init)), last);
      } else {
        assert WithoutRetractions(rows) == WithoutRetractions(init);
        assert IndexReactions(rows) == AddReaction(IndexReactions(init), last) == IndexReactions(init);
      }
    }
  }

  /** Retractions never become messages. */
  lemma {:induction false} PrimariesIgnoreRetractions(rows: seq<MessageRow>)
    ensures Primaries(WithoutRetractions(rows)) == Primaries(rows)
    decreases |rows|
  {
    if rows != [] {
      var init := rows[..|rows| - 1];
      var last := rows[|rows| - 1];
      PrimariesIgnoreRetractions(init);
      if Classify(last) != RetractionRow {
        var w := WithoutRetractions(init) + [last];
        assert WithoutRetractions(rows) == w;
        assert w[..|w| - 1] == WithoutRetractions(init);
      } else {
        assert WithoutRetractions(rows) == WithoutRetractions(init);
        assert Primaries(rows) == Primaries(init) + [];
      }
    }
  }

  /** Dropping the retraction rows changes nothing in the timeline. */
  lemma RetractionsIgnored(chat: Option<ChatRow>, handles: seq<string>, rows: seq<MessageRow>)
    ensures MessagesForChatOnDay(chat, handles, WithoutRetractions(rows)) == MessagesForChatOnDay(chat, handles, rows)
  {
    IndexIgnoresRetractions(rows);
    PrimariesIgnoreRetractions(rows);
  }

  // ----- Year groups -----

  /** Reference definition: the messages of one year, in order. */
  function OfYear(msgs: seq<Message>, year: int): seq<Message>
    decreases |msgs|
  {
    if msgs == [] then []
    else OfYear(msgs[..|msgs| - 1], year) + (if msgs[|msgs| - 1].year == year then [msgs[|msgs| - 1]] else [])
  }

  /** A year no message has has no messages. */
  lemma {:induction false} OfYearAbsent(msgs: seq<Message>, year: int)
    requires forall i :: 0 <= i < |msgs| ==> msgs[i].year != year
    ensures OfYear(msgs, year) == []
    decreases |msgs|
  {
    if msgs != [] {
      OfYearAbsent(msgs[..|msgs| - 1], year);
    }
  }

  /** The groups collected so far: distinct years, each holding the messages of its year
      (at least one), and a group for every message's year. */
  ghost predicate Faithful(groups: seq<YearGroup>, msgs: seq<Message>) {
    && DistinctKeys(groups, GroupYear)
    && (forall k :: 0 <= k < |groups| ==>
          groups[k].messages == OfYear(msgs, groups[k].year) && groups[k].messages != [])
    && (forall i :: 0 <= i < |msgs| ==> exists k :: 0 <= k < |groups| && groups[k].year == msgs[i].year)
  }

  /** Appending a message to the group of its year. */
  lemma AddToExisting(groups: seq<YearGroup>, msgs: seq<Message>, m: Message, k: nat)
    requires Faithful(groups, msgs)
    requires k < |groups| && groups[k].year == m.year
    ensures Faithful(groups[k := YearGroup(m.year, groups[k].messages + [m])], msgs + [m])
  {
    var all := msgs + [m];
    var r := groups[k := YearGroup(m.year, groups[k].messages + [m])];
    assert all[..|all| - 1] == msgs;
    forall j | 0 <= j < |r|
      ensures r[j].messages == OfYear(all, r[j].year) && r[j].messages != []
    {
    }
    forall i | 0 <= i < |all|
      ensures exists j :: 0 <= j < |r| && r[j].year == all[i].year
    {
      if i < |msgs| {
        assert all[i] == msgs[i];
        var j :| 0 <= j < |groups| && groups[j].year == msgs[i].year;
        assert r[j].year == all[i].year;
      } else {
        assert r[k].year == all[i].year;
      }
    }
  }

  /** Opening a group for a message whose year has none. */
  lemma AddToNew(groups: seq<YearGroup>, msgs: seq<Message>, m: Message)
    requires Faithful(groups, msgs)
    requires forall j :: 0 <= j < |groups| ==> groups[j].year != m.year
    ensures Faithful(groups + [YearGroup(m.year, [m])], msgs + [m])
  {
    var all := msgs + [m];
    var r := groups + [YearGroup(m.year, [m])];
    assert all[..|all| - 1] == msgs;
    forall i | 0 <= i < |msgs|
      ensures msgs[i].year != m.year
    {
      var j :| 0 <= j < |groups| && groups[j].year == msgs[i].year;
    }
    OfYearAbsent(msgs, m.year);
    forall j | 0 <= j < |r|
      ensures r[j].messages == OfYear(all, r[j].year) && r[j].messages != []
    {
    }
    forall i | 0 <= i < |all|
      ensures exists j :: 0 <= j < |r| && r[j].year == all[i].year
    {
      if i < |msgs| {
        assert all[i] == msgs[i];
        var j :| 0 <= j < |groups| && groups[j].year == msgs[i].year;
        assert r[j].year == all[i].year;
      } else {
        assert r[|groups|].year == all[i].year;
      }
    }
  }

  /** Collecting keeps the groups faithful to the messages. */
  lemma {:induction false} CollectGroupsSpec(msgs: seq<Message>)
    ensures Faithful(CollectGroups(msgs), msgs)
    decreases |msgs|
  {
    if msgs != [] {
      var init := msgs[..|msgs| - 1];
      var m := msgs[|msgs| - 1];
      var groups := CollectGroups(init);
      CollectGroupsSpec(init);
      assert init + [m] == msgs;
      var k := FindYear(groups, m.year);
      if k < |groups| {
        AddToExisting(groups, init, m, k);
      } else {
        AddToNew(groups, init, m);
      }
    }
  }

  /** The year groups: strictly ascending years; each group holds exactly its year's
      messages in their original order; every message's year has a group. */
  lemma GroupByYearSpec(msgs: seq<Message>)
    ensures var r := GroupByYear(msgs);
      && (forall i, j :: 0 <= i < j < |r| ==> r[i].year < r[j].year)
      && (forall k :: 0 <= k < |r| ==> r[k].messages == OfYear(msgs, r[k].year) && r[k].messages != [])
      && (forall i :: 0 <= i < |msgs| ==> exists k :: 0 <= k < |r| && r[k].year == msgs[i].year)
  {
    var groups := CollectGroups(msgs);
    var r := SortBy(groups, GroupYear);
    CollectGroupsSpec(msgs);
    SortByDistinct(groups, GroupYear);
    SortedDistinctIsStrict(r, GroupYear);
    forall k | 0 <= k < |r|
      ensures r[k].messages == OfYear(msgs, r[k].year) && r[k].messages != []
    {
      SortByMember(groups, GroupYear, k);
    }
    forall i | 0 <= i < |msgs|
      ensures exists k :: 0 <= k < |r| && r[k].year == msgs[i].year
    {
      var j :| 0 <= j < |groups| && groups[j].year == msgs[i].year;
      SortByKeeps(groups, GroupYear, j);
    }
  }

  /** Every message of a year group has that year and is one of the messages. */
  lemma {:induction false} OfYearMembers(msgs: seq<Message>, year: int)
    ensures forall k :: 0 <= k < |OfYear(msgs, year)| ==>
      OfYear(msgs, year)[k].year == year && OfYear(msgs, year)[k] in msgs
    decreases |msgs|
  {
    if msgs != [] {
      OfYearMembers(msgs[..|msgs| - 1], year);
    }
  }

  /** The timeline of a known chat: its id, name and group flag, and its messages (one per
      primary row, in row order) grouped by strictly ascending year. */
  lemma MessagesForChatOnDaySpec(chat: ChatRow, handles: seq<string>, rows: seq<MessageRow>)
    ensures var t := MessagesForChatOnDay(Some(chat), handles, rows).value;
      var msgs := BuildMessages(IndexReactions(rows), Primaries(rows));
      && t.chatId == chat.id && t.displayName == DisplayName(chat) && t.handles == handles
      && (t.isGroup <==> chat.style == Some(GroupStyle))
      && (forall i, j :: 0 <= i < j < |t.groups| ==> t.groups[i].year < t.groups[j].year)
      && (forall k :: 0 <= k < |t.groups| ==> t.groups[k].messages == OfYear(msgs, t.groups[k].year))
      && (forall i :: 0 <= i < |msgs| ==> exists k :: 0 <= k < |t.groups| && t.groups[k].year == msgs[i].year)
  {
    GroupByYearSpec(BuildMessages(IndexReactions(rows), Primaries(rows)));
  }

  // ----- The tapback emoji -----

  /** As written, a "liked" tapback reaches the client as two question marks. */
  lemma LikedAsWrittenIsQuestionMarks()
    ensures ResponseBytes(EmojiAsWritten(2001)) == [0x3F, 0x3F]
  {
  }

  /** As written, "disliked" and "laughed" are lost the same way. */
  lemma DislikedLaughedAsWrittenAreQuestionMarks()
    ensures ResponseBytes(EmojiAsWritten(2002)) == [0x3F, 0x3F]
    ensures ResponseBytes(EmojiAsWritten(2003)) == [0x3F, 0x3F]
  {
  }

  /** The response sends a string of scalar values as its UTF-8 encoding. */
  lemma {:induction false} ResponseBytesOfString(s: string)
    ensures ResponseBytes(CodePoints(s)) == Encode(s)
  {
    if s != [] {
      ResponseBytesOfString(s[1..]);
      assert CodePoints(s)[1..] == CodePoints(s[1..]);
      assert (s[0] as int) as char == s[0];
    }
  }

  /** The emoji of the table are the literals read as UTF-16, and each reaches the client
      whole. */
  lemma EmojiIntended(kind: int)
    ensures CodePoints(Emoji(kind)) == CombineSurrogates(EmojiAsWritten(kind))
    ensures ResponseBytes(CodePoints(Emoji(kind))) == Encode(Emoji(kind))
  {
    ResponseBytesOfString(Emoji(kind));
  }
}

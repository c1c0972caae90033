/**
  Contact-name resolution of server/contacts.py: phone numbers and e-mail
  addresses are looked up in a cache built from the AddressBook rows, and a
  conversation is titled from its display name or from its participants.

  The cache is a parameter: the model of `load_contacts` builds it from the
  rows the AddressBook queries return, in the order they are read.
 */
module Contacts {
  import opened Optional
  import opened Text

  // ----- Phone numbers -----

  /** `re.sub(r"\D", "", s)`: the digits of `s`, in order. */
  function Digits(s: string): (r: string)
    ensures |r| <= |s|
    ensures forall i :: 0 <= i < |r| ==> IsDigit(r[i])
  {
    if s == [] then [] else (if IsDigit(s[0]) then [s[0]] else []) + Digits(s[1..])
  }

  /** The digits of a concatenation are the digits of the parts. */
  lemma {:induction false} DigitsAppend(a: string, b: string)
    ensures Digits(a + b) == Digits(a) + Digits(b)
  {
    if a == [] {
      assert a + b == b;
    } else {
      assert (a + b)[1..] == a[1..] + b;
      DigitsAppend(a[1..], b);
    }
  }

  /** A string of digits is its own digit string. */
  lemma {:induction false} DigitsOfDigits(s: string)
    requires forall i :: 0 <= i < |s| ==> IsDigit(s[i])
    ensures Digits(s) == s
  {
    if s != [] {
      DigitsOfDigits(s[1..]);
      assert s == [s[0]] + s[1..];
    }
  }

  /** `_normalize_phone`: the last ten digits of the number (all of them when there are fewer). */
  function NormalizePhone(phone: string): (r: string)
    ensures |r| <= 10
    ensures forall i :: 0 <= i < |r| ==> IsDigit(r[i])
  {
    var d := Digits(phone);
    if |d| > 10 then d[|d| - 10..] else d
  }

  /** The normalized number is the last min(10, n) of the n digits of the input. */
  lemma NormalizePhoneSpec(phone: string)
    ensures var r := NormalizePhone(phone); var d := Digits(phone);
            && |r| == (if |d| < 10 then |d| else 10)
            && r == d[|d| - |r|..]
  {
  }

  /** The normalized number depends only on the digits. */
  lemma NormalizeByDigits(p: string, q: string)
    requires Digits(p) == Digits(q)
    ensures NormalizePhone(p) == NormalizePhone(q)
  {
  }

  /** Normalizing a normalized number changes nothing. */
  lemma NormalizePhoneIdempotent(phone: string)
    ensures NormalizePhone(NormalizePhone(phone)) == NormalizePhone(phone)
  {
    DigitsOfDigits(NormalizePhone(phone));
  }

  /** Punctuation, spaces and letters do not affect the normalized number. */
  lemma NormalizePhoneIgnoresNonDigit(a: string, c: char, b: string)
    requires !IsDigit(c)
    ensures NormalizePhone(a + [c] + b) == NormalizePhone(a + b)
  {
    DigitsSkip(a, c, b);
    NormalizeByDigits(a + [c] + b, a + b);
  }

  lemma DigitsSkip(a: string, c: char, b: string)
    requires !IsDigit(c)
    ensures Digits(a + [c] + b) == Digits(a + b)
  {
    DigitsAppend(a + [c], b);
    DigitsAppend(a, [c]);
    DigitsAppend(a, b);
    assert Digits([c]) == [];
  }

  /** Two numbers whose digit strings end in the same ten digits normalize alike, whatever
      country code precedes them. */
  lemma NormalizePhoneSameTail(p: string, q: string)
    requires |Digits(p)| >= 10 && |Digits(q)| >= 10
    requires Digits(p)[|Digits(p)| - 10..] == Digits(q)[|Digits(q)| - 10..]
    ensures NormalizePhone(p) == NormalizePhone(q)
  {
    NormalizePhoneSpec(p);
    NormalizePhoneSpec(q);
  }

  /** A local number written `555-2671` normalizes to its seven digits. */
  lemma NormalizeLocalNumber(exch: string, line: string)
    requires |exch| == 3 && |line| == 4
    requires forall i :: 0 <= i < |exch| ==> IsDigit(exch[i])
    requires forall i :: 0 <= i < |line| ==> IsDigit(line[i])
    ensures NormalizePhone(exch + "-" + line) == exch + line
  {
    DigitsAppend(exch + "-", line);
    DigitsAppend(exch, "-");
    DigitsOfDigits(exch);
    DigitsOfDigits(line);
  }

  /** A North American number written `+1 (415) 555-2671` normalizes to its last ten
      digits `4155552671`: the country code is dropped. */
  lemma NormalizeNorthAmericanNumber(area: string, exch: string, line: string)
    requires |area| == 3 && |exch| == 3 && |line| == 4
    requires forall i :: 0 <= i < |area| ==> IsDigit(area[i])
    requires forall i :: 0 <= i < |exch| ==> IsDigit(exch[i])
    requires forall i :: 0 <= i < |line| ==> IsDigit(line[i])
    ensures NormalizePhone("+1 (" + area + ") " + exch + "-" + line) == area + exch + line
  {
    var local := exch + "-" + line;
    NormalizeLocalNumber(exch, line);
    assert "+1 (" + area + ") " + exch + "-" + line == "+1 (" + area + ") " + local;
    DigitsAppend("+1 (" + area + ") ", local);
    DigitsAppend("+1 (" + area, ") ");
    DigitsAppend("+1 (", area);
    DigitsOfDigits(area);
    assert Digits("+1 (") == "1";
    assert Digits(") ") == [];
  }

  // ----- The cache -----

  /** The lookup cache: normalized phone numbers and lower-cased addresses to names. */
  type Cache = map<string, string>

  /** One row of the AddressBook queries: a phone number or an e-mail address with the
      owner's first and last name (either may be NULL). The queries exclude NULL numbers
      and addresses. */
  datatype ContactRow =
    | PhoneRow(first: Option<string>, last: Option<string>, number: string)
    | EmailRow(first: Option<string>, last: Option<string>, address: string)

  /** `f"{first} {last}".strip()`, with NULL parts as "". */
  function ContactName(row: ContactRow): string {
    Strip(OrElse(row.first, "") + " " + OrElse(row.last, ""))
  }

  /** The cache key a row is stored under: the normalized number or the lower-cased address. */
  function RowKey(row: ContactRow): string {
    match row
    case PhoneRow(_, _, number) => NormalizePhone(number)
    case EmailRow(_, _, address) => Lower(address)
  }

  /** The (key, name) pair a row contributes. */
  function RowEntry(row: ContactRow): (string, string) {
    (RowKey(row), ContactName(row))
  }

  /** An entry is stored when it has a name and a non-empty key; a later entry with the
      same key overwrites an earlier one. (The source tests the number or address for
      emptiness before deriving the key; a key is empty exactly when they are.) */
  function Put(cache: Cache, entry: (string, string)): Cache {
    if entry.0 != [] && entry.1 != [] then cache[entry.0 := entry.1] else cache
  }

  /** Every entry, in order, put into an initially empty cache. */
  function Fill(entries: seq<(string, string)>): Cache
    decreases |entries|
  {
    if entries == [] then map[] else Put(Fill(entries[..|entries| - 1]), entries[|entries| - 1])
  }

  /** `load_contacts`: the entries of every row, in the order read, put into an empty cache. */
  function BuildCache(rows: seq<ContactRow>): Cache {
    Fill(seq(|rows|, k requires 0 <= k < |rows| => RowEntry(rows[k])))
  }

  /** A well-formed cache: every key is non-empty and lower-case, and every name is
      non-empty with no surrounding whitespace. */
  ghost predicate GoodCache(cache: Cache) {
    forall k :: k in cache ==> GoodEntry(k, cache[k])
  }

  /** A non-empty lower-case key mapped to a non-empty name with no surrounding white space. */
  ghost predicate GoodEntry(key: string, name: string) {
    && key != [] && Lower(key) == key
    && name != [] && !IsSpace(name[0]) && !IsSpace(name[|name| - 1])
  }

  /** Whether an entry is put under a key. */
  predicate StoredUnder(entry: (string, string), key: string) {
    entry.0 == key && key != [] && entry.1 != []
  }

  /** Lower-casing leaves a string of digits alone. */
  lemma {:induction false} LowerDigits(s: string)
    requires forall i :: 0 <= i < |s| ==> IsDigit(s[i])
    ensures Lower(s) == s
  {
  }

  /** Every key is its own lower-case form. */
  lemma RowKeyLower(row: ContactRow)
    ensures Lower(RowKey(row)) == RowKey(row)
  {
    match row {
      case PhoneRow(_, _, number) => LowerDigits(NormalizePhone(number));
      case EmailRow(_, _, address) => LowerIdempotent(address);
    }
  }

  /** A row that is stored contributes a well-formed entry. */
  lemma RowEntryGood(row: ContactRow)
    requires StoredUnder(RowEntry(row), RowKey(row))
    ensures GoodEntry(RowKey(row), ContactName(row))
  {
    RowKeyLower(row);
  }

  /** Filling with well-formed entries (where stored) gives a well-formed cache. */
  lemma {:induction false} FillGood(entries: seq<(string, string)>)
    requires forall k :: 0 <= k < |entries| && StoredUnder(entries[k], entries[k].0) ==>
      GoodEntry(entries[k].0, entries[k].1)
    ensures GoodCache(Fill(entries))
    decreases |entries|
  {
    if entries != [] {
      var init := entries[..|entries| - 1];
      var e := entries[|entries| - 1];
      assert forall k :: 0 <= k < |init| ==> init[k] == entries[k];
      FillGood(init);
    }
  }

  /** The cache built from any rows is well formed. */
  lemma BuildCacheGood(rows: seq<ContactRow>)
    ensures GoodCache(BuildCache(rows))
  {
    var entries := seq(|rows|, k requires 0 <= k < |rows| => RowEntry(rows[k]));
    forall k | 0 <= k < |entries| && StoredUnder(entries[k], entries[k].0)
      ensures GoodEntry(entries[k].0, entries[k].1)
    {
      RowEntryGood(rows[k]);
    }
    FillGood(entries);
  }

  /** The entry put last under a key decides that key's name. */
  lemma {:induction false} FillLastWins(entries: seq<(string, string)>, i: nat)
    requires i < |entries| && StoredUnder(entries[i], entries[i].0)
    requires forall j :: i < j < |entries| ==> !StoredUnder(entries[j], entries[i].0)
    ensures entries[i].0 in Fill(entries) && Fill(entries)[entries[i].0] == entries[i].1
    decreases |entries|
  {
    var init := entries[..|entries| - 1];
    if i < |entries| - 1 {
      assert forall j :: 0 <= j < |init| ==> init[j] == entries[j];
      FillLastWins(init, i);
    }
  }

  /** The row read last among those stored under a key decides that key's name. */
  lemma BuildCacheLastWins(rows: seq<ContactRow>, i: nat)
    requires i < |rows| && ContactName(rows[i]) != [] && RowKey(rows[i]) != []
    requires forall j :: i < j < |rows| ==> !StoredUnder(RowEntry(rows[j]), RowKey(rows[i]))
    ensures RowKey(rows[i]) in BuildCache(rows)
    ensures BuildCache(rows)[RowKey(rows[i])] == ContactName(rows[i])
  {
    var entries := seq(|rows|, k requires 0 <= k < |rows| => RowEntry(rows[k]));
    FillLastWins(entries, i);
  }

  // ----- Resolving a handle -----

  /** `_contact_cache.get(key)` followed by the truthiness test: a missing key and an
      empty name both count as a miss. */
  function Lookup(cache: Cache, key: string): Option<string> {
    if key in cache then Some(cache[key]) else None
  }

  /** `resolve_name`: the contact name for a handle, or the handle itself. An e-mail
      handle (one containing "@") is looked up by its lower-cased form only; any other
      handle by its normalized number, if it has digits. */
  function ResolveName(cache: Cache, handle: string): (r: string)
    ensures handle == [] ==> r == []
    ensures r == handle || (r != [] && r in cache.Values)
    ensures '@' in handle && Lower(handle) !in cache ==> r == handle
    ensures '@' !in handle && (NormalizePhone(handle) == [] || NormalizePhone(handle) !in cache) ==> r == handle
  {
    if handle == [] then handle
    else if '@' in handle then OrElse(Lookup(cache, Lower(handle)), handle)
    else
      var normalized := NormalizePhone(handle);
      if normalized != [] then OrElse(Lookup(cache, normalized), handle) else handle
  }

  /** An e-mail handle depends only on the cache entry for its lower-cased form. */
  lemma ResolveEmailUsesLowerOnly(c1: Cache, c2: Cache, handle: string)
    requires '@' in handle
    requires Lower(handle) in c1 <==> Lower(handle) in c2
    requires Lower(handle) in c1 ==> c1[Lower(handle)] == c2[Lower(handle)]
    ensures ResolveName(c1, handle) == ResolveName(c2, handle)
  {
  }

  /** E-mail handles that differ only in letter case resolve to the same contact. */
  lemma ResolveEmailIgnoresCase(cache: Cache, h1: string, h2: string)
    requires '@' in h1 && '@' in h2 && Lower(h1) == Lower(h2)
    requires Lower(h1) in cache && cache[Lower(h1)] != []
    ensures ResolveName(cache, h1) == ResolveName(cache, h2) == cache[Lower(h1)]
  {
  }

  /** Phone handles with the same last ten digits resolve to the same contact. */
  lemma ResolvePhoneByNormalized(cache: Cache, h1: string, h2: string)
    requires '@' !in h1 && '@' !in h2
    requires NormalizePhone(h1) == NormalizePhone(h2) != []
    requires NormalizePhone(h1) in cache && cache[NormalizePhone(h1)] != []
    ensures ResolveName(cache, h1) == ResolveName(cache, h2) == cache[NormalizePhone(h1)]
  {
  }

  /** After loading, a handle resolves to the name of the last row stored under its key. */
  lemma ResolveAfterLoad(rows: seq<ContactRow>, i: nat, handle: string)
    requires i < |rows| && ContactName(rows[i]) != [] && RowKey(rows[i]) != []
    requires forall j :: i < j < |rows| ==> RowKey(rows[j]) != RowKey(rows[i]) || ContactName(rows[j]) == []
    requires handle != []
    requires if '@' in handle then Lower(handle) == RowKey(rows[i]) else NormalizePhone(handle) == RowKey(rows[i])
    ensures ResolveName(BuildCache(rows), handle) == ContactName(rows[i])
  {
    BuildCacheLastWins(rows, i);
  }

  // ----- Conversation titles -----

  /** The characters `_looks_like_identifier` deletes before its all-digits test. */
  const PhonePunctuation: set<char> := {'-', '(', ')', ' '}

  /** `_looks_like_identifier`: empty, or (after stripping) starting with "+", all digits
      once dashes, parentheses and spaces are removed, or "chat" followed by digits. */
  predicate LooksLikeIdentifier(name: string) {
    name == [] || IdentifierShape(Strip(name))
  }

  /** The tests `_looks_like_identifier` applies to the stripped name. */
  predicate IdentifierShape(stripped: string) {
    if |stripped| > 0 && stripped[0] == '+' then true
    else if IsDigits(RemoveChars(stripped, PhonePunctuation)) then true
    else |stripped| >= 4 && stripped[..4] == "chat" && IsDigits(stripped[4..])
  }

  /** A non-empty identifier-like name has, once stripped, a leading "+" or a digit. */
  lemma IdentifierHasPlusOrDigit(name: string)
    requires name != [] && LooksLikeIdentifier(name)
    ensures var s := Strip(name); (|s| > 0 && s[0] == '+') || exists i :: 0 <= i < |s| && IsDigit(s[i])
  {
    var s := Strip(name);
    if !(|s| > 0 && s[0] == '+') {
      var kept := RemoveChars(s, PhonePunctuation);
      if IsDigits(kept) {
        RemoveCharsCounts(s, PhonePunctuation, kept[0]);
        assert kept[0] in multiset(kept);
        assert kept[0] in s;
      } else {
        assert IsDigit(s[4..][0]);
        assert s[4] == s[4..][0];
      }
    }
  }

  /** A name whose stripped form starts with a letter other than "c" is not an identifier:
      the names of people are not mistaken for numbers. */
  lemma LetterNameIsNotIdentifier(name: string)
    requires name != []
    requires var s := Strip(name); |s| > 0 && s[0] != '+' && s[0] != 'c' && !IsDigit(s[0])
                                   && s[0] !in PhonePunctuation
    ensures !LooksLikeIdentifier(name)
  {
    LetterIsNotIdentifierShape(Strip(name));
  }

  /** The stripped form of `LetterNameIsNotIdentifier`. */
  lemma LetterIsNotIdentifierShape(s: string)
    requires |s| > 0 && s[0] != '+' && s[0] != 'c' && !IsDigit(s[0]) && s[0] !in PhonePunctuation
    ensures !IdentifierShape(s)
  {
    assert RemoveChars(s, PhonePunctuation)[0] == s[0];
    if |s| >= 4 {
      assert s[..4][0] == s[0];
    }
  }

  // Each lemma below follows one branch of `IdentifierShape`. The general facts about the
  // predicate are `IdentifierHasPlusOrDigit` and `LetterNameIsNotIdentifier` above.

  /** A name that strips to "+..." is an identifier. */
  lemma PlusIsIdentifier(name: string)
    requires Strip(name) != [] && Strip(name)[0] == '+'
    ensures LooksLikeIdentifier(name)
  {
  }

  /** A name that is all digits once dashes, parentheses and spaces are removed (after
      stripping) is an identifier. */
  lemma PunctuatedDigitsIsIdentifier(name: string)
    requires IsDigits(RemoveChars(Strip(name), PhonePunctuation))
    ensures LooksLikeIdentifier(name)
  {
  }

  /** A chat identifier "chat" followed by digits is an identifier. */
  lemma ChatDigitsIsIdentifier(name: string, digits: string)
    requires Strip(name) == "chat" + digits && IsDigits(digits)
    ensures LooksLikeIdentifier(name)
  {
    assert Strip(name)[4..] == digits;
  }

  /** "chat" with no digits after it is not an identifier. */
  lemma ChatAloneIsNotIdentifier(name: string)
    requires Strip(name) == "chat"
    ensures !LooksLikeIdentifier(name)
  {
    var s := Strip(name);
    assert s[0] == 'c';
    assert RemoveChars(s, PhonePunctuation)[0] == 'c';
    assert s[4..] == [];
  }

  /** The empty name counts as an identifier. */
  lemma EmptyIsIdentifier()
    ensures LooksLikeIdentifier("")
  {
  }

  /** `[resolve_name(h) for h in handles]`. */
  function ResolveAll(cache: Cache, handles: seq<string>): (r: seq<string>)
    ensures |r| == |handles|
    ensures forall i :: 0 <= i < |r| ==> r[i] == ResolveName(cache, handles[i])
  {
    if handles == [] then [] else [ResolveName(cache, handles[0])] + ResolveAll(cache, handles[1..])
  }

  /** The most participants a group title names. */
  const TitleNames: nat := 4

  /** `resolve_conversation_name`. */
  function ResolveConversationName(cache: Cache, displayName: string, handles: seq<string>, isGroup: bool): (r: string)
    ensures displayName != [] && !LooksLikeIdentifier(displayName) ==> r == displayName
    ensures displayName == [] && handles == [] ==> r == "Unknown"
    ensures (displayName == [] || LooksLikeIdentifier(displayName)) && handles != [] && !isGroup ==>
              r == ResolveName(cache, handles[0])
  {
    if displayName != [] && !LooksLikeIdentifier(displayName) then displayName
    else if handles == [] then
      if displayName != [] && ResolveName(cache, displayName) != displayName then ResolveName(cache, displayName)
      else if displayName != [] then displayName
      else "Unknown"
    else
      var names := ResolveAll(cache, handles);
      if isGroup then
        var shown := if |names| > TitleNames then names[..TitleNames] else names;
        Join(shown, ", ") + (if |names| > TitleNames then "..." else "")
      else names[0]
  }

  /** With no participants, an identifier-like display name is shown resolved. */
  lemma ConversationNameNoHandles(cache: Cache, displayName: string, isGroup: bool)
    requires displayName != [] && LooksLikeIdentifier(displayName)
    ensures ResolveConversationName(cache, displayName, [], isGroup) == ResolveName(cache, displayName)
  {
  }

  /** A group of at most four participants is titled by all their names, with no ellipsis. */
  lemma GroupTitleShort(cache: Cache, displayName: string, handles: seq<string>)
    requires displayName == [] || LooksLikeIdentifier(displayName)
    requires 1 <= |handles| <= TitleNames
    ensures ResolveConversationName(cache, displayName, handles, true) == Join(ResolveAll(cache, handles), ", ")
  {
  }

  /** A larger group is titled by its first four names, joined with ", ", followed by "...". */
  lemma GroupTitleLong(cache: Cache, displayName: string, handles: seq<string>)
    requires displayName == [] || LooksLikeIdentifier(displayName)
    requires |handles| > TitleNames
    ensures ResolveConversationName(cache, displayName, handles, true)
            == Join(ResolveAll(cache, handles[..TitleNames]), ", ") + "..."
  {
    ResolveAllPrefix(cache, handles, TitleNames);
  }

  /** Resolving the first `n` handles gives the first `n` resolved names. */
  lemma ResolveAllPrefix(cache: Cache, handles: seq<string>, n: nat)
    requires n <= |handles|
    ensures ResolveAll(cache, handles)[..n] == ResolveAll(cache, handles[..n])
  {
    var a, b := ResolveAll(cache, handles)[..n], ResolveAll(cache, handles[..n]);
    forall i | 0 <= i < n
      ensures a[i] == b[i]
    {
      assert handles[..n][i] == handles[i];
    }
  }

  /** Participants past the fourth never change a group title. */
  lemma GroupTitleFirstFour(cache: Cache, displayName: string, h1: seq<string>, h2: seq<string>)
    requires displayName == [] || LooksLikeIdentifier(displayName)
    requires |h1| > TitleNames && |h2| > TitleNames && h1[..TitleNames] == h2[..TitleNames]
    ensures ResolveConversationName(cache, displayName, h1, true)
            == ResolveConversationName(cache, displayName, h2, true)
  {
    var n1 := ResolveAll(cache, h1);
    var n2 := ResolveAll(cache, h2);
    assert n1[..TitleNames] == n2[..TitleNames] by {
      forall i | 0 <= i < TitleNames
        ensures n1[i] == n2[i]
      {
        assert h1[i] == h1[..TitleNames][i];
      }
    }
  }
}

/** Redaction of whole log events: both rewrites on every text, and a mask under every sensitive key. */
module LogRedaction {
  import opened Common
  import opened BearerRedaction
  import opened Characters
  import opened QueryRedaction

  // ---------------------------------------------------------------- text

  /** The two rewrites in the order in which they are applied. */
  function RedactText(w: WordClass, s: string): string {
    SubQuery(SubBearer(w, None, s))
  }

  predicate TextClean(w: WordClass, s: string) {
    BearerClean(w, None, s) && QueryClean(s)
  }

  /** One application leaves, of either pattern, redacted matches only. */
  lemma RedactTextCleans(w: WordClass, s: string)
    ensures TextClean(w, RedactText(w, s))
  {
    SubBearerCleans(w, None, s);
    QueryKeepsBearerClean(w, None, SubBearer(w, None, s));
    SubQueryCleans(SubBearer(w, None, s));
  }

  /** Tokens are masked first, the values of secrets in what that leaves; all other text stays. */
  lemma RedactTextMasks(w: WordClass, s: string)
    ensures exists between ::
      BearersMasked(w, None, s, between) && SecretsMasked(between, RedactText(w, s))
  {
    hide BearersMasked, SecretsMasked, SubBearer, SubQuery;
    SubBearerMasks(w, None, s);
    SubQueryMasks(SubBearer(w, None, s));
  }

  /** A text is left alone exactly when every match in it is redacted already. */
  lemma CleanIffUnchanged(w: WordClass, s: string)
    ensures TextClean(w, s) <==> RedactText(w, s) == s
  {
    RedactTextCleans(w, s);
    if TextClean(w, s) {
      CleanIsBearerFixed(w, None, s);
      CleanIsQueryFixed(s);
    }
  }

  lemma BearerCleanAt(w: WordClass, s: string, i: nat)
    requires BearerClean(w, None, s) && i < |s|
    ensures var n := BearerMatch(w, Before(None, s, i), s[i..]); n > 0 ==> s[i..i + n] == BEARER_REDACTED
  {
    hide BearerMatch;
    BearerCleanSuffix(w, None, s, i);
    var n := BearerMatch(w, Before(None, s, i), s[i..]);
    assert s[i..][..n] == s[i..i + n];
  }

  lemma QueryCleanAt(s: string, i: nat)
    requires QueryClean(s) && i < |s|
    ensures var n := QueryMatch(s[i..]); n > 0 ==> s[i + KeyLength(s[i..]) + 1..i + n] == REDACTED
  {
    hide QueryMatch, KeyLength;
    QueryCleanSuffix(s, i);
    QueryCleanHere(s[i..]);
    hide QueryClean;
    if QueryMatch(s[i..]) > 0 {
      SliceOfSuffix(s, i, KeyLength(s[i..]) + 1, QueryMatch(s[i..]));
    }
  }

  lemma QueryCleanHere(t: string)
    requires QueryClean(t) && t != ""
    ensures var n := QueryMatch(t); n > 0 ==> t[KeyLength(t) + 1..n] == REDACTED
  {
  }

  lemma SliceOfSuffix(s: string, i: nat, k: nat, n: nat)
    requires i <= |s| && k <= n && i + n <= |s|
    ensures s[i..][k..n] == s[i + k..i + n]
  {
  }

  /** Cleanness is about every position of the text, not only those the rewrite stops at. */
  lemma CleanAtEveryPosition(w: WordClass, s: string, i: nat)
    requires TextClean(w, s) && i < |s|
    ensures var n := BearerMatch(w, Before(None, s, i), s[i..]); n > 0 ==> s[i..i + n] == BEARER_REDACTED
    ensures var n := QueryMatch(s[i..]); n > 0 ==> s[i + KeyLength(s[i..]) + 1..i + n] == REDACTED
  {
    hide BearerClean, QueryClean, BearerMatch, QueryMatch, KeyLength, Before;
    BearerCleanAt(w, s, i);
    QueryCleanAt(s, i);
  }

  lemma MaskIsClean(w: WordClass)
    ensures TextClean(w, REDACTED)
  {
    assert REDACTED[|REDACTED|..] == "";
    assert forall i :: 0 <= i < |REDACTED| ==> !IsB(REDACTED[i]);
    BearerCleanPrepend(w, None, REDACTED, |REDACTED|);
    RedactedHasNoKey("", 0);
    assert REDACTED[0..] + "" == REDACTED;
  }

  // ---------------------------------------------------------------- nested values

  /** A dictionary key and its text; keys that are not strings are replaced by their text. */
  datatype Key = TextKey(text: string) | OtherKey(text: string)

  datatype Entry = Entry(key: Key, value: LogValue)

  /** A dictionary lists its entries in insertion order. */
  datatype LogValue =
    | Text(s: string)
    | Dict(entries: seq<Entry>)
    | List(items: seq<LogValue>)
    | Tuple(items: seq<LogValue>)
    | Other(id: int)

  const SENSITIVE_LOG_FIELDS: set<string> := {
    "access_token", "authorization", "bearer_token", "client_secret", "code_verifier",
    "id_token", "password", "proxy_authorization", "refresh_token", "token"}

  /** Lower case with hyphens as underscores, as far as equality with an ASCII name can tell. */
  function NormalizedKey(key: string): string {
    if key == "" then ""
    else
      var c := key[0];
      [if 'A' <= c <= 'Z' then c - 'A' + 'a' else if c as int == 0x212A then 'k' else if c == '-' then '_' else c]
      + NormalizedKey(key[1..])
  }

  predicate IsSensitive(key: string) {
    NormalizedKey(key) in SENSITIVE_LOG_FIELDS
  }

  /** Assignment into a dictionary: a present key keeps its place. */
  function Put(entries: seq<Entry>, e: Entry): seq<Entry> {
    if entries == [] then [e]
    else if entries[0].key == e.key then [e] + entries[1..]
    else [entries[0]] + Put(entries[1..], e)
  }

  function Redact(w: WordClass, key: string, v: LogValue): LogValue
    decreases v, 0
  {
    if IsSensitive(key) then Text(REDACTED)
    else match v
      case Dict(entries) => Dict(RedactEntries(w, entries))
      case List(items) => List(RedactItems(w, items))
      case Tuple(items) => Tuple(RedactItems(w, items))
      case Text(s) => Text(RedactText(w, s))
      case Other(_) => v
  }

  function RedactEntries(w: WordClass, entries: seq<Entry>): seq<Entry>
    decreases entries, 0
  {
    if entries == [] then []
    else
      var last := entries[|entries| - 1];
      assert last.value < last;
      Put(RedactEntries(w, entries[..|entries| - 1]),
          Entry(TextKey(last.key.text), Redact(w, last.key.text, last.value)))
  }

  function RedactItems(w: WordClass, items: seq<LogValue>): seq<LogValue>
    decreases items, 0
  {
    if items == [] then [] else RedactItems(w, items[..|items| - 1]) + [Redact(w, "", items[|items| - 1])]
  }

  ghost predicate DistinctKeys(entries: seq<Entry>) {
    forall i, j :: 0 <= i < j < |entries| ==> entries[i].key != entries[j].key
  }

  /** No unredacted match in any text, and nothing but the mask under a sensitive key, at any depth. */
  ghost predicate Clean(w: WordClass, v: LogValue) {
    match v
    case Text(s) => TextClean(w, s)
    case Dict(entries) =>
      && DistinctKeys(entries)
      && (forall i :: 0 <= i < |entries| ==> EntryClean(w, entries[i]))
    case List(items) => ItemsClean(w, items)
    case Tuple(items) => ItemsClean(w, items)
    case Other(_) => true
  }

  ghost predicate ItemsClean(w: WordClass, items: seq<LogValue>) {
    forall i :: 0 <= i < |items| ==> Clean(w, items[i])
  }

  ghost predicate EntryClean(w: WordClass, e: Entry) {
    e.key.TextKey? && Clean(w, e.value) && (IsSensitive(e.key.text) ==> e.value == Text(REDACTED))
  }

  lemma {:induction false} PutKeepsClean(w: WordClass, entries: seq<Entry>, e: Entry)
    requires DistinctKeys(entries) && EntryClean(w, e) && forall i :: 0 <= i < |entries| ==> EntryClean(w, entries[i])
    ensures var r := Put(entries, e);
      DistinctKeys(r) && (forall i :: 0 <= i < |r| ==> EntryClean(w, r[i]))
      && forall i :: 0 <= i < |r| ==> r[i].key == e.key || exists j :: 0 <= j < |entries| && entries[j].key == r[i].key
  {
    hide EntryClean;
    if entries != [] && entries[0].key != e.key {
      PutKeepsClean(w, entries[1..], e);
      var rest := Put(entries[1..], e);
      forall i | 0 <= i < |rest| ensures rest[i].key != entries[0].key
        && (rest[i].key == e.key || exists j :: 0 <= j < |entries| && entries[j].key == rest[i].key)
      {
        if rest[i].key != e.key {
          var j :| 0 <= j < |entries[1..]| && entries[1..][j].key == rest[i].key;
          assert entries[j + 1].key == rest[i].key;
        }
      }
    }
  }

  /** The redacted form of any value is clean. */
  lemma {:induction false} RedactCleans(w: WordClass, key: string, v: LogValue)
    ensures Clean(w, Redact(w, key, v))
    decreases v, 1
  {
    if IsSensitive(key) {
      MaskIsClean(w);
    } else {
      match v
      case Text(s) => RedactTextCleans(w, s);
      case Dict(entries) => EntriesAreClean(w, v, entries);
      case List(items) => ItemsAreClean(w, v, items);
      case Tuple(items) => ItemsAreClean(w, v, items);
      case Other(_) =>
    }
  }

  lemma {:induction false} EntriesAreClean(w: WordClass, parent: LogValue, entries: seq<Entry>)
    requires forall i :: 0 <= i < |entries| ==> entries[i].value < parent
    ensures var r := RedactEntries(w, entries); DistinctKeys(r) && forall i :: 0 <= i < |r| ==> EntryClean(w, r[i])
    decreases parent, 0, |entries|
  {
    if entries != [] {
      var last := entries[|entries| - 1];
      EntriesAreClean(w, parent, entries[..|entries| - 1]);
      RedactCleans(w, last.key.text, last.value);
      PutKeepsClean(w, RedactEntries(w, entries[..|entries| - 1]),
                    Entry(TextKey(last.key.text), Redact(w, last.key.text, last.value)));
    }
  }

  lemma {:induction false} ItemsAreClean(w: WordClass, parent: LogValue, items: seq<LogValue>)
    requires forall i :: 0 <= i < |items| ==> items[i] < parent
    ensures ItemsClean(w, RedactItems(w, items))
    decreases parent, 0, |items|
  {
    hide Redact, IsSensitive, Clean;
    if items != [] {
      ItemsAreClean(w, parent, items[..|items| - 1]);
      RedactCleans(w, "", items[|items| - 1]);
    }
  }

  /** Putting under a new key appends. */
  lemma {:induction false} PutAppends(entries: seq<Entry>, e: Entry)
    requires forall i :: 0 <= i < |entries| ==> entries[i].key != e.key
    ensures Put(entries, e) == entries + [e]
  {
    if entries != [] {
      PutAppends(entries[1..], e);
    }
  }

  /** A clean value is a fixed point, unless it stands under a sensitive key itself. */
  lemma {:induction false} CleanIsFixed(w: WordClass, key: string, v: LogValue)
    requires Clean(w, v) && (IsSensitive(key) ==> v == Text(REDACTED))
    ensures Redact(w, key, v) == v
    decreases v, 1
  {
    if !IsSensitive(key) {
      match v
      case Text(s) => CleanIffUnchanged(w, s);
      case Dict(entries) => EntriesAreFixed(w, v, entries);
      case List(items) => ItemsAreFixed(w, v, items);
      case Tuple(items) => ItemsAreFixed(w, v, items);
      case Other(_) =>
    }
  }

  lemma {:induction false} EntriesAreFixed(w: WordClass, parent: LogValue, entries: seq<Entry>)
    requires forall i :: 0 <= i < |entries| ==> entries[i].value < parent
    requires DistinctKeys(entries) && forall i :: 0 <= i < |entries| ==> EntryClean(w, entries[i])
    ensures RedactEntries(w, entries) == entries
    decreases parent, 0, |entries|
  {
    hide Redact, Clean, IsSensitive;
    if entries != [] {
      var n := |entries| - 1;
      EntriesAreFixed(w, parent, entries[..n]);
      assert EntryClean(w, entries[n]);
      CleanIsFixed(w, entries[n].key.text, entries[n].value);
      PutAppends(entries[..n], entries[n]);
      assert entries == entries[..n] + [entries[n]];
    }
  }

  lemma {:induction false} ItemsAreFixed(w: WordClass, parent: LogValue, items: seq<LogValue>)
    requires ItemsClean(w, items) && forall i :: 0 <= i < |items| ==> items[i] < parent
    ensures RedactItems(w, items) == items
    decreases parent, 0, |items|
  {
    hide Redact, Clean, IsSensitive;
    if items != [] {
      var n := |items| - 1;
      ItemsAreFixed(w, parent, items[..n]);
      NothingIsSensitiveInLists();
      CleanIsFixed(w, "", items[n]);
      assert items == items[..n] + [items[n]];
    }
  }

  lemma NothingIsSensitiveInLists()
    ensures !IsSensitive("")
  {
  }

  /** Redaction is idempotent on every nested value, under every key. */
  lemma RedactIdempotent(w: WordClass, key: string, v: LogValue)
    ensures Redact(w, key, Redact(w, key, v)) == Redact(w, key, v)
  {
    RedactCleans(w, key, v);
    CleanIsFixed(w, key, Redact(w, key, v));
  }

  // ---------------------------------------------------------------- what a reader of the log finds

  /** The keys whose values are secrets, in any case, with hyphens for underscores. */
  predicate NamesSecret(key: string) {
    || IsFieldName(key, "access_token") || IsFieldName(key, "authorization") || IsFieldName(key, "bearer_token")
    || IsFieldName(key, "client_secret") || IsFieldName(key, "code_verifier") || IsFieldName(key, "id_token")
    || IsFieldName(key, "password") || IsFieldName(key, "proxy_authorization")
    || IsFieldName(key, "refresh_token") || IsFieldName(key, "token")
  }

  predicate IsFieldName(key: string, name: string) {
    |key| == |name| && forall i :: 0 <= i < |name| ==> IsFieldChar(key[i], name[i])
  }

  /** The Kelvin sign is the one character beyond ASCII whose lower case is an ASCII letter. */
  predicate IsFieldChar(c: char, letter: char) {
    LowerChar(c) == letter || (letter == 'k' && c as int == 0x212A) || (letter == '_' && c == '-')
  }

  lemma {:induction false} NormalizedIs(key: string, name: string)
    requires forall i :: 0 <= i < |name| ==> name[i] == '_' || 'a' <= name[i] <= 'z'
    ensures NormalizedKey(key) == name <==> IsFieldName(key, name)
    decreases |key|
  {
    hide NormalizedKey, IsFieldChar;
    NormalizedStep(key, name);
    if key != "" && name != "" {
      NormalizedIs(key[1..], name[1..]);
      FieldNameStep(key, name);
      hide IsFieldName;
    }
  }

  lemma NormalizedStep(key: string, name: string)
    requires forall i :: 0 <= i < |name| ==> name[i] == '_' || 'a' <= name[i] <= 'z'
    ensures key == "" || name == "" ==> (NormalizedKey(key) == name <==> key == "" && name == "")
    ensures key != "" && name != "" ==>
      (NormalizedKey(key) == name <==> IsFieldChar(key[0], name[0]) && NormalizedKey(key[1..]) == name[1..])
  {
    if key != "" && name != "" {
      var r, c := NormalizedKey(key[1..]), NormalizedKey(key)[0];
      FirstAndRest(c, r, name);
    }
  }

  lemma FirstAndRest(c: char, r: string, name: string)
    requires name != ""
    ensures [c] + r == name <==> c == name[0] && r == name[1..]
  {
    assert name == [name[0]] + name[1..] && ([c] + r)[1..] == r;
  }

  lemma FieldNameStep(key: string, name: string)
    requires key != "" && name != ""
    ensures IsFieldName(key, name) <==> IsFieldChar(key[0], name[0]) && IsFieldName(key[1..], name[1..])
  {
    hide IsFieldChar;
    if IsFieldChar(key[0], name[0]) && IsFieldName(key[1..], name[1..]) {
      forall i | 0 <= i < |name| ensures IsFieldChar(key[i], name[i]) {
        assert i > 0 ==> key[i] == key[1..][i - 1] && name[i] == name[1..][i - 1];
      }
    }
  }

  /** The set of sensitive fields is exactly this list of names. */
  lemma SensitiveExactly(key: string)
    ensures IsSensitive(key) <==> NamesSecret(key)
  {
    hide NormalizedKey, IsFieldName;
    NormalizedIs(key, "access_token");
    NormalizedIs(key, "authorization");
    NormalizedIs(key, "bearer_token");
    NormalizedIs(key, "client_secret");
    NormalizedIs(key, "code_verifier");
    NormalizedIs(key, "id_token");
    NormalizedIs(key, "password");
    NormalizedIs(key, "proxy_authorization");
    NormalizedIs(key, "refresh_token");
    NormalizedIs(key, "token");
  }

  /** Every text hides bearer tokens and secrets, and every secret field is masked, at any depth. */
  ghost predicate Conceals(w: WordClass, v: LogValue) {
    match v
    case Text(s) => HidesBearers(w, None, s) && HidesSecrets(s)
    case Dict(entries) => forall i :: 0 <= i < |entries| ==> EntryConceals(w, entries[i])
    case List(items) => ItemsConceal(w, items)
    case Tuple(items) => ItemsConceal(w, items)
    case Other(_) => true
  }

  ghost predicate EntryConceals(w: WordClass, e: Entry) {
    Conceals(w, e.value) && (NamesSecret(e.key.text) ==> e.value == Text("[REDACTED]"))
  }

  ghost predicate ItemsConceal(w: WordClass, items: seq<LogValue>) {
    forall i :: 0 <= i < |items| ==> Conceals(w, items[i])
  }

  lemma {:induction false} CleanConceals(w: WordClass, v: LogValue)
    requires Clean(w, v)
    ensures Conceals(w, v)
    decreases v, 1
  {
    hide IsSensitive, NamesSecret, HidesBearers, HidesSecrets, BearerClean, QueryClean;
    match v
    case Text(s) =>
      BearerCleanExactly(w, None, s);
      QueryCleanExactly(s);
    case Dict(entries) =>
      forall i | 0 <= i < |entries| ensures EntryConceals(w, entries[i]) {
        assert EntryClean(w, entries[i]);
        SensitiveExactly(entries[i].key.text);
        CleanConceals(w, entries[i].value);
      }
    case List(items) => ItemsCleanConceal(w, v, items);
    case Tuple(items) => ItemsCleanConceal(w, v, items);
    case Other(_) =>
  }

  lemma {:induction false} ItemsCleanConceal(w: WordClass, parent: LogValue, items: seq<LogValue>)
    requires ItemsClean(w, items) && forall i :: 0 <= i < |items| ==> items[i] < parent
    ensures ItemsConceal(w, items)
    decreases parent, 0
  {
    hide Clean, Conceals;
    forall i | 0 <= i < |items| ensures Conceals(w, items[i]) {
      CleanConceals(w, items[i]);
    }
  }

  /** What redaction promises a reader, in the terms of the patterns and of the list of fields. */
  lemma RedactConceals(w: WordClass, key: string, v: LogValue)
    ensures Conceals(w, Redact(w, key, v)) && (NamesSecret(key) ==> Redact(w, key, v) == Text("[REDACTED]"))
  {
    RedactCleans(w, key, v);
    CleanConceals(w, Redact(w, key, v));
    SensitiveExactly(key);
    hide IsSensitive, NamesSecret, Conceals, Clean;
  }

  /** Under any other key a value keeps its kind, a text has its secrets masked, and nothing else is touched. */
  lemma OnlySecretsAreMasked(w: WordClass, key: string, v: LogValue)
    requires !NamesSecret(key)
    ensures match v
      case Text(s) => Redact(w, key, v).Text? && exists between ::
        BearersMasked(w, None, s, between) && SecretsMasked(between, Redact(w, key, v).s)
      case Other(_) => Redact(w, key, v) == v
      case List(items) => Redact(w, key, v) == List(RedactItems(w, items))
      case Tuple(items) => Redact(w, key, v) == Tuple(RedactItems(w, items))
      case Dict(entries) => Redact(w, key, v) == Dict(RedactEntries(w, entries))
  {
    hide BearersMasked, SecretsMasked, RedactText, IsSensitive, NamesSecret;
    SensitiveExactly(key);
    if v.Text? {
      RedactTextMasks(w, v.s);
    }
  }

  // ---------------------------------------------------------------- shape

  /** Lists and tuples keep their length, and every item is redacted on its own, under no key. */
  lemma {:induction false} ItemsKeepTheirPlaces(w: WordClass, items: seq<LogValue>)
    ensures var r := RedactItems(w, items);
      |r| == |items| && forall i :: 0 <= i < |items| ==> r[i] == Redact(w, "", items[i])
  {
    hide Redact;
    if items != [] {
      ItemsKeepTheirPlaces(w, items[..|items| - 1]);
    }
  }

  predicate HasText(entries: seq<Entry>, text: string) {
    exists i :: 0 <= i < |entries| && entries[i].key.text == text
  }

  /** The texts of the keys, each where it first occurs. */
  function FirstTexts(entries: seq<Entry>): (r: seq<string>)
    ensures forall text :: text in r <==> HasText(entries, text)
    ensures forall i, j :: 0 <= i < j < |r| ==> r[i] != r[j]
  {
    if entries == [] then []
    else
      var n := |entries| - 1;
      var front := FirstTexts(entries[..n]);
      assert forall text :: HasText(entries, text) <==> HasText(entries[..n], text) || entries[n].key.text == text by {
        TextsOfFront(entries);
      }
      if entries[n].key.text in front then front else front + [entries[n].key.text]
  }

  lemma TextsOfFront(entries: seq<Entry>)
    requires entries != []
    ensures var n := |entries| - 1;
      forall text :: HasText(entries, text) <==> HasText(entries[..n], text) || entries[n].key.text == text
  {
    var n := |entries| - 1;
    forall text ensures HasText(entries, text) <==> HasText(entries[..n], text) || entries[n].key.text == text {
      if HasText(entries, text) {
        var i :| 0 <= i < |entries| && entries[i].key.text == text;
        assert i < n ==> entries[..n][i].key.text == text;
      }
      if HasText(entries[..n], text) {
        var i :| 0 <= i < n && entries[..n][i].key.text == text;
        assert entries[i].key.text == text;
      }
    }
  }

  /** The value of the last entry with this key text. */
  function LastValue(entries: seq<Entry>, text: string): LogValue
    requires HasText(entries, text)
  {
    var n := |entries| - 1;
    TextsOfFront(entries);
    if entries[n].key.text == text then entries[n].value else LastValue(entries[..n], text)
  }

  /** Putting under a present key replaces in place. */
  lemma {:induction false} PutReplaces(entries: seq<Entry>, e: Entry, i: nat)
    requires i < |entries| && entries[i].key == e.key && forall j :: 0 <= j < i ==> entries[j].key != e.key
    ensures Put(entries, e) == entries[i := e]
  {
    if i > 0 {
      PutReplaces(entries[1..], e, i - 1);
      assert entries[i := e] == [entries[0]] + entries[1..][i - 1 := e];
    }
  }

  ghost predicate RedactsTexts(w: WordClass, r: seq<Entry>, entries: seq<Entry>, texts: seq<string>)
    requires forall i :: 0 <= i < |texts| ==> HasText(entries, texts[i])
  {
    |r| == |texts| && forall i :: 0 <= i < |texts| ==>
      r[i] == Entry(TextKey(texts[i]), Redact(w, texts[i], LastValue(entries, texts[i])))
  }

  /**
   A dictionary keeps its entries, in order, with keys as text and each value redacted under its
   key; where keys collide as text, the first keeps the place and the last gives the value.
   */
  lemma {:induction false} EntriesKeepTheirPlaces(w: WordClass, entries: seq<Entry>)
    ensures RedactsTexts(w, RedactEntries(w, entries), entries, FirstTexts(entries))
  {
    hide Redact, HasText;
    if entries != [] {
      var n := |entries| - 1;
      var front, last := entries[..n], entries[n];
      EntriesKeepTheirPlaces(w, front);
      TextsOfFront(entries);
      PutKeepsTexts(w, RedactEntries(w, front), entries, FirstTexts(front));
    }
  }

  /** One more entry: in its place when the text is there already, at the end otherwise. */
  lemma PutKeepsTexts(w: WordClass, before: seq<Entry>, entries: seq<Entry>, texts: seq<string>)
    requires entries != [] && texts == FirstTexts(entries[..|entries| - 1])
    requires RedactsTexts(w, before, entries[..|entries| - 1], texts)
    ensures var last := entries[|entries| - 1];
      var e := Entry(TextKey(last.key.text), Redact(w, last.key.text, last.value));
      RedactsTexts(w, Put(before, e), entries, FirstTexts(entries))
  {
    hide Redact, HasText;
    TextsOfFront(entries);
    var last := entries[|entries| - 1];
    var e := Entry(TextKey(last.key.text), Redact(w, last.key.text, last.value));
    assert forall i :: 0 <= i < |texts| ==> before[i].key == TextKey(texts[i]);
    if last.key.text in texts {
      var i :| 0 <= i < |texts| && texts[i] == last.key.text;
      PutReplaces(before, e, i);
    } else {
      PutAppends(before, e);
    }
  }

  // ---------------------------------------------------------------- the log processor

  class EventDict {
    var fields: map<string, LogValue>

    constructor (fields: map<string, LogValue>)
      ensures this.fields == fields
    {
      this.fields := fields;
    }
  }

  /** `redact_security_secrets`: rewrites the event in place, field by field. */
  method RedactSecuritySecrets(w: WordClass, event: EventDict)
    modifies event
    ensures event.fields == map key | key in old(event.fields) :: Redact(w, key, old(event.fields)[key])
    ensures forall key :: key in event.fields ==>
      Conceals(w, event.fields[key]) && (NamesSecret(key) ==> event.fields[key] == Text("[REDACTED]"))
  {
    hide IsSensitive, NamesSecret, Conceals, Redact;
    var pending := event.fields.Keys;
    while pending != {}
      invariant pending <= event.fields.Keys == old(event.fields).Keys
      invariant forall key :: key in event.fields ==>
        event.fields[key] == if key in pending then old(event.fields)[key] else Redact(w, key, old(event.fields)[key])
      decreases |pending|
    {
      var key :| key in pending;
      event.fields := event.fields[key := Redact(w, key, event.fields[key])];
      pending := pending - {key};
    }
    forall key | key in event.fields
      ensures Conceals(w, event.fields[key]) && (NamesSecret(key) ==> event.fields[key] == Text("[REDACTED]"))
    {
      RedactConceals(w, key, old(event.fields)[key]);
    }
  }
}

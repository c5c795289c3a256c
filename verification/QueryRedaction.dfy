/**
 The query-secret rewrite on one string: one application leaves only redacted
 values, and it creates no bearer match that was not there.
 */
module QueryRedaction {
  import opened Common
  import opened BearerRedaction
  import opened Characters

  predicate IsValueChar(c: char) {
    !IsSpace(c) && c != '&'
  }

  /** The length of the secret's name when `s` starts with one and an equals sign, 0 otherwise. */
  function KeyLength(s: string): (n: nat)
    ensures n < |s| || n == 0
  {
    if StartsWithFold(s, "access_token=") then 12
    else if StartsWithFold(s, "refresh_token=") then 13
    else if StartsWithFold(s, "id_token=") then 8
    else if StartsWithFold(s, "client_secret=") then 13
    else 0
  }

  /** The length of a match of the query-secret pattern at the start of `s`, 0 when there is none. */
  function QueryMatch(s: string): (n: nat)
    ensures n <= |s| && (n > 0 ==> n > KeyLength(s) + 1)
  {
    var key := KeyLength(s);
    if key == 0 then 0
    else
      var value := Run(s[key + 1..], IsValueChar);
      if value == 0 then 0 else key + 1 + value
  }

  /** Leftmost, non-overlapping replacement; the name is kept as written. */
  function SubQuery(s: string): string
    decreases |s|
  {
    if s == "" then ""
    else
      var n := QueryMatch(s);
      if n > 0 then s[..KeyLength(s) + 1] + REDACTED + SubQuery(s[n..])
      else [s[0]] + SubQuery(s[1..])
  }

  /** Wherever the pattern matches, at any position, the value is the redacted form already. */
  predicate QueryClean(s: string) {
    s != "" ==>
      && (QueryMatch(s) > 0 ==> s[KeyLength(s) + 1..QueryMatch(s)] == REDACTED)
      && QueryClean(s[1..])
  }

  // ---------------------------------------------------------------- facts about one match

  predicate IsNameChar(c: char) {
    c != '=' && !IsB(c)
  }

  lemma FoldsToNameChar(c: char)
    requires Fold(c) != '=' && Fold(c) != 'b'
    ensures IsNameChar(c)
  {
  }

  lemma WordShape(s: string, word: string, n: nat)
    requires StartsWithFold(s, word) && |word| == n + 1 && word[n] == '='
    requires forall i :: 0 <= i < n ==> word[i] != '=' && word[i] != 'b'
    ensures n < |s| && Fold(s[n]) == '=' && forall i :: 0 <= i < n ==> IsNameChar(s[i])
  {
    hide Fold, IsNameChar;
    forall i | 0 <= i < n ensures IsNameChar(s[i]) {
      FoldsToNameChar(s[i]);
    }
  }

  /** A name has no equals sign and no b, and is followed by the equals sign. */
  lemma KeyShape(s: string)
    requires KeyLength(s) > 0
    ensures var n := KeyLength(s); n < |s| && s[n] == '=' && forall i :: 0 <= i < n ==> IsNameChar(s[i])
  {
    hide StartsWithFold, IsNameChar;
    var n := KeyLength(s);
    if StartsWithFold(s, "access_token=") {
      WordShape(s, "access_token=", n);
    } else if StartsWithFold(s, "refresh_token=") {
      WordShape(s, "refresh_token=", n);
    } else if StartsWithFold(s, "id_token=") {
      WordShape(s, "id_token=", n);
    } else {
      WordShape(s, "client_secret=", n);
    }
  }

  /** The name is decided by the text up to its equals sign. */
  lemma KeyMoves(s: string, t: string)
    requires KeyLength(s) > 0 && KeyLength(s) < |t| && s[..KeyLength(s) + 1] == t[..KeyLength(s) + 1]
    ensures KeyLength(t) == KeyLength(s)
  {
    var n := KeyLength(s);
    assert forall i :: 0 <= i <= n ==> t[i] == t[..n + 1][i] == s[..n + 1][i] == s[i];
    assert Fold(s[0]) == Fold(t[0]);
  }

  /** Two names cannot end at the same equals sign unless they start together. */
  lemma KeyEndsAtFirstEquals(s: string, e: nat)
    requires e < |s| && s[e] == '=' && forall i :: 0 <= i < e ==> s[i] != '='
    ensures KeyLength(s) == 0 || KeyLength(s) == e
  {
    hide KeyLength;
    if KeyLength(s) > 0 { KeyShape(s); }
  }

  lemma MatchEnds(s: string)
    requires QueryMatch(s) > 0
    ensures KeyLength(s) > 0 && KeyLength(s) + 1 < QueryMatch(s)
    ensures QueryMatch(s) < |s| ==> !IsValueChar(s[QueryMatch(s)])
  {
    hide KeyLength;
    var key := KeyLength(s);
    var value := Run(s[key + 1..], IsValueChar);
    assert key + 1 + value < |s| ==> s[key + 1..][value] == s[key + 1 + value];
  }

  lemma MatchIs(s: string, key: nat, value: nat)
    requires key == KeyLength(s) > 0 && value > 0 && key + 1 + value <= |s|
    requires forall i :: key + 1 <= i < key + 1 + value ==> IsValueChar(s[i])
    requires key + 1 + value < |s| ==> !IsValueChar(s[key + 1 + value])
    ensures QueryMatch(s) == key + 1 + value
  {
    hide KeyLength;
    RunIs(s[key + 1..], IsValueChar, value);
  }

  /** A name without a value matches nothing. */
  lemma NoValueNoMatch(s: string, e: nat)
    requires e < |s| && s[e] == '=' && (forall i :: 0 <= i < e ==> s[i] != '=')
    requires e + 1 < |s| ==> !IsValueChar(s[e + 1])
    ensures QueryMatch(s) == 0
  {
    hide KeyLength;
    KeyEndsAtFirstEquals(s, e);
    if KeyLength(s) == e && e > 0 {
      RunIs(s[e + 1..], IsValueChar, 0);
    }
  }

  // ---------------------------------------------------------------- what the rewrite keeps

  lemma SubQuerySkips(s: string)
    requires s != "" && QueryMatch(s) == 0
    ensures SubQuery(s) == [s[0]] + SubQuery(s[1..])
  {
  }

  lemma SubQueryFirst(s: string)
    ensures SubQuery(s) == "" <==> s == ""
    ensures s != "" ==> SubQuery(s)[0] == s[0]
  {
    hide KeyLength;
    if s != "" && QueryMatch(s) > 0 { MatchEnds(s); }
  }

  /** Up to and including the first equals sign the rewrite changes nothing. */
  lemma {:induction false} SubQueryUntilEquals(s: string, n: nat)
    requires n <= |s| && forall i :: 0 <= i < n ==> s[i] != '='
    ensures n <= |SubQuery(s)| && SubQuery(s)[..n] == s[..n]
    ensures n < |s| ==> n < |SubQuery(s)| && SubQuery(s)[n] == s[n]
    ensures n == |s| ==> SubQuery(s) == s
  {
    hide QueryMatch, KeyLength;
    SubQueryFirst(s);
    if n > 0 {
      if QueryMatch(s) > 0 {
        MatchEnds(s);
        KeyShape(s);
        var kept := s[..KeyLength(s) + 1];
        assert n <= KeyLength(s);
        assert SubQuery(s)[..|kept|] == kept;
        assert kept[..n] == s[..n] == SubQuery(s)[..n];
      } else {
        SubQuerySkips(s);
        SubQueryUntilEquals(s[1..], n - 1);
        var rest := SubQuery(s[1..]);
        assert SubQuery(s)[..n] == [s[0]] + rest[..n - 1] && s[..n] == [s[0]] + s[1..][..n - 1];
      }
    }
  }

  function FirstEquals(s: string): (n: nat)
    ensures n <= |s| && (forall i :: 0 <= i < n ==> s[i] != '=') && (n < |s| ==> s[n] == '=')
  {
    if s == "" || s[0] == '=' then 0 else 1 + FirstEquals(s[1..])
  }

  /** The other way round: before the first equals sign of the output, and at it, the input is the same. */
  lemma InputUntilEquals(s: string, out: string, n: nat)
    requires out == SubQuery(s) && n <= |out| && forall i :: 0 <= i < n ==> out[i] != '='
    ensures n <= |s| && s[..n] == out[..n] && (n < |s| <==> n < |out|) && (n < |out| ==> s[n] == out[n])
  {
    hide SubQuery;
    var m := FirstEquals(s);
    SubQueryUntilEquals(s, m);
    assert n <= m;
    SubQueryUntilEquals(s, n);
  }

  lemma InputThroughEquals(s: string, out: string, e: nat)
    requires out == SubQuery(s) && e < |out| && out[e] == '=' && forall i :: 0 <= i < e ==> out[i] != '='
    ensures e < |s| && s[..e + 1] == out[..e + 1]
  {
    hide SubQuery;
    InputUntilEquals(s, out, e);
    assert s[..e + 1] == s[..e] + ['='] && out[..e + 1] == out[..e] + ['='];
  }

  // ---------------------------------------------------------------- no new bearer match

  /** A bearer match that the query rewrite seems to make was there before. */
  lemma BearerMatchSurvives(w: WordClass, prev: Option<char>, c: char, s: string, rest: string)
    requires rest == SubQuery(s) && BearerMatch(w, prev, [c] + rest) > 0
    ensures |[c] + rest| >= 6
    ensures var n := 5 + SpacesOf([c] + rest);
      n < |s| && n < |rest| && s[..n] == rest[..n] && s[n] == rest[n] && IsTokenChar(s[n])
  {
    hide SubQuery, BearerMatch;
    var out := [c] + rest;
    MatchToken(w, prev, out);
    var n := 5 + SpacesOf(out);
    forall i | 0 <= i < n ensures i < |rest| && rest[i] != '=' {
      NoEqualsInside(w, prev, out, i + 1);
      assert out[i + 1] == rest[i];
    }
    assert out[n + 1] == rest[n];
    InputUntilEquals(s, rest, n);
  }

  lemma NoEqualsInside(w: WordClass, prev: Option<char>, s: string, i: nat)
    requires BearerMatch(w, prev, s) > 0 && 1 <= i < 6 + SpacesOf(s)
    ensures i < |s| && s[i] != '='
  {
    assert i >= 6 ==> s[i] == s[6..][i - 6];
  }

  /** The first position of a rewritten text: a bearer match there is the redacted form. */
  lemma FirstBearerRedacted(w: WordClass, prev: Option<char>, s: string)
    requires s != "" && BearerClean(w, prev, s)
    ensures var out := [s[0]] + SubQuery(s[1..]); var n := BearerMatch(w, prev, out);
      n > 0 ==> out[..n] == BEARER_REDACTED
  {
    hide SubQuery, BearerMatch;
    var rest := SubQuery(s[1..]);
    var out := [s[0]] + rest;
    if BearerMatch(w, prev, out) > 0 {
      BearerMatchSurvives(w, prev, s[0], s[1..], rest);
      var n := 6 + SpacesOf(out);
      assert s[..n] == [s[0]] + s[1..][..n - 1] && out[..n] == [s[0]] + rest[..n - 1];
      BearerMatchMoves(w, prev, out, s);
      assert s[..BearerMatch(w, prev, s)] == BEARER_REDACTED;
      BearerMatchEnds(w, prev, s);
      RedactedPrefixKept(w, prev, s, rest);
    }
  }

  /** A redacted match has no equals sign, so the rewrite of what follows keeps it and its end. */
  lemma RedactedPrefixKept(w: WordClass, prev: Option<char>, s: string, rest: string)
    requires s != "" && rest == SubQuery(s[1..]) && Boundary(w, prev)
    requires |s| >= 17 && s[..17] == BEARER_REDACTED && (|s| > 17 ==> !IsTokenChar(s[17]))
    ensures var out := [s[0]] + rest; BearerMatch(w, prev, out) == 17 && out[..17] == BEARER_REDACTED
  {
    hide SubQuery, BearerMatch;
    var out := [s[0]] + rest;
    assert forall i :: 0 <= i < 16 ==> s[1..][i] == s[..17][i + 1] == BEARER_REDACTED[i + 1];
    SubQueryUntilEquals(s[1..], 16);
    assert out[..17] == [s[0]] + rest[..16] && s[..17] == [s[0]] + s[1..][..16];
    assert out == BEARER_REDACTED + out[17..];
    if |out| > 17 {
      assert |s| > 17 && out[17] == rest[16] == s[1..][16] == s[17];
    }
    RedactedMatches(w, prev, out[17..]);
  }

  /** Redacting query secrets keeps a text clean of bearer tokens. */
  lemma {:induction false} QueryKeepsBearerClean(w: WordClass, prev: Option<char>, s: string)
    requires BearerClean(w, prev, s)
    ensures BearerClean(w, prev, SubQuery(s))
    decreases |s|
  {
    hide BearerMatch, QueryMatch, KeyLength;
    if s != "" {
      if QueryMatch(s) == 0 {
        SubQuerySkips(s);
        FirstBearerRedacted(w, prev, s);
        QueryKeepsBearerClean(w, Some(s[0]), s[1..]);
        assert SubQuery(s)[1..] == SubQuery(s[1..]);
      } else {
        var n := QueryMatch(s);
        BearerCleanSuffix(w, prev, s, n);
        QueryKeepsBearerClean(w, Some(s[n - 1]), s[n..]);
        PrependSecret(w, prev, s);
      }
    }
  }

  lemma PrependSecret(w: WordClass, prev: Option<char>, s: string)
    requires QueryMatch(s) > 0
    requires BearerClean(w, Some(s[QueryMatch(s) - 1]), SubQuery(s[QueryMatch(s)..]))
    ensures BearerClean(w, prev, SubQuery(s))
  {
    hide BearerMatch, QueryMatch, KeyLength;
    var n := QueryMatch(s);
    MatchEnds(s);
    KeyShape(s);
    var head, tail := s[..KeyLength(s) + 1] + REDACTED, SubQuery(s[n..]);
    SubQueryFirst(s[n..]);
    BearerCleanAnywhere(w, Some(s[n - 1]), Some(']'), tail);
    assert SubQuery(s) == head + tail;
    assert (head + tail)[|head|..] == tail;
    assert forall i :: 0 <= i < |head| ==> !IsB(head[i]);
    BearerCleanPrepend(w, prev, head + tail, |head|);
  }

  // ---------------------------------------------------------------- one application suffices

  /** Values that are not there are skipped: the text up to their equals sign is passed on as it is. */
  lemma {:induction false} SkipEmptyValue(s: string, e: nat)
    requires e < |s| && s[e] == '=' && (forall i :: 0 <= i < e ==> s[i] != '=')
    requires e + 1 < |s| ==> !IsValueChar(s[e + 1])
    ensures SubQuery(s) == s[..e + 1] + SubQuery(s[e + 1..])
    decreases e
  {
    hide QueryMatch, SubQuery;
    NoValueNoMatch(s, e);
    SubQuerySkips(s);
    if e > 0 {
      SkipEmptyValue(s[1..], e - 1);
      var rest := SubQuery(s[e + 1..]);
      assert s[1..][e..] == s[e + 1..];
      assert [s[0]] + (s[1..][..e] + rest) == s[..e + 1] + rest;
    } else {
      assert s[..1] == [s[0]];
    }
  }

  /** A name that the rewrite seems to make was there before, followed by the same equals sign. */
  lemma KeySurvives(c: char, s: string, rest: string)
    requires rest == SubQuery(s) && KeyLength([c] + rest) > 0
    ensures var key := KeyLength([c] + rest);
      && key <= |s| && KeyLength([c] + s) == key && s[key - 1] == '=' && forall i :: 0 <= i < key - 1 ==> s[i] != '='
  {
    hide SubQuery, KeyLength;
    var out := [c] + rest;
    var key := KeyLength(out);
    KeyShape(out);
    assert forall i :: 0 <= i < key ==> rest[i] == out[i + 1];
    InputThroughEquals(s, rest, key - 1);
    assert ([c] + s)[..key + 1] == [c] + s[..key] && out[..key + 1] == [c] + rest[..key];
    KeyMoves(out, [c] + s);
    assert forall i :: 0 <= i < key ==> s[i] == s[..key][i] == rest[i];
  }

  lemma NoMatchNoValue(s: string)
    requires QueryMatch(s) == 0 && KeyLength(s) > 0
    ensures KeyLength(s) + 1 < |s| ==> !IsValueChar(s[KeyLength(s) + 1])
  {
    hide KeyLength;
    var key := KeyLength(s);
    assert key + 1 < |s| ==> s[key + 1..][0] == s[key + 1];
  }

  /** Where no secret matched, none matches after the rest has been rewritten. */
  lemma NoNewSecret(s: string)
    requires s != "" && QueryMatch(s) == 0
    ensures QueryMatch([s[0]] + SubQuery(s[1..])) == 0
  {
    hide SubQuery, KeyLength, QueryMatch;
    var rest := SubQuery(s[1..]);
    var out := [s[0]] + rest;
    if QueryMatch(out) > 0 {
      MatchEnds(out);
      ValueStartsAt(out);
      var key := KeyLength(out);
      KeySurvives(s[0], s[1..], rest);
      assert s == [s[0]] + s[1..];
      NoMatchNoValue(s);
      SkipEmptyValue(s[1..], key - 1);
      SubQueryFirst(s[1..][key..]);
    }
  }

  lemma ValueStartsAt(s: string)
    requires QueryMatch(s) > 0
    ensures KeyLength(s) + 1 < |s| && IsValueChar(s[KeyLength(s) + 1])
  {
    hide KeyLength;
    assert s[KeyLength(s) + 1..][0] == s[KeyLength(s) + 1];
  }

  /** The redacted value itself contains no name. */
  lemma QueryCleanStep(s: string)
    requires s != "" && KeyLength(s) == 0 && QueryClean(s[1..])
    ensures QueryClean(s)
  {
    hide KeyLength;
  }

  lemma {:induction false} RedactedHasNoKey(tail: string, k: nat)
    requires k <= |REDACTED| && (tail == "" || !IsValueChar(tail[0])) && QueryClean(tail)
    ensures QueryClean(REDACTED[k..] + tail)
    decreases |REDACTED| - k
  {
    hide KeyLength, QueryMatch, QueryClean, IsValueChar;
    if k == |REDACTED| {
      assert REDACTED[k..] + tail == tail;
    } else {
      var s := REDACTED[k..] + tail;
      RedactedHasNoKey(tail, k + 1);
      assert s[1..] == REDACTED[k + 1..] + tail;
      NoKeyInRedacted(tail, k);
      QueryCleanStep(s);
    }
  }

  /** The four names begin with one of four triples of letters. */
  lemma OtherBeginnings(s: string)
    requires |s| >= 1 && Fold(s[0]) in {'a', 'r', 'i', 'c'} && |s| >= 3 ==>
      [Fold(s[0]), Fold(s[1]), Fold(s[2])] !in {"acc", "ref", "id_", "cli"}
    ensures KeyLength(s) == 0
  {
  }

  lemma NoKeyInRedacted(tail: string, k: nat)
    requires k < |REDACTED|
    ensures KeyLength(REDACTED[k..] + tail) == 0
  {
    hide KeyLength;
    var s := REDACTED[k..] + tail;
    assert s[0] == REDACTED[k];
    if k < 8 {
      assert s[1] == REDACTED[k + 1] && s[2] == REDACTED[k + 2];
      assert [Fold(s[0]), Fold(s[1]), Fold(s[2])][1] == Fold(REDACTED[k + 1]);
      assert [Fold(s[0]), Fold(s[1]), Fold(s[2])][2] == Fold(REDACTED[k + 2]);
    }
    OtherBeginnings(s);
  }

  /** A redacted value is matched as it is, whatever name stands before it. */
  lemma RedactedValueMatches(name: string, tail: string)
    requires (forall i :: 0 <= i < |name| ==> name[i] != '=') && (tail == "" || !IsValueChar(tail[0]))
    requires QueryMatch(name + "=" + REDACTED + tail) > 0
    ensures var s := name + "=" + REDACTED + tail;
      KeyLength(s) == |name| && QueryMatch(s) == |name| + 11 && s[|name| + 1..|name| + 11] == REDACTED
  {
    hide KeyLength, QueryMatch;
    var s := name + "=" + REDACTED + tail;
    MatchEnds(s);
    KeyEndsAtFirstEquals(s, |name|);
    assert s[|name| + 1..|name| + 11] == REDACTED;
    forall i | |name| + 1 <= i < |name| + 11 ensures IsValueChar(s[i]) {
      assert s[i] == REDACTED[i - |name| - 1];
    }
    MatchIs(s, |name|, 10);
  }

  /** Any text without an equals sign, in front of one and of a redacted value, leaves a clean text clean. */
  lemma {:induction false} PrependName(name: string, tail: string)
    requires (forall i :: 0 <= i < |name| ==> name[i] != '=')
    requires (tail == "" || !IsValueChar(tail[0])) && QueryClean(tail)
    ensures QueryClean(name + "=" + REDACTED + tail)
  {
    hide KeyLength, QueryMatch;
    var s := name + "=" + REDACTED + tail;
    if QueryMatch(s) > 0 {
      RedactedValueMatches(name, tail);
    }
    if name == "" {
      assert s[1..] == REDACTED[0..] + tail;
      RedactedHasNoKey(tail, 0);
    } else {
      PrependName(name[1..], tail);
      assert s[1..] == name[1..] + "=" + REDACTED + tail;
    }
  }

  /** One application of the query rewrite leaves redacted values only. */
  lemma {:induction false} SubQueryCleans(s: string)
    ensures QueryClean(SubQuery(s))
    decreases |s|
  {
    hide QueryMatch, KeyLength;
    if s != "" {
      var n := QueryMatch(s);
      if n == 0 {
        SubQuerySkips(s);
        NoNewSecret(s);
        SubQueryCleans(s[1..]);
        assert SubQuery(s)[1..] == SubQuery(s[1..]);
      } else {
        MatchEnds(s);
        KeyShape(s);
        SubQueryCleans(s[n..]);
        SubQueryFirst(s[n..]);
        var key := KeyLength(s);
        PrependName(s[..key], SubQuery(s[n..]));
        assert s[..key + 1] == s[..key] + "=";
      }
    }
  }

  lemma {:induction false} QueryCleanSuffix(s: string, n: nat)
    requires QueryClean(s) && n <= |s|
    ensures QueryClean(s[n..])
    decreases n
  {
    hide QueryMatch, KeyLength;
    if n == 0 {
      assert s[0..] == s;
    } else {
      QueryCleanSuffix(s[1..], n - 1);
      assert s[1..][n - 1..] == s[n..];
    }
  }

  /** A clean text is a fixed point of the rewrite. */
  lemma {:induction false} CleanIsQueryFixed(s: string)
    requires QueryClean(s)
    ensures SubQuery(s) == s
    decreases |s|
  {
    hide QueryMatch, KeyLength;
    if s != "" {
      var n := QueryMatch(s);
      if n == 0 {
        SubQuerySkips(s);
        CleanIsQueryFixed(s[1..]);
      } else {
        MatchEnds(s);
        QueryCleanSuffix(s, n);
        CleanIsQueryFixed(s[n..]);
        assert s == s[..KeyLength(s) + 1] + s[KeyLength(s) + 1..n] + s[n..];
      }
    }
  }

  // ---------------------------------------------------------------- the rewrite changes values only

  ghost predicate NoSecretBefore(s: string, n: nat)
    requires n <= |s|
  {
    forall i :: 0 <= i < n ==> QueryMatch(s[i..]) == 0
  }

  lemma NoSecretLater(s: string, n: nat)
    requires 0 < n <= |s| && NoSecretBefore(s, n)
    ensures QueryMatch(s) == 0 && NoSecretBefore(s[1..], n - 1)
  {
    hide QueryMatch;
    assert s[0..] == s;
    forall i | 0 <= i < n - 1 ensures QueryMatch(s[1..][i..]) == 0 {
      assert s[1..][i..] == s[i + 1..];
    }
  }

  /** Up to the first match a text is kept as it is. */
  lemma {:induction false} TextBeforeSecretIsKept(s: string, n: nat)
    requires n <= |s| && NoSecretBefore(s, n)
    ensures SubQuery(s) == s[..n] + SubQuery(s[n..])
    decreases n
  {
    hide QueryMatch, SubQuery, NoSecretBefore;
    if n == 0 {
      assert s[0..] == s && s[..0] + SubQuery(s) == SubQuery(s);
    } else {
      NoSecretLater(s, n);
      SubQuerySkips(s);
      TextBeforeSecretIsKept(s[1..], n - 1);
      assert s[1..][n - 1..] == s[n..];
      var rest := SubQuery(s[n..]);
      assert [s[0]] + (s[1..][..n - 1] + rest) == s[..n] + rest;
    }
  }

  lemma SubQueryTakes(s: string)
    requires QueryMatch(s) > 0
    ensures SubQuery(s) == s[..KeyLength(s) + 1] + REDACTED + SubQuery(s[QueryMatch(s)..])
  {
    hide KeyLength, QueryMatch;
  }

  /**
   The whole rewrite, one match at a time: everything up to the first secret's equals sign
   stays, its value becomes the mask, and the same happens again behind it.
   */
  lemma FirstSecret(s: string, i: nat)
    requires i < |s| && NoSecretBefore(s, i) && QueryMatch(s[i..]) > 0
    ensures var e, n := i + KeyLength(s[i..]) + 1, i + QueryMatch(s[i..]);
      SubQuery(s) == s[..e] + REDACTED + SubQuery(s[n..])
  {
    hide KeyLength, QueryMatch, SubQuery, NoSecretBefore;
    TextBeforeSecretIsKept(s, i);
    SubQueryTakes(s[i..]);
    var k, m := KeyLength(s[i..]) + 1, QueryMatch(s[i..]);
    assert s[i..][m..] == s[i + m..];
    var rest := SubQuery(s[i + m..]);
    assert s[..i] + (s[i..][..k] + REDACTED + rest) == s[..i + k] + REDACTED + rest;
  }

  // ---------------------------------------------------------------- what the pattern matches

  predicate IsSecretName(name: string) {
    name == "access_token" || name == "refresh_token" || name == "id_token" || name == "client_secret"
  }

  predicate InValue(c: char) {
    !IsSpace(c) && c != '&'
  }

  /**
   What the pattern matches from `i` to `n`: one of the four names in any case, an equals sign,
   and a whole value.
   */
  predicate IsSecretAt(s: string, i: nat, name: string, n: nat) {
    && IsSecretName(name) && i + |name| + 1 < n <= |s|
    && SpellsAt(s, i, name) && s[i + |name|] == '='
    && IsSpanOf(s, i + |name| + 1, n, InValue) && (n < |s| ==> !InValue(s[n]))
  }

  predicate IsPlainWord(name: string) {
    forall k :: 0 <= k < |name| ==> name[k] == '_' || 'a' <= name[k] <= 'z'
  }

  lemma NamesArePlain(name: string)
    requires IsSecretName(name)
    ensures IsPlainWord(name) && |name| > 0
  {
  }

  lemma KeySpells(s: string, name: string)
    requires IsPlainWord(name)
    ensures StartsWithFold(s, name + "=") <==> |s| > |name| && SpellsAt(s, 0, name) && s[|name|] == '='
  {
    var word := name + "=";
    FoldSpells(s, word);
    hide StartsWithFold;
    assert forall k :: 0 <= k < |name| ==> word[k] == name[k];
    assert word[|name|] == '=';
  }

  lemma KeyIsName(s: string, name: string)
    requires IsSecretName(name) && StartsWithFold(s, name + "=")
    ensures KeyLength(s) == |name|
  {
    NamesArePlain(name);
    KeySpells(s, name);
    assert "access_token" + "=" == "access_token=" && "refresh_token" + "=" == "refresh_token=";
    assert "id_token" + "=" == "id_token=" && "client_secret" + "=" == "client_secret=";
    assert KeyLength(s) > 0;
    hide KeyLength, StartsWithFold;
    NameHasNoEquals(s, name);
    KeyEndsAtFirstEquals(s, |name|);
  }

  lemma NameHasNoEquals(s: string, name: string)
    requires IsPlainWord(name) && SpellsAt(s, 0, name)
    ensures forall k :: 0 <= k < |name| ==> s[k] != '='
  {
    forall k | 0 <= k < |name| ensures s[k] != '=' {
      assert IsLetter(s[0 + k], name[k]);
    }
  }

  lemma KeyHasName(s: string) returns (name: string)
    requires KeyLength(s) > 0
    ensures IsSecretName(name) && StartsWithFold(s, name + "=") && KeyLength(s) == |name|
  {
    assert "access_token" + "=" == "access_token=" && "refresh_token" + "=" == "refresh_token=";
    assert "id_token" + "=" == "id_token=" && "client_secret" + "=" == "client_secret=";
    name := if StartsWithFold(s, "access_token=") then "access_token"
            else if StartsWithFold(s, "refresh_token=") then "refresh_token"
            else if StartsWithFold(s, "id_token=") then "id_token"
            else "client_secret";
    hide StartsWithFold;
  }

  /** The match function finds exactly what the pattern describes. */
  lemma QueryMatchExact(s: string, n: nat)
    requires n > 0
    ensures QueryMatch(s) == n <==> exists name :: IsSecretAt(s, 0, name, n)
    ensures forall name :: IsSecretAt(s, 0, name, n) ==> KeyLength(s) == |name|
  {
    if QueryMatch(s) == n {
      MatchIsSecret(s, n);
    }
    forall name | IsSecretAt(s, 0, name, n) ensures QueryMatch(s) == n && KeyLength(s) == |name| {
      SecretIsMatch(s, name, n);
    }
  }

  lemma MatchIsSecret(s: string, n: nat)
    requires n > 0 && QueryMatch(s) == n
    ensures exists name :: IsSecretAt(s, 0, name, n)
  {
    MatchEnds(s);
    var name := KeyHasName(s);
    NamesArePlain(name);
    KeySpells(s, name);
    var k := |name| + 1;
    assert forall i :: k <= i < n ==> s[i] == s[k..][i - k];
    hide KeyLength, StartsWithFold, SpellsAt, IsSpace;
    assert IsSecretAt(s, 0, name, n);
  }

  lemma SecretIsMatch(s: string, name: string, n: nat)
    requires IsSecretAt(s, 0, name, n)
    ensures QueryMatch(s) == n && KeyLength(s) == |name|
  {
    NamesArePlain(name);
    KeySpells(s, name);
    KeyIsName(s, name);
    hide KeyLength, StartsWithFold, SpellsAt, IsSpace, QueryMatch;
    MatchIs(s, |name|, n - |name| - 1);
  }

  /** The same, at any position of the text. */
  lemma SecretShift(s: string, i: nat, name: string, n: nat)
    requires i <= |s|
    ensures IsSecretAt(s, i, name, i + n) <==> IsSecretAt(s[i..], 0, name, n)
  {
    hide IsSpace, IsLetter, IsSecretName;
    var t := s[i..];
    assert forall k :: 0 <= k < |t| ==> t[k] == s[i + k];
    if IsSecretAt(t, 0, name, n) {
      forall k | i + |name| + 1 <= k < i + n ensures InValue(s[k]) {
        assert s[k] == t[k - i];
      }
    }
  }

  /** What a log line shows of a secret's value, from `from` to `n`. */
  predicate IsMaskedValue(s: string, from: nat, n: nat) {
    from <= n <= |s| && s[from..n] == "[REDACTED]"
  }

  ghost predicate HidesSecretsAt(s: string, i: nat) {
    forall name, n: nat :: IsSecretAt(s, i, name, n) ==> IsMaskedValue(s, i + |name| + 1, n)
  }

  /** Behind each of the four names, wherever it stands, there is the mask or no value. */
  ghost predicate HidesSecrets(s: string) {
    forall i: nat :: i < |s| ==> HidesSecretsAt(s, i)
  }

  ghost predicate ValueCleanAt(s: string, i: nat)
    requires i <= |s|
  {
    QueryMatch(s[i..]) > 0 ==> s[i..][KeyLength(s[i..]) + 1..QueryMatch(s[i..])] == REDACTED
  }

  lemma ValueCleanAtExactly(s: string, i: nat)
    requires i < |s|
    ensures ValueCleanAt(s, i) <==> HidesSecretsAt(s, i)
  {
    hide QueryMatch, KeyLength, IsSecretAt;
    var t := s[i..];
    var m := QueryMatch(t);
    if m > 0 {
      QueryMatchExact(t, m);
      var name :| IsSecretAt(t, 0, name, m);
      SecretShift(s, i, name, m);
      assert t[|name| + 1..m] == s[i + |name| + 1..i + m];
    }
    forall name, n: nat | IsSecretAt(s, i, name, n) ensures m > 0 && n == i + m && KeyLength(t) == |name| {
      SecretIsInside(s, i, name, n);
      SecretShift(s, i, name, n - i);
      QueryMatchExact(t, n - i);
    }
  }

  lemma SecretIsInside(s: string, i: nat, name: string, n: nat)
    requires IsSecretAt(s, i, name, n)
    ensures i + |name| + 1 < n <= |s|
  {
  }

  lemma {:induction false} QueryCleanEverywhere(s: string)
    ensures QueryClean(s) <==> forall i :: 0 <= i < |s| ==> ValueCleanAt(s, i)
  {
    hide QueryMatch, KeyLength;
    if s != "" {
      QueryCleanEverywhere(s[1..]);
      forall i | 1 <= i < |s| ensures ValueCleanAt(s, i) <==> ValueCleanAt(s[1..], i - 1) {
        assert s[1..][i - 1..] == s[i..];
      }
      assert s[0..] == s;
      assert QueryClean(s) <==> ValueCleanAt(s, 0) && QueryClean(s[1..]);
      hide ValueCleanAt, QueryClean;
      forall i | 0 <= i < |s[1..]| ensures ValueCleanAt(s[1..], i) <==> ValueCleanAt(s, i + 1) {
        assert (i + 1) - 1 == i;
      }
    }
  }

  /** A text is clean exactly when it hides every secret. */
  lemma QueryCleanExactly(s: string)
    ensures QueryClean(s) <==> HidesSecrets(s)
  {
    QueryCleanEverywhere(s);
    hide QueryClean, HidesSecretsAt, ValueCleanAt;
    forall i: nat | i < |s| ensures ValueCleanAt(s, i) <==> HidesSecretsAt(s, i) {
      ValueCleanAtExactly(s, i);
    }
  }

  // ---------------------------------------------------------------- the whole rewrite, as a relation

  ghost predicate HasSecret(s: string, i: nat) {
    exists name, n: nat :: IsSecretAt(s, i, name, n)
  }

  /** `t` is `s` with the values of its secrets masked from the left, and nothing else changed. */
  ghost predicate SecretsMasked(s: string, t: string)
    decreases |s|
  {
    || (t == s && forall i: nat :: !HasSecret(s, i))
    || exists i: nat, name, n: nat, rest ::
         && IsSecretAt(s, i, name, n) && (forall j: nat :: j < i ==> !HasSecret(s, j))
         && t == s[..i + |name| + 1] + "[REDACTED]" + rest && SecretsMasked(s[n..], rest)
  }

  lemma SecretAtExactly(s: string, i: nat) returns (name: string)
    requires i < |s|
    ensures HasSecret(s, i) <==> QueryMatch(s[i..]) > 0
    ensures var m := QueryMatch(s[i..]); m > 0 ==> IsSecretAt(s, i, name, i + m) && |name| == KeyLength(s[i..])
  {
    hide QueryMatch, KeyLength, IsSecretAt;
    var t, m := s[i..], QueryMatch(s[i..]);
    name := "";
    if m > 0 {
      QueryMatchExact(t, m);
      name :| IsSecretAt(t, 0, name, m);
      SecretShift(s, i, name, m);
    }
    if other, n: nat :| IsSecretAt(s, i, other, n) {
      SecretIsInside(s, i, other, n);
      SecretShift(s, i, other, n - i);
      QueryMatchExact(t, n - i);
    }
  }

  /** Where the first secret is, or the end of the text. */
  lemma FirstSecretAt(s: string) returns (i: nat)
    ensures i <= |s| && NoSecretBefore(s, i) && (i < |s| ==> HasSecret(s, i))
    ensures forall j: nat :: j < i ==> !HasSecret(s, j)
  {
    hide QueryMatch, HasSecret;
    i := 0;
    while i < |s| && !HasSecret(s, i)
      invariant i <= |s| && NoSecretBefore(s, i)
      invariant forall j: nat :: j < i ==> !HasSecret(s, j)
    {
      var _ := SecretAtExactly(s, i);
      i := i + 1;
    }
  }

  lemma {:induction false} SubQueryMasks(s: string)
    ensures SecretsMasked(s, SubQuery(s))
    decreases |s|
  {
    hide QueryMatch, KeyLength, SubQuery, HasSecret, IsSecretAt, NoSecretBefore;
    var i := FirstSecretAt(s);
    if i == |s| {
      NoSecretIsMasked(s);
    } else {
      var name := SecretAtExactly(s, i);
      FirstSecret(s, i);
      var n := i + QueryMatch(s[i..]);
      SecretIsInside(s, i, name, n);
      SubQueryMasks(s[n..]);
      var rest := SubQuery(s[n..]);
      assert SubQuery(s) == s[..i + |name| + 1] + "[REDACTED]" + rest;
    }
  }

  lemma NoSecretBeyond(s: string, i: nat)
    requires i >= |s|
    ensures !HasSecret(s, i)
  {
  }

  lemma NoSecretIsMasked(s: string)
    requires NoSecretBefore(s, |s|) && forall j: nat :: j < |s| ==> !HasSecret(s, j)
    ensures SubQuery(s) == s && forall i: nat :: !HasSecret(s, i)
  {
    TextBeforeSecretIsKept(s, |s|);
    hide HasSecret, QueryMatch;
    forall i: nat ensures !HasSecret(s, i) {
      if i >= |s| {
        NoSecretBeyond(s, i);
      }
    }
    assert s[..|s|] == s && s[|s|..] == "";
  }
}

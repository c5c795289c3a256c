/** The bearer-token rewrite on one string: one application leaves only redacted matches. */
module BearerRedaction {
  import opened Characters
  import opened Common

  const REDACTED := "[REDACTED]"
  const BEARER_REDACTED := "Bearer [REDACTED]"

  // ---------------------------------------------------------------- character classes

  /** Word characters as `\b` understands them: any classification that knows the letter b. */
  type WordClass = f: char -> bool | f('b') && f('B') witness (c: char) => true

  /** Case-insensitive matching of ASCII letters, with the four other letters that match one of them. */
  function Fold(c: char): char {
    if 'A' <= c <= 'Z' then c - 'A' + 'a'
    else if c as int == 0x130 || c as int == 0x131 then 'i'
    else if c as int == 0x17F then 's'
    else if c as int == 0x212A then 'k'
    else c
  }

  predicate StartsWithFold(s: string, word: string) {
    |word| <= |s| && forall i :: 0 <= i < |word| ==> Fold(s[i]) == word[i]
  }

  predicate IsTokenChar(c: char) {
    !IsSpace(c) && c != ',' && c != ';'
  }

  predicate IsB(c: char) {
    c == 'b' || c == 'B'
  }

  // ---------------------------------------------------------------- the bearer rewrite

  predicate Boundary(w: WordClass, prev: Option<char>) {
    prev.None? || !w(prev.value)
  }

  /** The length of a match of the bearer pattern at the start of `s`, 0 when there is none. */
  function BearerMatch(w: WordClass, prev: Option<char>, s: string): (n: nat)
    ensures n <= |s|
  {
    if !Boundary(w, prev) || !StartsWithFold(s, "bearer") then 0
    else
      var spaces := Run(s[6..], IsSpace);
      var token := Run(s[6 + spaces..], IsTokenChar);
      if spaces == 0 || token == 0 then 0 else 6 + spaces + token
  }

  /** Leftmost, non-overlapping replacement; `prev` is the character before `s` in the whole text. */
  function SubBearer(w: WordClass, prev: Option<char>, s: string): string
    decreases |s|
  {
    if s == "" then ""
    else
      var n := BearerMatch(w, prev, s);
      if n > 0 then BEARER_REDACTED + SubBearer(w, Some(s[n - 1]), s[n..])
      else [s[0]] + SubBearer(w, Some(s[0]), s[1..])
  }

  /** Wherever the pattern matches, at any position, the match is the redacted form already. */
  predicate BearerClean(w: WordClass, prev: Option<char>, s: string)
    decreases |s|
  {
    s != "" ==>
      var n := BearerMatch(w, prev, s);
      && (n > 0 ==> s[..n] == BEARER_REDACTED)
      && BearerClean(w, Some(s[0]), s[1..])
  }

  /** A match starts with a b and ends where its token does. */
  lemma BearerMatchEnds(w: WordClass, prev: Option<char>, s: string)
    requires BearerMatch(w, prev, s) > 0
    ensures Boundary(w, prev) && IsB(s[0])
    ensures var n := BearerMatch(w, prev, s); n < |s| ==> !IsTokenChar(s[n]) && !IsB(s[n])
  {
    var spaces := Run(s[6..], IsSpace);
    var token := Run(s[6 + spaces..], IsTokenChar);
    assert Fold(s[0]) == "bearer"[0];
    assert 6 + spaces + token < |s| ==> s[6 + spaces..][token] == s[6 + spaces + token];
  }

  function Before(prev: Option<char>, s: string, n: nat): Option<char>
    requires n <= |s|
  {
    if n == 0 then prev else Some(s[n - 1])
  }

  lemma {:induction false} BearerCleanSuffix(w: WordClass, prev: Option<char>, s: string, n: nat)
    requires BearerClean(w, prev, s) && n <= |s|
    ensures BearerClean(w, Before(prev, s, n), s[n..])
    decreases n
  {
    hide BearerMatch;
    if n == 0 {
      assert s[0..] == s;
    } else {
      BearerCleanSuffix(w, Some(s[0]), s[1..], n - 1);
      assert s[1..][n - 1..] == s[n..];
    }
  }

  /** A match starts with a b, so a text that does not start with one ignores what precedes it. */
  lemma BearerCleanAnywhere(w: WordClass, prev: Option<char>, prev': Option<char>, s: string)
    requires BearerClean(w, prev, s) && (s == "" || !IsB(s[0]))
    ensures BearerClean(w, prev', s)
  {
    hide BearerMatch;
    if s != "" && BearerMatch(w, prev', s) > 0 {
      BearerMatchEnds(w, prev', s);
    }
  }

  lemma BearerCleanStep(w: WordClass, prev: Option<char>, s: string)
    requires s != "" && BearerMatch(w, prev, s) == 0 && BearerClean(w, Some(s[0]), s[1..])
    ensures BearerClean(w, prev, s)
  {
    hide BearerMatch;
  }

  /** Characters other than b can be put in front of a clean text. */
  lemma {:induction false} BearerCleanPrepend(w: WordClass, prev: Option<char>, s: string, n: nat)
    requires n <= |s| && forall i :: 0 <= i < n ==> !IsB(s[i])
    requires BearerClean(w, Before(prev, s, n), s[n..])
    ensures BearerClean(w, prev, s)
    decreases n
  {
    hide BearerMatch, BearerClean, IsB, Before;
    if n == 0 {
      NothingBefore(prev, s);
    } else {
      OneBefore(prev, s, n);
      BearerCleanPrepend(w, Some(s[0]), s[1..], n - 1);
      if BearerMatch(w, prev, s) > 0 {
        BearerMatchEnds(w, prev, s);
      }
      BearerCleanStep(w, prev, s);
    }
  }

  lemma NothingBefore(prev: Option<char>, s: string)
    ensures s[0..] == s && Before(prev, s, 0) == prev
  {
  }

  lemma OneBefore(prev: Option<char>, s: string, n: nat)
    requires 0 < n <= |s|
    ensures s[1..][n - 1..] == s[n..] && Before(Some(s[0]), s[1..], n - 1) == Before(prev, s, n)
  {
  }

  /** The exact match: what is before, between and after the two words. */
  lemma BearerMatchIs(w: WordClass, prev: Option<char>, s: string, spaces: nat, token: nat)
    requires Boundary(w, prev) && StartsWithFold(s, "bearer") && spaces > 0 && token > 0 && 6 + spaces + token <= |s|
    requires forall i :: 6 <= i < 6 + spaces ==> IsSpace(s[i])
    requires forall i :: 6 + spaces <= i < 6 + spaces + token ==> IsTokenChar(s[i])
    requires 6 + spaces + token < |s| ==> !IsTokenChar(s[6 + spaces + token])
    ensures BearerMatch(w, prev, s) == 6 + spaces + token
  {
    RunIs(s[6..], IsSpace, spaces);
    RunIs(s[6 + spaces..], IsTokenChar, token);
  }

  /** The redacted form, followed by nothing or by a character that ends a token, matches as itself. */
  lemma RedactedMatches(w: WordClass, prev: Option<char>, tail: string)
    requires Boundary(w, prev) && (tail == "" || !IsTokenChar(tail[0]))
    ensures BearerMatch(w, prev, BEARER_REDACTED + tail) == |BEARER_REDACTED|
  {
    BearerMatchIs(w, prev, BEARER_REDACTED + tail, 1, 10);
  }

  lemma SubBearerFirst(w: WordClass, prev: Option<char>, s: string)
    ensures SubBearer(w, prev, s) == "" <==> s == ""
    ensures s != "" ==> SubBearer(w, prev, s)[0] == s[0] || IsB(s[0])
    ensures s != "" && BearerMatch(w, prev, s) > 0 ==> IsB(SubBearer(w, prev, s)[0])
  {
    hide BearerMatch;
    if s != "" && BearerMatch(w, prev, s) > 0 {
      BearerMatchEnds(w, prev, s);
    }
  }

  lemma SubBearerSkips(w: WordClass, prev: Option<char>, s: string)
    requires s != "" && BearerMatch(w, prev, s) == 0
    ensures SubBearer(w, prev, s) == [s[0]] + SubBearer(w, Some(s[0]), s[1..])
  {
  }

  /** The rewrite changes no character before the first b of its output. */
  lemma {:induction false} SubBearerUntilB(w: WordClass, prev: Option<char>, s: string, out: string, n: nat)
    requires out == SubBearer(w, prev, s) && n <= |out| && forall i :: 0 <= i < n ==> !IsB(out[i])
    ensures n <= |s| && out[..n] == s[..n] && out[n..] == SubBearer(w, Before(prev, s, n), s[n..])
    decreases n
  {
    hide BearerMatch, SubBearer, IsB;
    if n == 0 {
      assert s[0..] == s;
    } else {
      SubBearerFirst(w, prev, s);
      assert !IsB(out[0]);
      SubBearerSkips(w, prev, s);
      SubBearerUntilB(w, Some(s[0]), s[1..], out[1..], n - 1);
      assert s[1..][n - 1..] == s[n..] && out[1..][n - 1..] == out[n..];
      assert s[..n] == [s[0]] + s[1..][..n - 1] && out[..n] == [out[0]] + out[1..][..n - 1];
    }
  }

  /** The number of spaces in a match. */
  function SpacesOf(s: string): nat
    requires |s| >= 6
  {
    Run(s[6..], IsSpace)
  }

  /** A match is decided by the word, the spaces and one token character. */
  lemma BearerMatchMoves(w: WordClass, prev: Option<char>, from: string, s: string)
    requires BearerMatch(w, prev, from) > 0
    requires var n := 6 + SpacesOf(from); n < |s| && s[..n] == from[..n] && IsTokenChar(s[n])
    ensures BearerMatch(w, prev, s) > 0 && SpacesOf(s) == SpacesOf(from)
  {
    var spaces := SpacesOf(from);
    assert forall i :: 0 <= i < 6 + spaces ==> s[i] == s[..6 + spaces][i] == from[..6 + spaces][i] == from[i];
    assert forall i :: 0 <= i < spaces ==> s[6..][i] == s[6 + i] == from[6..][i];
    RunIs(s[6..], IsSpace, spaces);
  }

  /** A match has a token after its spaces. */
  lemma MatchToken(w: WordClass, prev: Option<char>, s: string)
    requires BearerMatch(w, prev, s) > 0
    ensures |s| >= 6 && 6 + SpacesOf(s) < |s| && IsTokenChar(s[6 + SpacesOf(s)])
  {
  }

  /** Between the first letter and the token a match has no b. */
  lemma NoBInside(w: WordClass, prev: Option<char>, s: string, i: nat)
    requires BearerMatch(w, prev, s) > 0 && 1 <= i < 6 + SpacesOf(s)
    ensures i < |s| && !IsB(s[i])
  {
    assert i >= 6 ==> s[i] == s[6..][i - 6];
  }

  /** A match after rewriting the rest was there before: up to its token the texts agree. */
  lemma NewMatchAgrees(w: WordClass, prev: Option<char>, c: char, s: string, rest: string)
    requires rest == SubBearer(w, Some(c), s) && BearerMatch(w, prev, [c] + rest) > 0
    ensures |[c] + rest| >= 6
    ensures var n := 5 + SpacesOf([c] + rest);
      n < |s| && n <= |rest| && s[..n] == rest[..n] && IsTokenChar(s[n])
  {
    hide BearerMatch, SubBearer, Run;
    var out := [c] + rest;
    MatchToken(w, prev, out);
    var n := 5 + SpacesOf(out);
    forall i | 0 <= i < n ensures i < |rest| && !IsB(rest[i]) {
      NoBInside(w, prev, out, i + 1);
      assert out[i + 1] == rest[i];
    }
    assert rest[n] == out[n + 1];
    SubBearerUntilB(w, Some(c), s, rest, n);
    SubBearerFirst(w, Before(Some(c), s, n), s[n..]);
    assert rest[n..][0] == rest[n] && s[n..][0] == s[n];
  }

  /** Where nothing matched, nothing matches after the rest has been rewritten. */
  lemma NoNewBearer(w: WordClass, prev: Option<char>, s: string)
    requires s != "" && BearerMatch(w, prev, s) == 0
    ensures BearerMatch(w, prev, [s[0]] + SubBearer(w, Some(s[0]), s[1..])) == 0
  {
    hide BearerMatch, SubBearer;
    var rest := SubBearer(w, Some(s[0]), s[1..]);
    var out := [s[0]] + rest;
    if BearerMatch(w, prev, out) > 0 {
      NewMatchAgrees(w, prev, s[0], s[1..], rest);
      var n := 5 + SpacesOf(out);
      assert out[..n + 1] == [s[0]] + rest[..n];
      assert s[..n + 1] == [s[0]] + s[1..][..n];
      BearerMatchMoves(w, prev, out, s);
    }
  }

  /** One application of the bearer rewrite leaves redacted matches only. */
  lemma {:induction false} SubBearerCleans(w: WordClass, prev: Option<char>, s: string)
    ensures BearerClean(w, prev, SubBearer(w, prev, s))
    decreases |s|
  {
    hide BearerMatch, IsTokenChar;
    if s != "" {
      var n := BearerMatch(w, prev, s);
      if n == 0 {
        NoNewBearer(w, prev, s);
        SubBearerCleans(w, Some(s[0]), s[1..]);
        assert SubBearer(w, prev, s)[1..] == SubBearer(w, Some(s[0]), s[1..]);
      } else {
        var tail := SubBearer(w, Some(s[n - 1]), s[n..]);
        SubBearerCleans(w, Some(s[n - 1]), s[n..]);
        BearerMatchEnds(w, prev, s);
        TailIsKept(w, prev, s);
        PrependRedacted(w, prev, Some(s[n - 1]), tail);
      }
    }
  }

  /** What follows a match is nothing or the end of a token, and the rewrite keeps it. */
  lemma TailIsKept(w: WordClass, prev: Option<char>, s: string)
    requires BearerMatch(w, prev, s) > 0
    ensures var n := BearerMatch(w, prev, s); var tail := SubBearer(w, Some(s[n - 1]), s[n..]);
      tail == "" || (!IsTokenChar(tail[0]) && !IsB(tail[0]))
  {
    hide BearerMatch, IsTokenChar;
    var n := BearerMatch(w, prev, s);
    BearerMatchEnds(w, prev, s);
    SubBearerFirst(w, Some(s[n - 1]), s[n..]);
  }

  lemma PrependRedacted(w: WordClass, prev: Option<char>, last: Option<char>, tail: string)
    requires Boundary(w, prev) && (tail == "" || (!IsTokenChar(tail[0]) && !IsB(tail[0])))
    requires BearerClean(w, last, tail)
    ensures BearerClean(w, prev, BEARER_REDACTED + tail)
  {
    hide BearerMatch, IsTokenChar;
    var s := BEARER_REDACTED + tail;
    RedactedMatches(w, prev, tail);
    assert s[..|BEARER_REDACTED|] == BEARER_REDACTED;
    BearerCleanAnywhere(w, last, Some(']'), tail);
    assert s[1..][16..] == tail;
    BearerCleanPrepend(w, Some(s[0]), s[1..], 16);
  }

  /** A clean text is a fixed point of the rewrite. */
  lemma {:induction false} CleanIsBearerFixed(w: WordClass, prev: Option<char>, s: string)
    requires BearerClean(w, prev, s)
    ensures SubBearer(w, prev, s) == s
    decreases |s|
  {
    hide BearerMatch;
    if s != "" {
      var n := BearerMatch(w, prev, s);
      if n == 0 {
        CleanIsBearerFixed(w, Some(s[0]), s[1..]);
      } else {
        BearerCleanSuffix(w, prev, s, n);
        CleanIsBearerFixed(w, Some(s[n - 1]), s[n..]);
        assert s == s[..n] + s[n..];
      }
    }
  }

  // ---------------------------------------------------------------- the rewrite changes matches only

  ghost predicate NoBearerBefore(w: WordClass, prev: Option<char>, s: string, n: nat)
    requires n <= |s|
  {
    forall i :: 0 <= i < n ==> BearerMatch(w, Before(prev, s, i), s[i..]) == 0
  }

  lemma NoBearerLater(w: WordClass, prev: Option<char>, s: string, n: nat)
    requires 0 < n <= |s| && NoBearerBefore(w, prev, s, n)
    ensures BearerMatch(w, prev, s) == 0 && NoBearerBefore(w, Some(s[0]), s[1..], n - 1)
  {
    hide BearerMatch;
    assert s[0..] == s;
    forall i | 0 <= i < n - 1 ensures BearerMatch(w, Before(Some(s[0]), s[1..], i), s[1..][i..]) == 0 {
      assert s[1..][i..] == s[i + 1..];
      assert BearerMatch(w, Before(prev, s, i + 1), s[i + 1..]) == 0;
    }
  }

  /** Up to the first match a text is kept as it is. */
  lemma {:induction false} TextBeforeMatchIsKept(w: WordClass, prev: Option<char>, s: string, n: nat)
    requires n <= |s| && NoBearerBefore(w, prev, s, n)
    ensures SubBearer(w, prev, s) == s[..n] + SubBearer(w, Before(prev, s, n), s[n..])
    decreases n
  {
    hide BearerMatch, SubBearer, NoBearerBefore;
    if n == 0 {
      assert s[0..] == s && s[..0] + SubBearer(w, prev, s) == SubBearer(w, prev, s);
    } else {
      NoBearerLater(w, prev, s, n);
      SubBearerSkips(w, prev, s);
      TextBeforeMatchIsKept(w, Some(s[0]), s[1..], n - 1);
      assert s[1..][n - 1..] == s[n..] && Before(Some(s[0]), s[1..], n - 1) == Before(prev, s, n);
      var rest := SubBearer(w, Before(prev, s, n), s[n..]);
      assert [s[0]] + (s[1..][..n - 1] + rest) == s[..n] + rest;
    }
  }

  /**
   The whole rewrite, one match at a time: what precedes the first match stays, the match
   becomes the redacted form, and the same happens again behind it.
   */
  lemma FirstBearerMatch(w: WordClass, prev: Option<char>, s: string, i: nat)
    requires i < |s| && NoBearerBefore(w, prev, s, i) && BearerMatch(w, Before(prev, s, i), s[i..]) > 0
    ensures var n := i + BearerMatch(w, Before(prev, s, i), s[i..]);
      SubBearer(w, prev, s) == s[..i] + BEARER_REDACTED + SubBearer(w, Some(s[n - 1]), s[n..])
  {
    hide BearerMatch;
    TextBeforeMatchIsKept(w, prev, s, i);
    var m := BearerMatch(w, Before(prev, s, i), s[i..]);
    assert s[i..][m..] == s[i + m..];
  }

  /**
   Case-insensitive equality with a lower-case ASCII letter or an underscore: either case, and the
   four letters beyond ASCII that the pattern language takes for i, s and k.
   */
  predicate IsLetter(c: char, letter: char) {
    || LowerChar(c) == letter
    || (letter == 'i' && (c as int == 0x130 || c as int == 0x131))
    || (letter == 's' && c as int == 0x17F)
    || (letter == 'k' && c as int == 0x212A)
  }

  predicate SpellsAt(s: string, i: nat, word: string) {
    i + |word| <= |s| && forall k :: 0 <= k < |word| ==> IsLetter(s[i + k], word[k])
  }

  lemma FoldIsLetter(c: char, letter: char)
    requires letter == '_' || letter == '=' || 'a' <= letter <= 'z'
    ensures Fold(c) == letter <==> IsLetter(c, letter)
  {
  }

  /** The folded comparison spells the word, for words of lower-case letters, underscores and equals signs. */
  lemma FoldSpells(s: string, word: string)
    requires forall k :: 0 <= k < |word| ==> word[k] == '_' || word[k] == '=' || 'a' <= word[k] <= 'z'
    ensures StartsWithFold(s, word) <==> SpellsAt(s, 0, word)
  {
    hide Fold, IsLetter;
    forall k | 0 <= k < |word| && |word| <= |s| ensures Fold(s[k]) == word[k] <==> IsLetter(s[0 + k], word[k]) {
      FoldIsLetter(s[k], word[k]);
    }
  }

  predicate IsSpanOf(s: string, from: nat, to: nat, p: char -> bool) {
    from <= to <= |s| && forall i :: from <= i < to ==> p(s[i])
  }

  /** A character that belongs to a bearer token. */
  predicate InToken(c: char) {
    !IsSpace(c) && c != ',' && c != ';'
  }

  /**
   What the pattern matches from `i` to `n`, `prev` being the character before the text: the word
   bearer, not after a word character, whitespace up to `token`, and a whole token.
   */
  ghost predicate IsBearerAt(w: WordClass, prev: Option<char>, s: string, i: nat, token: nat, n: nat) {
    && i < n <= |s| && SpellsAt(s, i, "bearer")
    && (if i == 0 then prev.None? || !w(prev.value) else !w(s[i - 1]))
    && i + 6 < token < n && IsSpanOf(s, i + 6, token, IsSpace)
    && IsSpanOf(s, token, n, InToken) && (n < |s| ==> !InToken(s[n]))
  }

  lemma BearerMatchStarts(w: WordClass, prev: Option<char>, s: string, n: nat)
    requires n > 0 && BearerMatch(w, prev, s) == n
    ensures exists token: nat :: IsBearerAt(w, prev, s, 0, token, n)
  {
    BearerMatchEnds(w, prev, s);
    FoldSpells(s, "bearer");
    var token := 6 + Run(s[6..], IsSpace);
    assert forall i :: 6 <= i < token ==> s[i] == s[6..][i - 6];
    assert forall i :: token <= i < n ==> s[i] == s[token..][i - token];
    hide Fold, IsLetter, IsSpace;
    assert IsBearerAt(w, prev, s, 0, token, n);
  }

  /** The match function finds exactly what the pattern describes. */
  lemma BearerMatchExact(w: WordClass, prev: Option<char>, s: string, n: nat)
    requires n > 0
    ensures BearerMatch(w, prev, s) == n <==> exists token: nat :: IsBearerAt(w, prev, s, 0, token, n)
  {
    if BearerMatch(w, prev, s) == n {
      BearerMatchStarts(w, prev, s, n);
    }
    hide BearerMatch, IsLetter, Fold, IsSpace;
    if token: nat :| IsBearerAt(w, prev, s, 0, token, n) {
      FoldSpells(s, "bearer");
      BearerMatchIs(w, prev, s, token - 6, n - token);
    }
  }

  /** The same, at any position of the text. */
  lemma BearerMatchAt(w: WordClass, prev: Option<char>, s: string, i: nat, n: nat)
    requires i < n <= |s|
    ensures BearerMatch(w, Before(prev, s, i), s[i..]) == n - i <==>
      exists token: nat :: IsBearerAt(w, prev, s, i, token, n)
  {
    hide BearerMatch;
    BearerMatchExact(w, Before(prev, s, i), s[i..], n - i);
    hide IsBearerAt;
    var length := n - i;
    if token: nat :| IsBearerAt(w, Before(prev, s, i), s[i..], 0, token, length) {
      ShiftBearer(w, prev, s, i, token, length);
    }
    if token: nat :| IsBearerAt(w, prev, s, i, token, n) {
      UnshiftBearer(w, prev, s, i, token, n);
    }
  }

  lemma ShiftBearer(w: WordClass, prev: Option<char>, s: string, i: nat, token: nat, n: nat)
    requires i <= |s| && IsBearerAt(w, Before(prev, s, i), s[i..], 0, token, n)
    ensures IsBearerAt(w, prev, s, i, i + token, i + n)
  {
    hide IsLetter, IsSpace;
    assert forall k :: 0 <= k < |s| - i ==> s[i..][k] == s[i + k];
    forall k | i + 6 <= k < i + token ensures IsSpace(s[k]) {
      assert s[k] == s[i..][k - i];
    }
    forall k | i + token <= k < i + n ensures InToken(s[k]) {
      assert s[k] == s[i..][k - i];
    }
  }

  lemma UnshiftBearer(w: WordClass, prev: Option<char>, s: string, i: nat, token: nat, n: nat)
    requires i <= |s| && IsBearerAt(w, prev, s, i, token, n)
    ensures IsBearerAt(w, Before(prev, s, i), s[i..], 0, token - i, n - i)
  {
    hide IsLetter, IsSpace;
    assert forall k :: 0 <= k < |s| - i ==> s[i..][k] == s[i + k];
  }

  /** What a log line shows of a bearer token from `i` to `n`. */
  predicate IsMaskedBearer(s: string, i: nat, n: nat) {
    i <= n <= |s| && s[i..n] == "Bearer [REDACTED]"
  }

  ghost predicate HidesBearersAt(w: WordClass, prev: Option<char>, s: string, i: nat) {
    forall token: nat, n: nat :: IsBearerAt(w, prev, s, i, token, n) ==> IsMaskedBearer(s, i, n)
  }

  /** Every match of the pattern, wherever it starts, is the redacted form. */
  ghost predicate HidesBearers(w: WordClass, prev: Option<char>, s: string) {
    forall i: nat :: i < |s| ==> HidesBearersAt(w, prev, s, i)
  }

  ghost predicate CleanAt(w: WordClass, prev: Option<char>, s: string, i: nat)
    requires i <= |s|
  {
    var n := BearerMatch(w, Before(prev, s, i), s[i..]);
    n > 0 ==> s[i..i + n] == BEARER_REDACTED
  }

  lemma {:induction false} BearerCleanEverywhere(w: WordClass, prev: Option<char>, s: string)
    ensures BearerClean(w, prev, s) <==> forall i :: 0 <= i < |s| ==> CleanAt(w, prev, s, i)
    decreases |s|
  {
    hide BearerMatch;
    if s != "" {
      BearerCleanEverywhere(w, Some(s[0]), s[1..]);
      assert s[0..] == s;
      forall i: nat | i < |s| - 1 ensures CleanAt(w, Some(s[0]), s[1..], i) <==> CleanAt(w, prev, s, i + 1) {
        CleanShift(w, prev, s, i);
      }
      hide CleanAt;
      CleanHead(w, prev, s);
      forall i | 1 <= i < |s| ensures CleanAt(w, prev, s, i) <==> CleanAt(w, Some(s[0]), s[1..], i - 1) {
        assert i == (i - 1) + 1;
      }
    }
  }

  lemma CleanHead(w: WordClass, prev: Option<char>, s: string)
    requires s != ""
    ensures BearerClean(w, prev, s) <==> CleanAt(w, prev, s, 0) && BearerClean(w, Some(s[0]), s[1..])
  {
    hide BearerMatch;
    assert s[0..] == s;
  }

  lemma CleanShift(w: WordClass, prev: Option<char>, s: string, i: nat)
    requires i + 1 < |s|
    ensures CleanAt(w, Some(s[0]), s[1..], i) <==> CleanAt(w, prev, s, i + 1)
  {
    hide BearerMatch;
    assert s[1..][i..] == s[i + 1..];
    var n := BearerMatch(w, Before(prev, s, i + 1), s[i + 1..]);
    assert s[1..][i..i + n] == s[i + 1..i + 1 + n];
  }

  /** A text is clean exactly when it hides every bearer token. */
  lemma BearerCleanExactly(w: WordClass, prev: Option<char>, s: string)
    ensures BearerClean(w, prev, s) <==> HidesBearers(w, prev, s)
  {
    BearerCleanEverywhere(w, prev, s);
    hide BearerClean, HidesBearersAt, CleanAt;
    forall i: nat | i < |s| ensures CleanAt(w, prev, s, i) <==> HidesBearersAt(w, prev, s, i) {
      CleanAtExactly(w, prev, s, i);
    }
  }

  lemma MatchIsInside(w: WordClass, prev: Option<char>, s: string, i: nat, token: nat, n: nat)
    requires IsBearerAt(w, prev, s, i, token, n)
    ensures i < n <= |s|
  {
  }

  lemma CleanAtExactly(w: WordClass, prev: Option<char>, s: string, i: nat)
    requires i < |s|
    ensures CleanAt(w, prev, s, i) <==> HidesBearersAt(w, prev, s, i)
  {
    hide BearerMatch, IsBearerAt;
    var m := BearerMatch(w, Before(prev, s, i), s[i..]);
    if m > 0 {
      BearerMatchAt(w, prev, s, i, i + m);
    }
    forall token: nat, n: nat | IsBearerAt(w, prev, s, i, token, n) ensures i + m == n && m > 0 {
      MatchIsInside(w, prev, s, i, token, n);
      BearerMatchAt(w, prev, s, i, n);
    }
  }

  // ---------------------------------------------------------------- the whole rewrite, as a relation

  ghost predicate HasBearer(w: WordClass, prev: Option<char>, s: string, i: nat) {
    exists token: nat, n: nat :: IsBearerAt(w, prev, s, i, token, n)
  }

  /** `t` is `s` with its bearer tokens masked from the left, and nothing else changed. */
  ghost predicate BearersMasked(w: WordClass, prev: Option<char>, s: string, t: string)
    decreases |s|
  {
    || (t == s && forall i: nat :: !HasBearer(w, prev, s, i))
    || exists i: nat, token: nat, n: nat, rest ::
         && IsBearerAt(w, prev, s, i, token, n) && (forall j: nat :: j < i ==> !HasBearer(w, prev, s, j))
         && t == s[..i] + "Bearer [REDACTED]" + rest && BearersMasked(w, Some(s[n - 1]), s[n..], rest)
  }

  lemma BearerAtExactly(w: WordClass, prev: Option<char>, s: string, i: nat) returns (token: nat)
    requires i < |s|
    ensures HasBearer(w, prev, s, i) <==> BearerMatch(w, Before(prev, s, i), s[i..]) > 0
    ensures var m := BearerMatch(w, Before(prev, s, i), s[i..]); m > 0 ==> IsBearerAt(w, prev, s, i, token, i + m)
  {
    hide BearerMatch, IsBearerAt;
    var m := BearerMatch(w, Before(prev, s, i), s[i..]);
    token := 0;
    if m > 0 {
      BearerMatchAt(w, prev, s, i, i + m);
      token :| IsBearerAt(w, prev, s, i, token, i + m);
    }
    if t: nat, n: nat :| IsBearerAt(w, prev, s, i, t, n) {
      MatchIsInside(w, prev, s, i, t, n);
      BearerMatchAt(w, prev, s, i, n);
    }
  }

  /** Where the first bearer token is, or the end of the text. */
  lemma FirstBearer(w: WordClass, prev: Option<char>, s: string) returns (i: nat)
    ensures i <= |s| && NoBearerBefore(w, prev, s, i) && (i < |s| ==> HasBearer(w, prev, s, i))
    ensures forall j: nat :: j < i ==> !HasBearer(w, prev, s, j)
  {
    hide BearerMatch, HasBearer;
    i := 0;
    while i < |s| && !HasBearer(w, prev, s, i)
      invariant i <= |s| && NoBearerBefore(w, prev, s, i)
      invariant forall j: nat :: j < i ==> !HasBearer(w, prev, s, j)
    {
      var _ := BearerAtExactly(w, prev, s, i);
      i := i + 1;
    }
  }

  lemma NoBearerBeyond(w: WordClass, prev: Option<char>, s: string, i: nat)
    requires i >= |s|
    ensures !HasBearer(w, prev, s, i)
  {
  }

  lemma {:induction false} SubBearerMasks(w: WordClass, prev: Option<char>, s: string)
    ensures BearersMasked(w, prev, s, SubBearer(w, prev, s))
    decreases |s|
  {
    hide BearerMatch, SubBearer, HasBearer, IsBearerAt, NoBearerBefore;
    var i := FirstBearer(w, prev, s);
    if i == |s| {
      NothingIsMasked(w, prev, s);
    } else {
      var token := BearerAtExactly(w, prev, s, i);
      FirstBearerMatch(w, prev, s, i);
      var n := i + BearerMatch(w, Before(prev, s, i), s[i..]);
      SubBearerMasks(w, Some(s[n - 1]), s[n..]);
      var rest := SubBearer(w, Some(s[n - 1]), s[n..]);
      assert SubBearer(w, prev, s) == s[..i] + "Bearer [REDACTED]" + rest;
    }
  }

  lemma NothingIsMasked(w: WordClass, prev: Option<char>, s: string)
    requires NoBearerBefore(w, prev, s, |s|) && forall j: nat :: j < |s| ==> !HasBearer(w, prev, s, j)
    ensures SubBearer(w, prev, s) == s && forall i: nat :: !HasBearer(w, prev, s, i)
  {
    TextBeforeMatchIsKept(w, prev, s, |s|);
    hide HasBearer, BearerMatch;
    forall i: nat ensures !HasBearer(w, prev, s, i) {
      if i >= |s| {
        NoBearerBeyond(w, prev, s, i);
      }
    }
    assert s[..|s|] == s && s[|s|..] == "";
  }
}

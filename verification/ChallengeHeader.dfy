/** The insufficient_scope challenge as the header prints it, and as a client reads it back. */
module ChallengeHeader {
  import opened Characters
  import opened Common
  import opened McpPrincipal
  import opened ScopeClaims
  import opened SortedScopes
  import opened TokenVerifier
  import opened ToolAuthorization

  datatype Param = Param(name: string, value: string)

  // ---------------------------------------------------------------- printing

  function PrintParam(p: Param): string {
    p.name + "=\"" + p.value + "\""
  }

  function PrintParams(ps: seq<Param>): string {
    if ps == [] then "" else if |ps| == 1 then PrintParam(ps[0]) else PrintParam(ps[0]) + ", " + PrintParams(ps[1..])
  }

  function ChallengeParams(scopes: seq<string>, metadataUrl: string): seq<Param> {
    [Param("error", "insufficient_scope"), Param("scope", Joined(scopes)), Param("resource_metadata", metadataUrl)]
  }

  /** The value of the www-authenticate header. */
  function Challenge(scopes: seq<string>, metadataUrl: string): string {
    "Bearer " + PrintParams(ChallengeParams(scopes, metadataUrl))
  }

  lemma ThreeParams(ps: seq<Param>)
    requires |ps| == 3
    ensures PrintParams(ps) == PrintParam(ps[0]) + ", " + PrintParam(ps[1]) + ", " + PrintParam(ps[2])
  {
    assert ps[1..][1..] == [ps[2]];
    assert PrintParams(ps[1..]) == PrintParam(ps[1]) + ", " + PrintParam(ps[2]);
  }

  /** The header, piece by piece. */
  lemma ChallengeIsWritten(scopes: seq<string>, metadataUrl: string)
    ensures Challenge(scopes, metadataUrl) ==
      "Bearer " + (
        ("error" + "=\"" + "insufficient_scope" + "\"") + ", "
        + ("scope" + "=\"" + Joined(scopes) + "\"") + ", "
        + ("resource_metadata" + "=\"" + metadataUrl + "\""))
  {
    ThreeParams(ChallengeParams(scopes, metadataUrl));
    hide PrintParams, Joined;
  }

  // ---------------------------------------------------------------- a client's reading of it

  /** A token character of section 5.6.2 of RFC 9110. */
  predicate IsTokenChar(c: char) {
    'a' <= c <= 'z' || 'A' <= c <= 'Z' || '0' <= c <= '9' || c in "!#$%&'*+-.^_`|~"
  }

  predicate IsBlank(c: char) {
    c == ' ' || c == '\t'
  }

  /** The rest of a quoted string of section 5.6.4 of RFC 9110: its content, and what follows it. */
  function ParseQuoted(s: string): (r: Option<(string, string)>)
    ensures r.Some? ==> |r.value.1| < |s|
  {
    if s == "" then None
    else if s[0] == '\"' then Some(("", s[1..]))
    else if s[0] == '\\' && |s| < 2 then None
    else
      var n := if s[0] == '\\' then 2 else 1;
      match ParseQuoted(s[n..])
      case None => None
      case Some((content, rest)) => Some(([s[n - 1]] + content, rest))
  }

  /** Comma-separated parameters with quoted values. */
  function ParseParams(s: string): Option<seq<Param>>
    decreases |s|
  {
    var n := Run(s, IsTokenChar);
    if n == 0 || |s| < n + 2 || s[n] != '=' || s[n + 1] != '\"' then None
    else
      match ParseQuoted(s[n + 2..])
      case None => None
      case Some((content, rest)) =>
        if rest == "" then Some([Param(s[..n], content)])
        else if rest[0] != ',' then None
        else
          match ParseParams(rest[1 + Run(rest[1..], IsBlank)..])
          case None => None
          case Some(more) => Some([Param(s[..n], content)] + more)
  }

  /** Scheme and parameters of a challenge of section 11.6.1 of RFC 9110. */
  function ParseChallenge(s: string): Option<(string, seq<Param>)> {
    var n := Run(s, IsTokenChar);
    if n == 0 || n == |s| || s[n] != ' ' then None
    else
      match ParseParams(s[n + 1..])
      case None => None
      case Some(ps) => Some((s[..n], ps))
  }

  function ParamOf(ps: seq<Param>, name: string): Option<string> {
    if ps == [] then None else if ps[0].name == name then Some(ps[0].value) else ParamOf(ps[1..], name)
  }

  /** The scopes a client is asked for. */
  function RequestedScopes(header: string): Option<seq<string>> {
    match ParseChallenge(header)
    case None => None
    case Some((_, ps)) => var scope := ParamOf(ps, "scope"); if scope.None? then None else Some(Words(scope.value))
  }

  // ---------------------------------------------------------------- reading undoes printing

  predicate IsName(s: string) {
    s != "" && forall i :: 0 <= i < |s| ==> IsTokenChar(s[i])
  }

  /** Text that a quoted string can hold without escapes. */
  predicate IsPlain(s: string) {
    forall i :: 0 <= i < |s| ==> s[i] != '\"' && s[i] != '\\'
  }

  predicate IsPrintable(p: Param) {
    IsName(p.name) && IsPlain(p.value)
  }

  lemma {:induction false} QuotedRoundTrip(content: string, rest: string)
    requires IsPlain(content)
    ensures ParseQuoted(content + "\"" + rest) == Some((content, rest))
  {
    var s := content + "\"" + rest;
    if content == "" {
      assert s[1..] == rest;
    } else {
      assert s[1..] == content[1..] + "\"" + rest;
      QuotedRoundTrip(content[1..], rest);
      assert content == [content[0]] + content[1..];
    }
  }

  /** One parameter is read off the front of what is printed after it. */
  lemma FirstParam(p: Param, rest: string)
    requires IsPrintable(p)
    ensures var s := PrintParam(p) + rest; var n := |p.name|;
      && Run(s, IsTokenChar) == n && n > 0 && |s| >= n + 2 && s[n] == '=' && s[n + 1] == '\"' && s[..n] == p.name
      && ParseQuoted(s[n + 2..]) == Some((p.value, rest))
  {
    hide ParseQuoted, Run;
    var s, n := PrintParam(p) + rest, |p.name|;
    assert s == p.name + ("=\"" + p.value + "\"" + rest);
    NameIsRun(p.name, "=\"" + p.value + "\"" + rest);
    assert s[n + 2..] == p.value + "\"" + rest;
    QuotedRoundTrip(p.value, rest);
  }

  lemma NameIsRun(name: string, tail: string)
    requires IsName(name) && tail != "" && tail[0] == '='
    ensures var s := name + tail; Run(s, IsTokenChar) == |name| && s[..|name|] == name
  {
    var s := name + tail;
    assert !IsTokenChar('=');
    hide IsTokenChar;
    assert forall i :: 0 <= i < |name| ==> s[i] == name[i];
    RunIs(s, IsTokenChar, |name|);
  }

  /** The separator is skipped as a whole. */
  lemma SkipSeparator(more: string)
    requires more != "" && IsTokenChar(more[0])
    ensures var rest := ", " + more; rest[0] == ',' && rest[1 + Run(rest[1..], IsBlank)..] == more
  {
    assert !IsBlank(more[0]);
    hide IsTokenChar;
    var rest := ", " + more;
    assert rest[1..][1] == more[0];
    RunIs(rest[1..], IsBlank, 1);
    assert rest[2..] == more;
  }

  lemma PrintFirst(ps: seq<Param>)
    requires |ps| > 1
    ensures PrintParams(ps) == PrintParam(ps[0]) + (", " + PrintParams(ps[1..]))
  {
    hide PrintParam;
  }

  /** One step of the parameter parser. */
  lemma ParseStep(s: string, p: Param, rest: string, more: Option<seq<Param>>)
    requires var n := |p.name|;
      && Run(s, IsTokenChar) == n && n > 0 && |s| >= n + 2 && s[n] == '=' && s[n + 1] == '\"' && s[..n] == p.name
      && ParseQuoted(s[n + 2..]) == Some((p.value, rest))
    requires rest != "" ==> rest[0] == ',' && more == ParseParams(rest[1 + Run(rest[1..], IsBlank)..])
    ensures ParseParams(s) == if rest == "" then Some([p]) else if more.None? then None else Some([p] + more.value)
  {
    hide IsTokenChar, IsBlank, ParseQuoted, Run;
  }

  /** Reading undoes printing, for every list of parameters that needs no escape. */
  lemma {:induction false} ParamsRoundTrip(ps: seq<Param>)
    requires ps != [] && forall k :: 0 <= k < |ps| ==> IsPrintable(ps[k])
    ensures ParseParams(PrintParams(ps)) == Some(ps)
  {
    hide ParseParams, ParseQuoted, IsTokenChar, Run, PrintParam, IsPrintable;
    if |ps| == 1 {
      assert PrintParams(ps) == PrintParam(ps[0]) + "" && ps == [ps[0]];
      FirstParam(ps[0], "");
      ParseStep(PrintParams(ps), ps[0], "", None);
    } else {
      var more := PrintParams(ps[1..]);
      ParamsRoundTrip(ps[1..]);
      PrintStartsWithName(ps[1..]);
      SkipSeparator(more);
      PrintFirst(ps);
      hide PrintParams;
      FirstParam(ps[0], ", " + more);
      ParseStep(PrintParams(ps), ps[0], ", " + more, Some(ps[1..]));
      assert ps == [ps[0]] + ps[1..];
    }
  }

  lemma PrintStartsWithName(ps: seq<Param>)
    requires ps != [] && IsPrintable(ps[0])
    ensures PrintParams(ps) != "" && IsTokenChar(PrintParams(ps)[0])
  {
    hide IsTokenChar;
    assert PrintParam(ps[0])[0] == ps[0].name[0];
  }

  // ---------------------------------------------------------------- scopes

  predicate IsScope(scope: string) {
    scope != "" && IsScopeToken(scope)
  }

  lemma ScopeIsPlainWord(scope: string)
    requires IsScope(scope)
    ensures IsWord(scope) && IsPlain(scope)
  {
  }

  lemma {:induction false} JoinedIsPlain(scopes: seq<string>)
    requires forall k :: 0 <= k < |scopes| ==> IsPlain(scopes[k])
    ensures IsPlain(Joined(scopes))
  {
    if |scopes| > 1 {
      JoinedIsPlain(scopes[1..]);
    }
  }

  /**
   The challenge round trip: for every set of valid scope tokens, what a client reads from the
   header is exactly the sorted list, next to the error code and the metadata URL.
   */
  lemma ChallengeRoundTrip(scopes: set<string>, metadataUrl: string)
    requires (forall s :: s in scopes ==> IsScope(s)) && IsPlain(metadataUrl)
    ensures ParseChallenge(Challenge(Sorted(scopes), metadataUrl))
      == Some(("Bearer", ChallengeParams(Sorted(scopes), metadataUrl)))
    ensures RequestedScopes(Challenge(Sorted(scopes), metadataUrl)) == Some(Sorted(scopes))
  {
    hide IsTokenChar, IsScope, Words, ParseParams;
    var list := Sorted(scopes);
    forall k | 0 <= k < |list| ensures IsWord(list[k]) && IsPlain(list[k]) {
      assert list[k] in Members(list);
      ScopeIsPlainWord(list[k]);
    }
    JoinedIsPlain(list);
    WordsOfJoined(list);
    NamesAreNames();
    var ps := ChallengeParams(list, metadataUrl);
    assert forall k :: 0 <= k < |ps| ==> IsPrintable(ps[k]);
    ParamsRoundTrip(ps);
    SchemeIsRead(PrintParams(ps));
    assert ps[1..][0] == ps[1] && ps[0].name != "scope";
    assert ParamOf(ps, "scope") == Some(Joined(list));
  }

  lemma NamesAreNames()
    ensures IsName("error") && IsName("scope") && IsName("resource_metadata") && IsPlain("insufficient_scope")
  {
  }

  lemma SchemeIsRead(params: string)
    ensures var s := "Bearer " + params;
      Run(s, IsTokenChar) == 6 && s[6] == ' ' && s[..6] == "Bearer" && s[7..] == params
  {
    var s := "Bearer " + params;
    assert forall i :: 0 <= i < 6 ==> s[i] == "Bearer"[i];
    RunIs(s, IsTokenChar, 6);
  }

  lemma {:induction false} JoinedIsAscii(scopes: seq<string>)
    ensures IsAscii(Joined(scopes)) <==> forall k :: 0 <= k < |scopes| ==> IsAscii(scopes[k])
  {
    if |scopes| > 1 {
      var first, rest := scopes[0], Joined(scopes[1..]);
      JoinedIsAscii(scopes[1..]);
      AsciiConcat(first, " ");
      AsciiConcat(first + " ", rest);
      assert forall k :: 1 <= k < |scopes| ==> scopes[k] == scopes[1..][k - 1];
      assert forall k :: 0 <= k < |scopes| - 1 ==> scopes[1..][k] == scopes[k + 1];
    }
  }

  lemma AsciiConcat(a: string, b: string)
    ensures IsAscii(a + b) <==> IsAscii(a) && IsAscii(b)
  {
    assert forall i :: 0 <= i < |a| ==> (a + b)[i] == a[i];
    assert forall i :: 0 <= i < |b| ==> (a + b)[|a| + i] == b[i];
  }

  lemma ParamIsAscii(p: Param)
    requires IsAscii(p.name)
    ensures IsAscii(PrintParam(p)) <==> IsAscii(p.value)
  {
    AsciiConcat(p.name, "=\"");
    AsciiConcat(p.name + "=\"", p.value);
    AsciiConcat(p.name + "=\"" + p.value, "\"");
  }

  /** The header can be encoded exactly when every scope and the metadata URL are ASCII. */
  lemma EncodableExactly(scopes: seq<string>, metadataUrl: string)
    ensures IsAscii(Challenge(scopes, metadataUrl)) <==>
      (forall k :: 0 <= k < |scopes| ==> IsAscii(scopes[k])) && IsAscii(metadataUrl)
  {
    var ps := ChallengeParams(scopes, metadataUrl);
    ParamIsAscii(ps[0]);
    ParamIsAscii(ps[1]);
    ParamIsAscii(ps[2]);
    JoinedIsAscii(scopes);
    ThreeParams(ps);
    hide IsAscii, PrintParam, PrintParams;
    var a, b, c := PrintParam(ps[0]), PrintParam(ps[1]), PrintParam(ps[2]);
    SeparatorsAreAscii();
    AsciiConcat(a, ", ");
    AsciiConcat(a + ", ", b);
    AsciiConcat(a + ", " + b, ", ");
    AsciiConcat(a + ", " + b + ", ", c);
    AsciiConcat("Bearer ", a + ", " + b + ", " + c);
  }

  lemma SeparatorsAreAscii()
    ensures IsAscii(", ") && IsAscii("Bearer ") && IsAscii("insufficient_scope")
  {
  }

  /** So different sets are never printed alike. */
  lemma ChallengesAreDistinct(a: set<string>, b: set<string>, metadataUrl: string)
    requires (forall s :: s in a + b ==> IsScope(s)) && IsPlain(metadataUrl)
    requires Challenge(Sorted(a), metadataUrl) == Challenge(Sorted(b), metadataUrl)
    ensures a == b
  {
    ChallengeRoundTrip(a, metadataUrl);
    ChallengeRoundTrip(b, metadataUrl);
    assert Members(Sorted(a)) == Members(Sorted(b));
  }

  /** The registry's scope policies come from their constructors, which check every token. */
  ghost predicate WellMade(policies: map<string, ToolPolicy>) {
    forall tool :: tool in policies && policies[tool].AsksForScopes() ==>
      exists values :: MakePolicy(policies[tool].kind, values) == Ok(policies[tool])
  }

  /** Every challenge of the verifier reads back; only the global scopes need their validity assumed. */
  lemma ChallengesAreReadable(v: Settings, target: Option<string>, token: AccessToken, metadataUrl: string)
    requires WellMade(v.policies) && (forall s :: s in v.globalScopes ==> IsScope(s)) && IsPlain(metadataUrl)
    ensures var scopes := Sorted(Missing(v, target, token));
      RequestedScopes(Challenge(scopes, metadataUrl)) == Some(scopes)
    ensures IsAscii(Challenge(Sorted(Missing(v, target, token)), metadataUrl)) <==> IsAscii(metadataUrl)
  {
    hide IsScope, MakePolicy, PrincipalFromToken;
    forall s | s in Missing(v, target, token) ensures IsScope(s) {
      if s in MissingForTarget(v, target, token) {
        var policy := v.policies[target.value];
        var values :| MakePolicy(policy.kind, values) == Ok(policy);
        MadeOfScopes(policy, values, s);
      }
    }
    ChallengeRoundTrip(Missing(v, target, token), metadataUrl);
    ScopesAreAscii(Missing(v, target, token), metadataUrl);
  }

  lemma ScopesAreAscii(scopes: set<string>, metadataUrl: string)
    requires forall s :: s in scopes ==> IsScope(s)
    ensures IsAscii(Challenge(Sorted(scopes), metadataUrl)) <==> IsAscii(metadataUrl)
  {
    hide Challenge;
    var list := Sorted(scopes);
    EncodableExactly(list, metadataUrl);
    forall k | 0 <= k < |list| ensures IsAscii(list[k]) {
      assert list[k] in Members(list);
    }
  }

  lemma MadeOfScopes(policy: ToolPolicy, values: seq<string>, scope: string)
    requires policy.AsksForScopes() && MakePolicy(policy.kind, values) == Ok(policy) && scope in policy.permissions
    ensures IsScope(scope)
  {
    MadePolicies(policy.kind, values);
  }
}

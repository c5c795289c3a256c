/** Scopes and roles read from token claims, and the qualification of short scope names. */
module ScopeClaims {
  import opened Characters
  import opened Common
  import opened SortedScopes

  // ---------------------------------------------------------------- splitting at whitespace

  predicate NotSpace(c: char) {
    !IsSpace(c)
  }

  /** `str.split()`: the maximal runs of characters that are not whitespace. */
  function Words(s: string): seq<string>
    decreases |s|
  {
    if s == "" then []
    else if IsSpace(s[0]) then Words(s[1..])
    else
      var n := Run(s, NotSpace);
      [s[..n]] + Words(s[n..])
  }

  predicate IsWord(w: string) {
    w != "" && forall i :: 0 <= i < |w| ==> NotSpace(w[i])
  }

  lemma {:induction false} WordsAreWords(s: string)
    ensures forall k :: 0 <= k < |Words(s)| ==> IsWord(Words(s)[k])
    decreases |s|
  {
    if s != "" {
      WordsAreWords(if IsSpace(s[0]) then s[1..] else s[Run(s, NotSpace)..]);
    }
  }

  /** `" ".join(words)` */
  function Joined(words: seq<string>): string {
    if words == [] then "" else if |words| == 1 then words[0] else words[0] + " " + Joined(words[1..])
  }

  lemma WordsOfFirst(w: string, rest: string)
    requires IsWord(w) && (rest == "" || IsSpace(rest[0]))
    ensures Words(w + rest) == [w] + Words(rest)
  {
    hide IsSpace;
    var s := w + rest;
    RunIs(s, NotSpace, |w|);
    assert s[..|w|] == w && s[|w|..] == rest;
  }

  lemma WordsSkip(c: char, rest: string)
    requires IsSpace(c)
    ensures Words([c] + rest) == Words(rest)
  {
    assert ([c] + rest)[1..] == rest;
  }

  lemma JoinedFirst(words: seq<string>)
    requires |words| > 1
    ensures Joined(words) == words[0] + (" " + Joined(words[1..]))
  {
  }

  lemma JoinedOne(words: seq<string>)
    requires |words| == 1
    ensures Joined(words) == words[0] + "" && Words("") == [] && words == [words[0]]
  {
  }

  /** Splitting undoes joining, for any list of words. */
  lemma {:induction false} WordsOfJoined(words: seq<string>)
    requires forall k :: 0 <= k < |words| ==> IsWord(words[k])
    ensures Words(Joined(words)) == words
  {
    if |words| > 0 {
      hide Words, Joined, IsWord;
      if |words| == 1 {
        JoinedOne(words);
        WordsOfFirst(words[0], "");
      } else {
        WordsOfJoined(words[1..]);
        JoinedFirst(words);
        WordsOfFirst(words[0], " " + Joined(words[1..]));
        WordsSkip(' ', Joined(words[1..]));
        assert words == [words[0]] + words[1..];
      }
    }
  }

  // ---------------------------------------------------------------- claims

  /** The scopes a space-delimited claim carries; anything but a string carries none. */
  function WordsOfClaim(claim: Json): set<string> {
    if claim.JString? then Members(Words(claim.s)) else {}
  }

  /** The scopes of a claims mapping, written out in order. */
  function ScopesOf(claims: map<string, Json>): (r: seq<string>)
    ensures StrictlySorted(r)
    ensures Members(r) == WordsOfClaim(Get(claims, "scope")) + WordsOfClaim(Get(claims, "scp"))
  {
    Sorted(WordsOfClaim(Get(claims, "scope")) + WordsOfClaim(Get(claims, "scp")))
  }

  /** `scopes_from_claims` */
  method ScopesFromClaims(claims: map<string, Json>) returns (r: seq<string>)
    ensures r == ScopesOf(claims)
    ensures StrictlySorted(r)
    ensures Members(r) == WordsOfClaim(Get(claims, "scope")) + WordsOfClaim(Get(claims, "scp"))
    ensures forall k :: 0 <= k < |r| ==> IsWord(r[k])
  {
    var scopes: set<string> := {};
    var scopeClaim := Get(claims, "scope");
    if scopeClaim.JString? {
      scopes := scopes + Members(Words(scopeClaim.s));
      WordsAreWords(scopeClaim.s);
    }
    var scpClaim := Get(claims, "scp");
    if scpClaim.JString? {
      scopes := scopes + Members(Words(scpClaim.s));
      WordsAreWords(scpClaim.s);
    }
    r := Sorted(scopes);
    SortedIsUnique(r, ScopesOf(claims));
    forall k | 0 <= k < |r| ensures IsWord(r[k]) {
      assert r[k] in Members(r);
    }
  }

  /** `roles_from_claims` */
  function RolesFromClaims(claims: map<string, Json>): (r: seq<string>)
    ensures StrictlySorted(r)
    ensures forall role :: role in r <==>
      role != "" && Get(claims, "roles").JArray? && JString(role) in Get(claims, "roles").items
  {
    var claim := Get(claims, "roles");
    if !claim.JArray? then []
    else
      var roles := set j | j in claim.items && j.JString? && j.s != "" :: j.s;
      assert forall role :: role in roles <==> role != "" && JString(role) in claim.items by {
        forall role | role != "" && JString(role) in claim.items ensures role in roles {
          assert JString(role).s == role;
        }
      }
      assert forall role :: role in Sorted(roles) <==> role in Members(Sorted(roles));
      Sorted(roles)
  }

  /** No claim but the two scope claims adds, removes or reorders a scope: a role never becomes one. */
  lemma OnlyScopeClaimsAreScopes(claims: map<string, Json>, name: string, value: Json)
    requires name != "scope" && name != "scp"
    ensures ScopesOf(claims[name := value]) == ScopesOf(claims)
  {
  }

  // ---------------------------------------------------------------- qualification

  predicate OccursAt(s: string, part: string, i: nat) {
    i + |part| <= |s| && s[i..i + |part|] == part
  }

  predicate Contains(s: string, part: string) {
    exists i :: 0 <= i <= |s| && OccursAt(s, part, i)
  }

  const SCHEME_SEPARATOR := "://"

  predicate IsUri(scope: string) {
    Contains(scope, SCHEME_SEPARATOR)
  }

  function Prefix(resource: string): string {
    StripSlashes(resource) + "/"
  }

  function Qualified(scope: string, resource: string): string {
    if IsUri(scope) then scope else Prefix(resource) + scope
  }

  /** `qualify_scopes` */
  function QualifyScopes(scopes: seq<string>, resource: string): (r: seq<string>)
    ensures StrictlySorted(r)
    ensures Members(r) == set s | s in scopes && s != "" :: Qualified(s, resource)
  {
    Sorted(set s | s in scopes && s != "" :: Qualified(s, resource))
  }

  predicate SchemeEndsAt(s: string, i: nat) {
    i + 3 <= |s| && s[i] == ':' && s[i + 1] == '/' && s[i + 2] == '/'
  }

  lemma OccursExactly(s: string, i: nat)
    ensures OccursAt(s, SCHEME_SEPARATOR, i) <==> SchemeEndsAt(s, i)
  {
    if i + 3 <= |s| {
      assert s[i..i + 3] == [s[i], s[i + 1], s[i + 2]];
    }
  }

  /** A scope with a scheme separator anywhere stays; any other gets the resource in front, with one slash between. */
  lemma QualifiedExactly(scope: string, resource: string)
    ensures Qualified(scope, resource) ==
      if exists i: nat :: SchemeEndsAt(scope, i) then scope else StripSlashes(resource) + "/" + scope
  {
    forall i: nat ensures OccursAt(scope, SCHEME_SEPARATOR, i) <==> SchemeEndsAt(scope, i) {
      OccursExactly(scope, i);
    }
    hide OccursAt, SchemeEndsAt, StripSlashes;
    if i: nat :| SchemeEndsAt(scope, i) {
      assert i <= |scope| by { OccursWithin(scope, i); }
    }
  }

  lemma OccursWithin(s: string, i: nat)
    ensures SchemeEndsAt(s, i) ==> i <= |s|
  {
  }

  predicate HasNoSlash(s: string) {
    forall i :: 0 <= i < |s| ==> s[i] != '/'
  }

  /** A name without a slash is short. */
  lemma ShortWithoutSlash(s: string)
    requires HasNoSlash(s)
    ensures !IsUri(s)
  {
    forall i: nat ensures !OccursAt(s, SCHEME_SEPARATOR, i) {
      assert i + 3 <= |s| ==> s[i..i + 3][2] == s[i + 2] != SCHEME_SEPARATOR[2];
    }
  }

  lemma ContainsExtends(a: string, b: string, part: string)
    requires Contains(a, part)
    ensures Contains(a + b, part)
  {
    var i :| 0 <= i <= |a| && OccursAt(a, part, i);
    assert (a + b)[i..i + |part|] == a[i..i + |part|];
    assert OccursAt(a + b, part, i);
  }

  /** The separator cannot end in the slash that the prefix appends. */
  lemma SeparatorIsInside(resource: string)
    ensures IsUri(Prefix(resource)) <==> IsUri(StripSlashes(resource))
  {
    var u := StripSlashes(resource);
    if IsUri(u) {
      ContainsExtends(u, "/", SCHEME_SEPARATOR);
    }
    if IsUri(u + "/") {
      var i :| 0 <= i <= |u| + 1 && OccursAt(u + "/", SCHEME_SEPARATOR, i);
      assert (u + "/")[i..i + 3][1] == (u + "/")[i + 1];
      assert u[i..i + 3] == (u + "/")[i..i + 3];
      assert OccursAt(u, SCHEME_SEPARATOR, i);
    }
  }

  lemma QualifiedIsUri(scope: string, resource: string)
    requires IsUri(StripSlashes(resource))
    ensures IsUri(Qualified(scope, resource)) && Qualified(scope, resource) != ""
  {
    SeparatorIsInside(resource);
    ContainsExtends(Prefix(resource), scope, SCHEME_SEPARATOR);
  }

  /** Qualifying twice is qualifying once, for every list of scopes, when the resource is a URI... */
  lemma QualifyIsIdempotent(scopes: seq<string>, resource: string)
    requires IsUri(StripSlashes(resource))
    ensures QualifyScopes(QualifyScopes(scopes, resource), resource) == QualifyScopes(scopes, resource)
  {
    var once := QualifyScopes(scopes, resource);
    forall q | q in once ensures q != "" && Qualified(q, resource) == q {
      assert q in Members(once);
      var s :| s in scopes && s != "" && q == Qualified(s, resource);
      QualifiedIsUri(s, resource);
    }
    assert Members(QualifyScopes(once, resource)) == Members(once);
    SortedIsUnique(QualifyScopes(once, resource), once);
  }

  /** ...and only then: otherwise one short scope is prefixed again. */
  lemma IdempotentOnlyForUris(resource: string)
    ensures (forall scopes ::
        QualifyScopes(QualifyScopes(scopes, resource), resource) == QualifyScopes(scopes, resource))
      <==> IsUri(StripSlashes(resource))
  {
    if IsUri(StripSlashes(resource)) {
      forall scopes
        ensures QualifyScopes(QualifyScopes(scopes, resource), resource) == QualifyScopes(scopes, resource)
      {
        QualifyIsIdempotent(scopes, resource);
      }
    } else {
      SeparatorIsInside(resource);
      SingleQualified("x", resource);
      var q := Prefix(resource) + "x";
      ShortTail(Prefix(resource));
      SingleQualified(q, resource);
      assert |Qualified(q, resource)| > |q|;
    }
  }

  lemma SingleQualified(scope: string, resource: string)
    requires scope != ""
    ensures QualifyScopes([scope], resource) == [Qualified(scope, resource)]
  {
    var r := [Qualified(scope, resource)];
    assert Members(QualifyScopes([scope], resource)) == Members(r);
    SortedIsUnique(QualifyScopes([scope], resource), r);
  }

  lemma ShortTail(prefix: string)
    requires !IsUri(prefix)
    ensures !IsUri(prefix + "x") && !IsUri("x")
  {
    var s := prefix + "x";
    if IsUri(s) {
      var i :| 0 <= i <= |s| && OccursAt(s, SCHEME_SEPARATOR, i);
      assert s[i..i + 3][2] == s[i + 2];
      assert prefix[i..i + 3] == s[i..i + 3];
      assert OccursAt(prefix, SCHEME_SEPARATOR, i);
    }
  }

  /**
   The token carries the name: as it is, or in its other form. A short name may come prefixed
   for this resource, a URI of this resource may come as the short rest of it.
   */
  predicate Carries(token: seq<string>, p: string, resource: string) {
    || p in token
    || (!IsUri(p) && Prefix(resource) + p in token)
    || (IsUri(p) && Prefix(resource) < p && !IsUri(p[|Prefix(resource)|..]) && p[|Prefix(resource)|..] in token)
  }

  /**
   A policy against a token: qualifying both sides grants exactly the names that the token
   carries, in either form. Policies may mix short names and URIs.
   */
  lemma QualificationKeepsGrants(policy: seq<string>, token: seq<string>, resource: string)
    requires IsUri(StripSlashes(resource))
    ensures Members(QualifyScopes(policy, resource)) <= Members(QualifyScopes(token, resource))
      <==> forall p :: p in policy && p != "" ==> Carries(token, p, resource)
  {
    hide IsUri, Carries;
    var wanted, granted := Members(QualifyScopes(policy, resource)), Members(QualifyScopes(token, resource));
    forall p | p in policy && p != ""
      ensures Qualified(p, resource) in granted <==> Carries(token, p, resource)
    {
      GrantedExactly(p, token, resource);
    }
    if wanted <= granted {
      forall p | p in policy && p != "" ensures Carries(token, p, resource) {
        assert Qualified(p, resource) in wanted;
      }
    }
  }

  lemma GrantedExactly(p: string, token: seq<string>, resource: string)
    requires IsUri(StripSlashes(resource)) && p != ""
    ensures Qualified(p, resource) in Members(QualifyScopes(token, resource)) <==> Carries(token, p, resource)
  {
    var prefix, q := Prefix(resource), Qualified(p, resource);
    QualifiedIsUri(p, resource);
    hide IsUri, QualifyScopes, Prefix;
    if Carries(token, p, resource) {
      var t := CarriedAs(token, p, resource);
      assert t in token && t != "" && q == Qualified(t, resource);
    }
    if q in Members(QualifyScopes(token, resource)) {
      var t :| t in token && t != "" && q == Qualified(t, resource);
      FormsOfOneScope(p, t, resource);
    }
  }

  /** The scope through which a token carries a name. */
  lemma CarriedAs(token: seq<string>, p: string, resource: string) returns (t: string)
    requires IsUri(StripSlashes(resource)) && p != "" && Carries(token, p, resource)
    ensures t in token && t != "" && Qualified(t, resource) == Qualified(p, resource)
  {
    var prefix := Prefix(resource);
    QualifiedIsUri(p, resource);
    if p in token {
      t := p;
    } else if !IsUri(p) {
      t := prefix + p;
    } else {
      t := p[|prefix|..];
      assert p == prefix + t;
    }
  }

  /** Two scopes with the same qualified form are equal, or one is the short form of the other. */
  lemma FormsOfOneScope(p: string, t: string, resource: string)
    requires p != "" && t != "" && Qualified(p, resource) == Qualified(t, resource)
    ensures Carries([t], p, resource)
  {
    var prefix := Prefix(resource);
    hide IsUri, Prefix;
    if !IsUri(t) && !IsUri(p) {
      assert (prefix + p)[|prefix|..] == p && (prefix + t)[|prefix|..] == t;
    } else if !IsUri(t) {
      assert p[|prefix|..] == t;
    }
  }

  // ---------------------------------------------------------------- scopes of other resources

  predicate IsShortName(p: string) {
    p != "" && !IsUri(p)
  }

  /** The second prefix goes on where the first one ends, by something that could begin a short name. */
  predicate Extends(shorter: string, longer: string) {
    shorter <= longer && !IsUri(longer[|shorter|..])
  }

  /** One resource lies under the other, or they are the same. */
  predicate Nested(r: string, s: string) {
    Extends(Prefix(r), Prefix(s)) || Extends(Prefix(s), Prefix(r))
  }

  lemma ExtensionMeets(r: string, s: string) returns (p: string, q: string)
    requires Extends(Prefix(r), Prefix(s))
    ensures IsShortName(p) && IsShortName(q) && Qualified(p, r) == Qualified(q, s)
  {
    var rest := Prefix(s)[|Prefix(r)|..];
    ShortTail(rest);
    p, q := rest + "x", "x";
    assert Prefix(s) == Prefix(r) + rest;
    assert Prefix(r) + p == Prefix(s) + q;
  }

  lemma UriExtends(a: string, b: string)
    ensures IsUri(a) ==> IsUri(a + b)
  {
    if IsUri(a) {
      ContainsExtends(a, b, SCHEME_SEPARATOR);
    }
  }

  lemma MeetingExtends(p: string, q: string, r: string, s: string)
    requires IsShortName(p) && Qualified(p, r) == Qualified(q, s) && !IsUri(q) && |Prefix(r)| <= |Prefix(s)|
    ensures Extends(Prefix(r), Prefix(s)) && p == Prefix(s)[|Prefix(r)|..] + q
  {
    var a, b := Prefix(r), Prefix(s);
    hide IsUri, Prefix;
    assert a + p == b + q;
    assert a == (a + p)[..|a|] == (b + q)[..|a|] == b[..|a|];
    assert p == (a + p)[|a|..] == (b + q)[|a|..] == b[|a|..] + q;
    UriExtends(b[|a|..], q);
  }

  /** Some short names of two resources are qualified alike exactly when the resources are nested. */
  lemma NamesMeetWhenNested(r: string, s: string)
    ensures Nested(r, s) <==>
      exists p, q :: IsShortName(p) && IsShortName(q) && Qualified(p, r) == Qualified(q, s)
  {
    hide IsShortName, Qualified, Extends, Prefix;
    if Extends(Prefix(r), Prefix(s)) {
      var p, q := ExtensionMeets(r, s);
    } else if Extends(Prefix(s), Prefix(r)) {
      var q, p := ExtensionMeets(s, r);
    }
    forall p, q | IsShortName(p) && IsShortName(q) && Qualified(p, r) == Qualified(q, s) ensures Nested(r, s) {
      ShortNamesAreShort(p);
      ShortNamesAreShort(q);
      if |Prefix(r)| <= |Prefix(s)| {
        MeetingExtends(p, q, r, s);
      } else {
        MeetingExtends(q, p, s, r);
      }
    }
  }

  lemma ShortNamesAreShort(p: string)
    requires IsShortName(p)
    ensures p != "" && !IsUri(p)
  {
  }

  /** No scope qualified for resource `s`, standing in a token, ever satisfies a short policy name of resource `r`. */
  ghost predicate GrantsNothing(r: string, s: string) {
    forall p, q :: IsShortName(p) && IsShortName(q) ==> Qualified(p, r) !in QualifyScopes([Qualified(q, s)], r)
  }

  /**
   A scope qualified for another resource never satisfies a short policy name, for all names
   of both, if and only if neither resource is nested in the other.
   */
  lemma OtherResourcesGrantNothing(r: string, s: string)
    requires IsUri(StripSlashes(s))
    ensures GrantsNothing(r, s) <==> !Nested(r, s)
  {
    NamesMeetWhenNested(r, s);
    forall q | IsShortName(q) ensures QualifyScopes([Qualified(q, s)], r) == [Qualified(q, s)] {
      QualifiedIsUri(q, s);
      SingleQualified(Qualified(q, s), r);
    }
    hide IsShortName, Qualified, QualifyScopes, Nested;
    if !GrantsNothing(r, s) {
      var p, q :| IsShortName(p) && IsShortName(q) && Qualified(p, r) in QualifyScopes([Qualified(q, s)], r);
      assert Qualified(p, r) == Qualified(q, s);
    }
    if p, q :| IsShortName(p) && IsShortName(q) && Qualified(p, r) == Qualified(q, s) {
      assert Qualified(p, r) in [Qualified(q, s)];
    }
  }

  /** Nested resources do share scopes: a policy of one is met by a scope that was qualified for the other. */
  lemma NestedResourceGrants()
    ensures QualifyScopes(["sub/x"], "api://r") == QualifyScopes(QualifyScopes(["x"], "api://r/sub"), "api://r")
    ensures Nested("api://r", "api://r/sub")
  {
    ExamplePrefixes();
    ShortNameOfExample();
    assert "api://r/sub/"[|"api://r/"|..] == "sub/";
    hide IsUri, QualifyScopes, Prefix;
    SingleQualified("sub/x", "api://r");
    SingleQualified("x", "api://r/sub");
    SingleQualified("api://r/sub/x", "api://r");
    assert "api://r/" + "sub/x" == "api://r/sub/x" && "api://r/sub/" + "x" == "api://r/sub/x";
  }

  lemma ExamplePrefixes()
    ensures Prefix("api://r") == "api://r/" && Prefix("api://r/sub") == "api://r/sub/"
    ensures IsUri("api://r/sub/x")
  {
    assert OccursAt("api://r/sub/x", SCHEME_SEPARATOR, 3);
  }

  lemma ShortNameOfExample()
    ensures !IsUri("sub/x") && !IsUri("x") && !IsUri("sub/")
  {
    NoColonNoUri("sub/x");
    NoColonNoUri("x");
    NoColonNoUri("sub/");
  }

  lemma NoColonNoUri(s: string)
    requires forall i :: 0 <= i < |s| ==> s[i] != ':'
    ensures !IsUri(s)
  {
    forall i: nat ensures !OccursAt(s, SCHEME_SEPARATOR, i) {
      assert i + 3 <= |s| ==> s[i..i + 3][0] == s[i] != SCHEME_SEPARATOR[0];
    }
  }

  /** Names without a slash are safe: they meet only as the same name of the same resource. */
  lemma PlainNamesStayApart(p: string, q: string, r: string, s: string)
    requires HasNoSlash(p) && HasNoSlash(q)
    ensures Qualified(p, r) == Qualified(q, s) <==> Prefix(r) == Prefix(s) && p == q
  {
    ShortWithoutSlash(p);
    ShortWithoutSlash(q);
    var a, b := Prefix(r), Prefix(s);
    assert a[|a| - 1] == '/' && b[|b| - 1] == '/';
    hide IsUri, Prefix;
    if a + p == b + q {
      assert (a + p)[|b| - 1] == '/' && (b + q)[|a| - 1] == '/';
      assert |a| == |b|;
      assert a == (a + p)[..|a|] == (b + q)[..|b|] == b;
      assert p == (a + p)[|a|..] == (b + q)[|b|..] == q;
    }
  }
}

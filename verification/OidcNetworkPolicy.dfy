/** The outbound trust boundary: which URLs may be requested, and where they may connect. */
module OidcNetworkPolicy {
  import opened Characters
  import opened Common

  datatype Origin = Origin(scheme: string, host: string, port: int)
  datatype RequestKind = Discovery | Jwks

  const DISCOVERY_SUFFIX := "/.well-known/openid-configuration"

  // ---------------------------------------------------------------- the head of a URL

  predicate EndsAuthority(c: char) {
    c == '/' || c == '?' || c == '#'
  }

  /** The leading run of authority characters. */
  function Authority(s: string): string {
    if s == "" || EndsAuthority(s[0]) then "" else [s[0]] + Authority(s[1..])
  }

  predicate StartsSeparator(s: string) {
    |s| >= 3 && s[0] == ':' && s[1] == '/' && s[2] == '/'
  }

  /** Everything up to the end of the authority, which follows the first "://". */
  function Head(url: string): string {
    if url == "" then ""
    else if StartsSeparator(url) then "://" + Authority(url[3..])
    else [url[0]] + Head(url[1..])
  }

  /** The URL has a non-empty authority. */
  predicate HasAuthority(url: string) {
    if StartsSeparator(url) then |url| > 3 && !EndsAuthority(url[3])
    else url != "" && HasAuthority(url[1..])
  }

  /** Text after the first hash. */
  function Fragment(url: string): string {
    if url == "" then "" else if url[0] == '#' then url[1..] else Fragment(url[1..])
  }

  lemma {:induction false} AuthorityExtends(s: string, tail: string)
    requires tail == "" || EndsAuthority(tail[0])
    ensures Authority(s + tail) == Authority(s)
  {
    if s == "" {
      assert s + tail == tail;
    } else {
      assert (s + tail)[1..] == s[1..] + tail;
      AuthorityExtends(s[1..], tail);
    }
  }

  lemma {:induction false} AuthorityIsLong(url: string)
    requires HasAuthority(url)
    ensures |url| > 3
  {
    if !StartsSeparator(url) {
      AuthorityIsLong(url[1..]);
    }
  }

  /** Appending a path, query or fragment keeps the head. */
  lemma {:induction false} HeadExtends(url: string, tail: string)
    requires HasAuthority(url) && (tail == "" || EndsAuthority(tail[0]))
    ensures Head(url + tail) == Head(url) && HasAuthority(url + tail)
  {
    var longer := url + tail;
    AuthorityIsLong(url);
    if StartsSeparator(url) {
      assert longer[3..] == url[3..] + tail;
      AuthorityExtends(url[3..], tail);
    } else {
      assert longer[1..] == url[1..] + tail;
      HeadExtends(url[1..], tail);
    }
  }

  /** A trailing slash is never the whole authority. */
  lemma {:induction false} AuthoritySurvives(s: string)
    requires HasAuthority(s + "/")
    ensures HasAuthority(s)
  {
    var longer := s + "/";
    if s != "" && !StartsSeparator(longer) {
      assert longer[1..] == s[1..] + "/";
      AuthoritySurvives(s[1..]);
    }
  }

  /** Stripping trailing slashes keeps the head. */
  lemma {:induction false} HeadOfStripped(url: string)
    requires HasAuthority(url)
    ensures HasAuthority(StripSlashes(url)) && Head(StripSlashes(url)) == Head(url)
  {
    if url[|url| - 1] == '/' {
      var front := url[..|url| - 1];
      assert url == front + "/";
      AuthoritySurvives(front);
      HeadExtends(front, "/");
      HeadOfStripped(front);
    }
  }

  /** The discovery URL has the issuer's head, whatever the issuer's path. */
  lemma DiscoveryKeepsHead(issuer: string)
    requires HasAuthority(issuer)
    ensures Head(StripSlashes(issuer) + DISCOVERY_SUFFIX) == Head(issuer)
  {
    HeadOfStripped(issuer);
    HeadExtends(StripSlashes(issuer), DISCOVERY_SUFFIX);
  }

  // ---------------------------------------------------------------- origins

  /**
   How a head is split into scheme, host and port is left to the URL library. What
   matters here is that a URL without a host is refused.
   */
  ghost predicate RefusesEmptyHosts(parseHead: string -> Option<Origin>) {
    forall url :: parseHead(Head(url)).Some? ==> HasAuthority(url)
  }

  predicate IsPlain(url: string) {
    forall c :: c in url ==> c != '\\' && c >= ' '
  }

  /** `_parse_url`: the origin depends on the head alone; a fragment or a control character is refused. */
  function ParseUrl(url: string, parseHead: string -> Option<Origin>): Option<Origin> {
    if !IsPlain(url) || Fragment(url) != "" then None else parseHead(Head(url))
  }

  predicate SeparatorAt(url: string, i: nat) {
    i + 3 <= |url| && url[i] == ':' && url[i + 1] == '/' && url[i + 2] == '/'
  }

  /** What the head is: the text up to the first "://" and the authority characters after it. */
  lemma {:induction false} HeadIs(scheme: string, authority: string, rest: string)
    requires forall i: nat :: i < |scheme| ==> !SeparatorAt(scheme + "://", i)
    requires forall i :: 0 <= i < |authority| ==> authority[i] !in "/?#"
    requires rest == "" || rest[0] in "/?#"
    ensures Head(scheme + "://" + authority + rest) == scheme + "://" + authority
  {
    var url := scheme + "://" + authority + rest;
    if scheme == "" {
      assert url[3..] == authority + rest;
      AuthorityIs(authority, rest);
    } else {
      assert !SeparatorAt(scheme + "://", 0);
      forall i: nat | i < |scheme[1..]| ensures !SeparatorAt(scheme[1..] + "://", i) {
        assert !SeparatorAt(scheme + "://", i + 1);
      }
      HeadIs(scheme[1..], authority, rest);
      assert url[1..] == scheme[1..] + "://" + authority + rest;
      OneMoreOfScheme(url, scheme, authority);
    }
  }

  lemma OneMoreOfScheme(url: string, scheme: string, authority: string)
    requires scheme != "" && url != "" && url[0] == scheme[0] && !StartsSeparator(url)
    requires Head(url[1..]) == scheme[1..] + "://" + authority
    ensures Head(url) == scheme + "://" + authority
  {
    HeadStep(url);
    hide Head, StartsSeparator;
    var c, rest := scheme[0], scheme[1..];
    assert scheme == [c] + rest;
    assert [c] + (rest + "://" + authority) == [c] + rest + "://" + authority;
  }

  lemma HeadStep(url: string)
    requires url != "" && !StartsSeparator(url)
    ensures Head(url) == [url[0]] + Head(url[1..])
  {
  }

  lemma {:induction false} AuthorityIs(authority: string, rest: string)
    requires forall i :: 0 <= i < |authority| ==> authority[i] !in "/?#"
    requires rest == "" || rest[0] in "/?#"
    ensures Authority(authority + rest) == authority
  {
    if authority == "" {
      assert authority + rest == rest;
    } else {
      assert (authority + rest)[1..] == authority[1..] + rest;
      AuthorityIs(authority[1..], rest);
    }
  }

  /** A fragment is text after a hash: there is none exactly when no hash stands before the last character. */
  lemma {:induction false} FragmentExactly(url: string)
    ensures Fragment(url) == "" <==> forall i :: 0 <= i < |url| - 1 ==> url[i] != '#'
  {
    if url != "" && url[0] != '#' {
      FragmentExactly(url[1..]);
      if forall i :: 0 <= i < |url[1..]| - 1 ==> url[1..][i] != '#' {
        assert forall i :: 1 <= i < |url| - 1 ==> url[i] == url[1..][i - 1];
      }
    }
  }

  /** Which URLs have an origin: those of ordinary characters without a fragment whose head has one. */
  lemma ParsesExactly(url: string, parseHead: string -> Option<Origin>, o: Origin)
    ensures ParseUrl(url, parseHead) == Some(o) <==>
      && (forall c :: c in url ==> c as int >= 0x20 && c != '\\')
      && (forall i :: 0 <= i < |url| - 1 ==> url[i] != '#')
      && parseHead(Head(url)) == Some(o)
  {
    FragmentExactly(url);
  }

  predicate SchemeAllowed(o: Origin, allowLoopback: bool) {
    o.scheme == "https" || allowLoopback
  }

  // ---------------------------------------------------------------- the policy

  datatype Policy = Policy(
    issuerUrl: string,
    discoveryUrl: string,
    issuerOrigin: Origin,
    trusted: set<Origin>,
    allowLoopback: bool)

  /** One allowlist entry is acceptable: `isOrigin` says that it has no path beyond "/" and no query. */
  predicate AcceptableEntry(raw: string, parseHead: string -> Option<Origin>, isOrigin: string -> bool,
          allowLoopback: bool)
  {
    var o := ParseUrl(raw, parseHead);
    o.Some? && isOrigin(raw) && SchemeAllowed(o.value, allowLoopback)
  }

  /** The constructor: the issuer roots the trust set, each allowlisted origin extends it, one bad entry fails it. */
  method BuildPolicy(issuerUrl: string, hasQuery: bool, allowLoopback: bool, allowlist: seq<string>,
                     parseHead: string -> Option<Origin>, isOrigin: string -> bool) returns (r: Option<Policy>)
    ensures r.Some? <==>
      && ParseUrl(issuerUrl, parseHead).Some? && !hasQuery
      && (ParseUrl(issuerUrl, parseHead).value.scheme == "https" || allowLoopback)
      && forall raw :: raw in allowlist ==>
        && ParseUrl(raw, parseHead).Some? && isOrigin(raw)
        && (ParseUrl(raw, parseHead).value.scheme == "https" || allowLoopback)
    ensures r.Some? ==>
      && r.value.issuerUrl == issuerUrl && r.value.allowLoopback == allowLoopback
      && Some(r.value.issuerOrigin) == ParseUrl(issuerUrl, parseHead)
      && r.value.discoveryUrl == StripSlashes(issuerUrl) + "/.well-known/openid-configuration"
      && Built(r.value, parseHead)
      && (forall o :: o in r.value.trusted <==>
            o == r.value.issuerOrigin || exists raw :: raw in allowlist && ParseUrl(raw, parseHead) == Some(o))
  {
    var issuer := ParseUrl(issuerUrl, parseHead);
    if issuer.None? || !SchemeAllowed(issuer.value, allowLoopback) || hasQuery {
      return None;
    }
    var trusted := {issuer.value};
    for i := 0 to |allowlist|
      invariant forall j :: 0 <= j < i ==> AcceptableEntry(allowlist[j], parseHead, isOrigin, allowLoopback)
      invariant forall o :: o in trusted <==>
        o == issuer.value || exists j :: 0 <= j < i && ParseUrl(allowlist[j], parseHead) == Some(o)
    {
      var o := ParseUrl(allowlist[i], parseHead);
      if o.None? || !isOrigin(allowlist[i]) || !SchemeAllowed(o.value, allowLoopback) {
        assert allowlist[i] in allowlist;
        return None;
      }
      trusted := trusted + {o.value};
    }
    return Some(Policy(issuerUrl, StripSlashes(issuerUrl) + DISCOVERY_SUFFIX, issuer.value, trusted, allowLoopback));
  }

  /** A policy that the constructor produced. */
  ghost predicate Built(p: Policy, parseHead: string -> Option<Origin>) {
    && ParseUrl(p.issuerUrl, parseHead) == Some(p.issuerOrigin)
    && p.discoveryUrl == StripSlashes(p.issuerUrl) + DISCOVERY_SUFFIX
    && p.issuerOrigin in p.trusted
  }

  function TrustsJwksUri(p: Policy, url: string, parseHead: string -> Option<Origin>): bool {
    var o := ParseUrl(url, parseHead);
    o.Some? && o.value in p.trusted
  }

  /** `request_kind`: the one discovery URL, or any URL of a trusted origin. */
  function Classify(p: Policy, url: string, parseHead: string -> Option<Origin>): Option<RequestKind> {
    if url == p.discoveryUrl then Some(Discovery)
    else if TrustsJwksUri(p, url, parseHead) then Some(Jwks)
    else None
  }

  /** The discovery URL is an exact string, yet its origin is the issuer's: it needs no entry of its own. */
  lemma DiscoveryHasIssuerOrigin(p: Policy, parseHead: string -> Option<Origin>)
    requires Built(p, parseHead) && RefusesEmptyHosts(parseHead) && ParseUrl(p.discoveryUrl, parseHead).Some?
    ensures ParseUrl(p.discoveryUrl, parseHead) == Some(p.issuerOrigin)
  {
    DiscoveryKeepsHead(p.issuerUrl);
  }

  /** Every URL that may be requested at all lies in a trusted origin. */
  lemma RequestsAreTrusted(p: Policy, url: string, parseHead: string -> Option<Origin>)
    requires Built(p, parseHead) && RefusesEmptyHosts(parseHead)
    requires Classify(p, url, parseHead).Some? && ParseUrl(url, parseHead).Some?
    ensures ParseUrl(url, parseHead).value in p.trusted
  {
    if url == p.discoveryUrl {
      DiscoveryHasIssuerOrigin(p, parseHead);
    }
  }

  // ---------------------------------------------------------------- addresses

  /** An address, its embedded IPv4 address if it is a mapped one, and the address tables' verdicts. */
  datatype Address = Address(text: string, mapped: Option<Address>, loopback: bool, global: bool)

  function Effective(a: Address): Address {
    if a.mapped.Some? then a.mapped.value else a
  }

  datatype Target = Target(origin: Origin, ip: Address, kind: RequestKind)

  /** `resolve`, after name resolution answered `addresses` (the literal itself for a literal host). */
  function Resolve(p: Policy, url: string, addresses: seq<Address>,
          parseHead: string -> Option<Origin>): Option<Target>
  {
    var kind := Classify(p, url, parseHead);
    var origin := ParseUrl(url, parseHead);
    if kind.None? || origin.None? || addresses == [] then None
    else if p.allowLoopback && (forall a :: a in addresses ==> Effective(a).loopback) then
      Some(Target(origin.value, addresses[0], kind.value))
    else if origin.value.scheme != "https" then None
    else if exists a :: a in addresses && !Effective(a).global then None
    else Some(Target(origin.value, addresses[0], kind.value))
  }

  /** The address the tables judge: the embedded IPv4 address when there is one. */
  ghost predicate IsLoopback(a: Address) {
    (a.mapped == None ==> a.loopback) && (forall m :: a.mapped == Some(m) ==> m.loopback)
  }

  ghost predicate IsGlobal(a: Address) {
    (a.mapped == None ==> a.global) && (forall m :: a.mapped == Some(m) ==> m.global)
  }

  /**
   When a connection is made, to where, and as what: the URL is the discovery URL or lies in a
   trusted origin, name resolution answered, and either every answer is a loopback address in
   loopback mode, or the scheme is HTTPS and every answer is a global address.
   */
  lemma ResolvesExactly(p: Policy, url: string, addresses: seq<Address>, parseHead: string -> Option<Origin>,
          t: Target)
    ensures Resolve(p, url, addresses, parseHead) == Some(t) <==>
      && ParseUrl(url, parseHead) == Some(t.origin)
      && (url == p.discoveryUrl || t.origin in p.trusted)
      && t.kind == (if url == p.discoveryUrl then Discovery else Jwks)
      && 0 < |addresses| && t.ip == addresses[0]
      && (|| (p.allowLoopback && forall a :: a in addresses ==> IsLoopback(a))
          || (t.origin.scheme == "https" && forall a :: a in addresses ==> IsGlobal(a)))
  {
    hide ParseUrl;
    assert forall a :: IsLoopback(a) <==> Effective(a).loopback;
    assert forall a :: IsGlobal(a) <==> Effective(a).global;
  }

  /**
   What a connection may reach: a trusted origin, at an address of its own answer; and
   unless loopback is allowed, over HTTPS, with no answer that is not global, mapped or plain.
   In any mode, plain HTTP is for loopback answers in loopback mode only.
   */
  lemma ConnectionsAreConfined(p: Policy, url: string, addresses: seq<Address>, parseHead: string -> Option<Origin>)
    requires Built(p, parseHead) && RefusesEmptyHosts(parseHead) && Resolve(p, url, addresses, parseHead).Some?
    ensures var t := Resolve(p, url, addresses, parseHead).value;
      && t.origin in p.trusted && t.ip in addresses
      && (!p.allowLoopback ==> t.origin.scheme == "https" && forall a :: a in addresses ==> IsGlobal(a))
      && (!IsGlobal(t.ip) ==> forall a :: a in addresses ==> IsLoopback(a))
      && (t.origin.scheme != "https" ==>
          p.allowLoopback && forall a :: a in addresses ==> IsLoopback(a))
  {
    RequestsAreTrusted(p, url, parseHead);
    ResolvesExactly(p, url, addresses, parseHead, Resolve(p, url, addresses, parseHead).value);
    hide Resolve, RefusesEmptyHosts;
  }

  // ---------------------------------------------------------------- the response bound

  function Size(chunks: seq<seq<char>>): nat {
    if chunks == [] then 0 else Size(chunks[..|chunks| - 1]) + |chunks[|chunks| - 1]|
  }

  /** The size of a stream is the number of its bytes, however it is cut into chunks. */
  lemma {:induction false} SizeExactly(a: seq<seq<char>>, b: seq<seq<char>>, chunk: seq<char>)
    ensures Size([]) == 0 && Size([chunk]) == |chunk| && Size(a + b) == Size(a) + Size(b)
  {
    assert [chunk][..0] == [];
    if b == [] {
      assert a + b == a;
    } else {
      assert (a + b)[..|a + b| - 1] == a + b[..|b| - 1];
      SizeExactly(a, b[..|b| - 1], chunk);
    }
  }

  lemma {:induction false} SizeOfPrefix(chunks: seq<seq<char>>, n: nat)
    requires n <= |chunks|
    ensures Size(chunks[..n]) <= Size(chunks)
  {
    if n < |chunks| {
      assert chunks[..|chunks| - 1][..n] == chunks[..n];
      SizeOfPrefix(chunks[..|chunks| - 1], n);
    } else {
      assert chunks[..n] == chunks;
    }
  }

  /**
   The bounded stream: every chunk is passed on unless the total would exceed the limit,
   and then nothing more is. `exceeded` is the raised error.
   */
  method BoundedStream(chunks: seq<seq<char>>, limit: nat) returns (passed: seq<seq<char>>, exceeded: bool)
    ensures passed <= chunks && Size(passed) <= limit
    ensures exceeded <==> Size(chunks) > limit
    ensures !exceeded ==> passed == chunks
    ensures exceeded ==> |passed| < |chunks| && Size(chunks[..|passed| + 1]) > limit
  {
    var total := 0;
    passed, exceeded := [], false;
    for i := 0 to |chunks|
      invariant passed == chunks[..i] && total == Size(chunks[..i]) <= limit && !exceeded
    {
      assert chunks[..i + 1][..i] == chunks[..i];
      total := total + |chunks[i]|;
      if total > limit {
        SizeOfPrefix(chunks, i + 1);
        exceeded := true;
        return;
      }
      passed := passed + [chunks[i]];
    }
    assert chunks[..|chunks|] == chunks;
  }
}

/** The rewriting of one response stream: the application's own messages, or one insufficient_scope response. */
module ProgressiveHttp {
  import opened ChallengeHeader
  import opened Characters
  import opened Common
  import opened HttpEnvelope
  import opened McpPrincipal
  import opened Permutations
  import opened ScopeClaims
  import opened SortedScopes
  import opened TokenVerifier

  datatype Message =
    | ResponseStart(status: nat, headers: seq<Header>)
    | ResponseBody(body: string)
    | OtherMessage(id: int)

  // ---------------------------------------------------------------- the replacement

  const INSUFFICIENT_SCOPE_BODY :=
    "{\"error\":\"insufficient_scope\","
    + "\"error_description\":\"Additional authorization is required for this operation.\"}"

  function Digit(d: nat): char
    requires d < 10
  {
    '0' + d as char
  }

  function Decimal(n: nat): string {
    if n < 10 then [Digit(n)] else Decimal(n / 10) + [Digit(n % 10)]
  }

  /** What a reader of a decimal header value makes of it. */
  function ParseDecimal(s: string): Option<nat> {
    if s == "" then None
    else
      var c := s[|s| - 1];
      var front := if |s| == 1 then Some(0) else ParseDecimal(s[..|s| - 1]);
      if !('0' <= c <= '9') || front.None? then None else Some(front.value * 10 + (c as nat - '0' as nat))
  }

  lemma {:induction false} DecimalRoundTrip(n: nat)
    ensures Decimal(n) != "" && ParseDecimal(Decimal(n)) == Some(n)
    decreases n
  {
    if n >= 10 {
      DecimalRoundTrip(n / 10);
      assert Decimal(n)[..|Decimal(n)| - 1] == Decimal(n / 10);
    }
  }

  function ChallengeStart(scopes: seq<string>, metadataUrl: string): Message {
    ResponseStart(403, [
      Header("content-type", "application/json"),
      Header("content-length", Decimal(|INSUFFICIENT_SCOPE_BODY|)),
      Header("cache-control", "no-store"),
      Header("www-authenticate", Challenge(scopes, metadataUrl))])
  }

  /** `_send_insufficient_scope_response` */
  function ChallengeResponse(scopes: seq<string>, metadataUrl: string): seq<Message> {
    [ChallengeStart(scopes, metadataUrl), ResponseBody(INSUFFICIENT_SCOPE_BODY)]
  }

  /** The replacement is a response of its own: one start, one body of the announced length. */
  lemma ReplacementIsWellFramed(scopes: seq<string>, metadataUrl: string)
    ensures var r := ChallengeResponse(scopes, metadataUrl);
      && IsResponse(r) && |r| == 2
      && exists h :: h in r[0].headers && h.name == CONTENT_LENGTH && ParseDecimal(h.value) == Some(|r[1].body|)
  {
    DecimalRoundTrip(|INSUFFICIENT_SCOPE_BODY|);
    assert ChallengeStart(scopes, metadataUrl).headers[1].name == CONTENT_LENGTH;
  }

  /** Exactly one of the headers, the one at `i`, has this name. */
  predicate OnlyHeader(headers: seq<Header>, name: string, i: nat) {
    i < |headers| && forall j :: 0 <= j < |headers| ==> (headers[j].name == name <==> j == i)
  }

  /** One 403 start and one body, framed for it, never stored, with one challenge and nothing but that. */
  ghost predicate IsRefusal(ms: seq<Message>, header: string) {
    && |ms| == 2 && ms[0].ResponseStart? && ms[1].ResponseBody? && ms[0].status == 403
    && |ms[0].headers| == 4
    && HasOnly(ms[0].headers, "www-authenticate", header)
    && HasOnly(ms[0].headers, "cache-control", "no-store")
    && HasOnly(ms[0].headers, "content-type", "application/json")
    && HasOnly(ms[0].headers, "content-length", "109") && |ms[1].body| == 109
    && ms[1].body == "{\"error\":\"insufficient_scope\","
         + "\"error_description\":\"Additional authorization is required for this operation.\"}"
  }

  lemma LengthOfBody()
    ensures |INSUFFICIENT_SCOPE_BODY| == 109 && Decimal(109) == "109"
  {
    assert Decimal(1) == "1" && Decimal(10) == "10";
  }

  ghost predicate HasOnly(headers: seq<Header>, name: string, value: string) {
    exists i: nat :: OnlyHeader(headers, name, i) && headers[i].value == value
  }

  /** A client reads the header as the insufficient_scope challenge for exactly these scopes. */
  ghost predicate Demands(header: string, scopes: seq<string>, metadataUrl: string) {
    && RequestedScopes(header) == Some(scopes)
    && ParseChallenge(header) == Some(("Bearer", [
         Param("error", "insufficient_scope"), Param("scope", Joined(scopes)),
         Param("resource_metadata", metadataUrl)]))
  }

  /** A refusal whose header a client reads back to the scopes. */
  ghost predicate RefusesFor(ms: seq<Message>, scopes: seq<string>, metadataUrl: string) {
    exists header :: IsRefusal(ms, header) && Demands(header, scopes, metadataUrl)
  }

  lemma ReplacementRefuses(scopes: seq<string>, metadataUrl: string)
    ensures IsRefusal(ChallengeResponse(scopes, metadataUrl), Challenge(scopes, metadataUrl))
  {
    hide Challenge, Decimal;
    LengthOfBody();
    var headers := ChallengeStart(scopes, metadataUrl).headers;
    NamesDiffer();
    assert OnlyHeader(headers, "content-type", 0);
    assert OnlyHeader(headers, "content-length", 1);
    assert OnlyHeader(headers, "cache-control", 2);
    assert OnlyHeader(headers, "www-authenticate", 3);
  }

  lemma NamesDiffer()
    ensures |"content-type"| == 12 && |"content-length"| == 14 && |"cache-control"| == 13 && |"www-authenticate"| == 16
  {
  }

  /** For sorted valid scopes the replacement reads back to exactly them. */
  lemma ReplacementRefusesFor(scopes: seq<string>, metadataUrl: string)
    requires StrictlySorted(scopes) && (forall s :: s in scopes ==> IsScope(s)) && IsPlain(metadataUrl)
    ensures RefusesFor(ChallengeResponse(scopes, metadataUrl), scopes, metadataUrl)
  {
    hide IsScope, Challenge, IsRefusal, ChallengeResponse, ParseChallenge, RequestedScopes;
    ReplacementRefuses(scopes, metadataUrl);
    assert forall s :: s in Members(scopes) <==> s in scopes;
    SortedIsUnique(Sorted(Members(scopes)), scopes);
    ChallengeRoundTrip(Members(scopes), metadataUrl);
    assert Demands(Challenge(scopes, metadataUrl), scopes, metadataUrl);
  }

  // ---------------------------------------------------------------- one request

  /** What happens to one request: it is admitted to the middleware, verified, and answered. */
  datatype Own =
    | Entered(isMcpRequest: bool, target: Option<string>)
    | Verified(delegated: Option<AccessToken>)
    | Sent(message: Message)

  /** The request's context, the flag of its send wrapper, and what has been sent for it. */
  datatype Local = Local(
    isMcpRequest: bool, target: Option<string>, required: seq<string>, replaced: bool, out: seq<Message>)

  const FRESH := Local(false, None, [], false, [])

  /** The header value is encoded as ASCII before anything is sent. */
  predicate CanEncode(scopes: seq<string>, metadataUrl: string) {
    IsAscii(Challenge(scopes, metadataUrl))
  }

  /**
   `send_with_scope_challenge`: the new flag, and the messages passed on. A challenge that
   cannot be encoded raises: nothing is passed on and the flag stays.
   */
  function Forward(required: seq<string>, replaced: bool, metadataUrl: string, m: Message): (bool, seq<Message>) {
    if m.ResponseStart? && required != [] then
      if CanEncode(required, metadataUrl) then (true, ChallengeResponse(required, metadataUrl)) else (replaced, [])
    else if m.ResponseBody? && replaced then (replaced, [])
    else (replaced, [m])
  }

  function Step(v: Settings, metadataUrl: string, l: Local, e: Own): Local {
    match e
    case Entered(isMcp, target) => FRESH.(isMcpRequest := isMcp, target := target)
    case Verified(delegated) => l.(required := Judged(v, l.isMcpRequest, l.target, l.required, delegated))
    case Sent(m) =>
      var (replaced, out) := Forward(l.required, l.replaced, metadataUrl, m);
      l.(replaced := replaced, out := l.out + out)
  }

  /** A request on its own. */
  function Alone(v: Settings, metadataUrl: string, own: seq<Own>): Local {
    if own == [] then FRESH else Step(v, metadataUrl, Alone(v, metadataUrl, own[..|own| - 1]), own[|own| - 1])
  }

  /** The wrapper around one `send`, as the middleware creates it for each request. */
  class ScopeChallengeSender {
    const context: ProgressiveAuthorizationContext
    const metadataUrl: string
    var responseReplaced: bool
    var sent: seq<Message>

    constructor (context: ProgressiveAuthorizationContext, metadataUrl: string)
      ensures this.context == context && this.metadataUrl == metadataUrl && !responseReplaced && sent == []
    {
      this.context := context;
      this.metadataUrl := metadataUrl;
      responseReplaced := false;
      sent := [];
    }

    /** `raised` is the encoding error, which leaves the wrapper as it was. */
    method Send(message: Message) returns (raised: bool)
      modifies this
      ensures raised <==>
        message.ResponseStart? && context.requiredScopes != [] && !CanEncode(context.requiredScopes, metadataUrl)
      ensures var (replaced, out) := Forward(old(context.requiredScopes), old(responseReplaced), metadataUrl, message);
        responseReplaced == replaced && sent == old(sent) + out
      ensures old(sent) <= sent
      ensures var out := sent[|old(sent)|..]; var scopes := context.requiredScopes;
        if message.ResponseStart? && scopes != [] then
          && (raised ==> out == [] && responseReplaced == old(responseReplaced))
          && (!raised ==> responseReplaced && exists header :: IsRefusal(out, header))
          && (!raised && StrictlySorted(scopes) && IsPlain(metadataUrl) && (forall s :: s in scopes ==> IsScope(s)) ==>
              RefusesFor(out, scopes, metadataUrl))
        else
          && !raised && responseReplaced == old(responseReplaced)
          && out == if message.ResponseBody? && old(responseReplaced) then [] else [message]
    {
      hide IsRefusal, RefusesFor, IsScope, StrictlySorted, CanEncode, IsPlain;
      raised := false;
      if message.ResponseStart? && context.requiredScopes != [] {
        if !CanEncode(context.requiredScopes, metadataUrl) {
          return true;
        }
        ReplacementRefuses(context.requiredScopes, metadataUrl);
        if StrictlySorted(context.requiredScopes) && IsPlain(metadataUrl)
           && forall s :: s in context.requiredScopes ==> IsScope(s)
        {
          ReplacementRefusesFor(context.requiredScopes, metadataUrl);
        }
        sent := sent + [ChallengeStart(context.requiredScopes, metadataUrl)];
        sent := sent + [ResponseBody(INSUFFICIENT_SCOPE_BODY)];
        responseReplaced := true;
        assert sent[|old(sent)|..] == ChallengeResponse(context.requiredScopes, metadataUrl);
        return false;
      }
      if message.ResponseBody? && responseReplaced {
        return false;
      }
      sent := sent + [message];
    }
  }

  // ---------------------------------------------------------------- what reaches the client

  /** A start followed by bodies, or any first part of that. */
  predicate IsResponse(ms: seq<Message>) {
    forall i :: 0 <= i < |ms| ==> if i == 0 then ms[i].ResponseStart? else ms[i].ResponseBody?
  }

  function Messages(own: seq<Own>): seq<Message> {
    if own == [] then []
    else
      var e := own[|own| - 1];
      Messages(own[..|own| - 1]) + if e.Sent? then [e.message] else []
  }

  /** A request that enters once, before anything else happens to it. */
  ghost predicate EntersFirst(own: seq<Own>) {
    own != [] && own[0].Entered? && forall i :: 1 <= i < |own| ==> !own[i].Entered?
  }

  /** The scopes were recorded by a verification of this very request. */
  ghost predicate RecordedIn(v: Settings, own: seq<Own>, scopes: seq<string>) {
    exists i :: 0 < i < |own| && RecordedBy(v, own[0], own[i], scopes)
  }

  ghost predicate RecordedBy(v: Settings, entry: Own, e: Own, scopes: seq<string>) {
    && entry.Entered? && entry.isMcpRequest && e.Verified? && e.delegated.Some?
    && var missing := Missing(v, entry.target, e.delegated.value);
       missing != {} && scopes == Sorted(missing)
  }

  /** What a context holds was put there by this request's own verification. */
  lemma {:induction false} ScopesAreOwn(v: Settings, metadataUrl: string, own: seq<Own>)
    requires EntersFirst(own)
    ensures var l := Alone(v, metadataUrl, own);
      && l.isMcpRequest == own[0].isMcpRequest && l.target == own[0].target
      && (l.required == [] || RecordedIn(v, own, l.required))
  {
    hide Forward;
    if |own| > 1 {
      var before, e := own[..|own| - 1], own[|own| - 1];
      ScopesAreOwn(v, metadataUrl, before);
      var l := Alone(v, metadataUrl, before);
      if RecordedIn(v, before, l.required) {
        var i :| 0 < i < |before| && RecordedBy(v, before[0], before[i], l.required);
        assert RecordedBy(v, own[0], own[i], l.required);
      }
      if e.Verified? && Alone(v, metadataUrl, own).required != l.required {
        assert RecordedBy(v, own[0], own[|own| - 1], Alone(v, metadataUrl, own).required);
      }
    }
  }

  /** Everything but body messages. */
  predicate PassesReplacement(m: Message) {
    !m.ResponseBody?
  }

  /** A stream with one start, at its beginning; what follows may be anything else. */
  ghost predicate StartsOnce(ms: seq<Message>) {
    forall i :: 0 <= i < |ms| ==> (ms[i].ResponseStart? <==> i == 0)
  }

  ghost predicate StartedAt(own: seq<Own>, k: nat) {
    k < |own| && own[k].Sent? && own[k].message.ResponseStart?
  }

  /** What has been sent, given the scopes that were recorded when the start was sent. */
  function Rewritten(ms: seq<Message>, scopes: seq<string>, metadataUrl: string): seq<Message>
    requires ms != []
  {
    if scopes == [] then ms
    else if !CanEncode(scopes, metadataUrl) then ms[1..]
    else ChallengeResponse(scopes, metadataUrl) + Filter(ms[1..], PassesReplacement)
  }

  /** The flag is set exactly when a challenge was sent. */
  predicate Replaces(scopes: seq<string>, metadataUrl: string) {
    scopes != [] && CanEncode(scopes, metadataUrl)
  }

  lemma {:induction false} NothingSent(v: Settings, metadataUrl: string, own: seq<Own>)
    requires Messages(own) == []
    ensures var l := Alone(v, metadataUrl, own); !l.replaced && l.out == []
  {
    if own != [] {
      NothingSent(v, metadataUrl, own[..|own| - 1]);
    }
  }

  lemma RewrittenGrows(ms: seq<Message>, m: Message, scopes: seq<string>, metadataUrl: string)
    requires ms != [] && !m.ResponseStart?
    ensures Rewritten(ms + [m], scopes, metadataUrl)
      == Rewritten(ms, scopes, metadataUrl) + Forward(scopes, Replaces(scopes, metadataUrl), metadataUrl, m).1
  {
    assert (ms + [m])[1..] == ms[1..] + [m];
    assert (ms[1..] + [m])[..|ms[1..] + [m]| - 1] == ms[1..];
  }

  /** The flag alone decides about messages that are no start. */
  lemma ForwardIgnoresScopes(a: seq<string>, b: seq<string>, replaced: bool, metadataUrl: string, m: Message)
    requires !m.ResponseStart?
    ensures Forward(a, replaced, metadataUrl, m) == Forward(b, replaced, metadataUrl, m)
  {
  }

  /**
   Every stream that starts once, at any moment of its transmission: unchanged when no scopes
   were recorded before its start; otherwise one challenge for those scopes stands in for the
   start, no body follows it, and everything else does; a challenge that is not ASCII is not
   sent, and neither is the start. Later verifications change nothing.
   */
  lemma {:induction false} StreamIsRewritten(v: Settings, metadataUrl: string, own: seq<Own>, k: nat)
    requires StartedAt(own, k) && StartsOnce(Messages(own)) && forall i :: k < i < |own| ==> !own[i].Entered?
    ensures var l := Alone(v, metadataUrl, own); var scopes := Alone(v, metadataUrl, own[..k]).required;
      && Messages(own) != [] && l.replaced == Replaces(scopes, metadataUrl)
      && l.out == Rewritten(Messages(own), scopes, metadataUrl)
  {
    var before, e := own[..|own| - 1], own[|own| - 1];
    if k == |before| {
      assert Messages(own)[|Messages(before)|] == e.message;
      NothingSent(v, metadataUrl, before);
      assert Messages(own) == [e.message] && Messages(own)[1..] == [];
    } else {
      assert before[..k] == own[..k];
      assert Messages(before) <= Messages(own);
      StreamIsRewritten(v, metadataUrl, before, k);
      var l, scopes := Alone(v, metadataUrl, before), Alone(v, metadataUrl, own[..k]).required;
      if e.Sent? {
        assert Messages(own)[|Messages(before)|] == e.message;
        RewrittenGrows(Messages(before), e.message, scopes, metadataUrl);
        ForwardIgnoresScopes(l.required, scopes, l.replaced, metadataUrl, e.message);
      } else {
        assert Messages(own) == Messages(before);
      }
    }
  }

  lemma {:induction false} BodiesAreDropped(ms: seq<Message>)
    ensures Filter(ms, PassesReplacement) == [] <==> forall i :: 0 <= i < |ms| ==> ms[i].ResponseBody?
  {
    if ms != [] {
      BodiesAreDropped(ms[..|ms| - 1]);
      assert forall i :: 0 <= i < |ms| - 1 ==> ms[..|ms| - 1][i] == ms[i];
    }
  }

  /**
   A challenged request receives exactly the challenge precisely when the application sent
   nothing but bodies after its start; any other message, such as trailers, follows the challenge.
   */
  lemma ChallengeIsWholeResponse(v: Settings, metadataUrl: string, own: seq<Own>, k: nat)
    requires StartedAt(own, k) && StartsOnce(Messages(own)) && forall i :: k < i < |own| ==> !own[i].Entered?
    requires Replaces(Alone(v, metadataUrl, own[..k]).required, metadataUrl)
    ensures Alone(v, metadataUrl, own).out == ChallengeResponse(Alone(v, metadataUrl, own[..k]).required, metadataUrl)
      <==> IsResponse(Messages(own))
  {
    hide Alone, ChallengeResponse;
    StreamIsRewritten(v, metadataUrl, own, k);
    var ms, scopes := Messages(own), Alone(v, metadataUrl, own[..k]).required;
    BodiesAreDropped(ms[1..]);
    assert forall i :: 1 <= i < |ms| ==> ms[i] == ms[1..][i - 1];
    assert forall i :: 0 <= i < |ms[1..]| ==> ms[1..][i] == ms[i + 1];
    var rest := Filter(ms[1..], PassesReplacement);
    assert ChallengeResponse(scopes, metadataUrl) + rest == ChallengeResponse(scopes, metadataUrl) <==> rest == [];
  }
}

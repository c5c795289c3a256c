/** The second decision point, inside MCP dispatch, and its agreement with the first. */
module McpToolAuthorization {
  import opened Common
  import opened McpPrincipal
  import opened Permutations
  import opened SortedScopes
  import opened TokenVerifier
  import opened ToolAuthorization

  /** A dispatched request; `user` is the token the SDK attached to this HTTP request. */
  datatype Request = Request(verb: string, params: Option<map<string, Json>>, user: Option<AccessToken>)

  datatype Tool = Tool(name: string, definition: Json)

  /** What a handler returns; the runner usually hands over the wire form. */
  datatype HandlerResult =
    | ToolList(tools: seq<Tool>)
    | Wire(fields: map<string, Json>)
    | Other(id: int)
    | CallDenied

  /** Whether the middleware lets the handler run, and what it does with the result. */
  datatype Reaction = Pass | PassAndFilter | Deny(reason: Reason)

  function PrincipalOf(v: Settings, r: Request): Option<Principal> {
    if r.user.None? then None else Some(PrincipalFromToken(v.provider, r.user.value))
  }

  /** The tool a call names, None when the SDK will refuse the call as malformed. */
  function CalledTool(r: Request): Option<string> {
    if r.params.None? then None
    else
      var name := Get(r.params.value, "name");
      if name.JString? && name.s != "" then Some(name.s) else None
  }

  function React(v: Settings, r: Request): Reaction {
    if r.verb == "tools/list" then PassAndFilter
    else if r.verb != "tools/call" || CalledTool(r).None? then Pass
    else
      var d := Authorize(v.policies, CalledTool(r).value, PrincipalOf(v, r));
      if d.allowed then Pass else Deny(d.reason)
  }

  predicate ListsEntry(v: Settings, p: Option<Principal>, entry: Json) {
    entry.JObject? && Get(entry.fields, "name").JString? && IsVisible(v.policies, Get(entry.fields, "name").s, p)
  }

  /** `_filter_tool_list`: any unexpected shape becomes an empty catalogue. */
  function FilterToolList(v: Settings, r: Request, result: HandlerResult): HandlerResult {
    var p := PrincipalOf(v, r);
    if result.ToolList? then
      ToolList(Filter(result.tools, (t: Tool) => IsVisible(v.policies, t.name, p)))
    else if result.Wire? && Get(result.fields, "tools").JArray? then
      var visible := Filter(Get(result.fields, "tools").items, (entry: Json) => ListsEntry(v, p, entry));
      Wire(result.fields["tools" := JArray(visible)])
    else ToolList([])
  }

  /** `ToolAuthorizationMiddleware.__call__` around the rest of the chain. */
  function Respond(v: Settings, r: Request, next: Request -> HandlerResult): HandlerResult {
    match React(v, r)
    case Pass => next(r)
    case PassAndFilter => FilterToolList(v, r, next(r))
    case Deny(_) => CallDenied
  }

  predicate NamesTool(r: Request, tool: string) {
    tool != "" && r.params.Some? && "name" in r.params.value && r.params.value["name"] == JString(tool)
  }

  /** The caller attached to this request is authenticated and allowed to use the tool. */
  predicate MayCall(v: Settings, r: Request, tool: string) {
    r.user.Some? && Authorize(v.policies, tool, Some(PrincipalFromToken(v.provider, r.user.value))).allowed
  }

  /** Verb by verb: only lists are filtered, only calls that name a tool are decided, and a denial hides the answer. */
  lemma RespondsExactly(v: Settings, r: Request, next: Request -> HandlerResult)
    ensures r.verb != "tools/list" && r.verb != "tools/call" ==> Respond(v, r, next) == next(r)
    ensures r.verb == "tools/list" ==> Respond(v, r, next) == FilterToolList(v, r, next(r))
    ensures r.verb == "tools/call" && (forall tool :: !NamesTool(r, tool)) ==> Respond(v, r, next) == next(r)
    ensures forall tool :: r.verb == "tools/call" && NamesTool(r, tool) ==>
      Respond(v, r, next) == if MayCall(v, r, tool) then next(r) else CallDenied
  {
    hide PrincipalFromToken, FilterToolList;
    if CalledTool(r).Some? {
      assert NamesTool(r, CalledTool(r).value);
    }
    forall tool | NamesTool(r, tool) ensures CalledTool(r) == Some(tool) {
    }
    DefaultDeny(v.policies, "", None);
    hide Authorize;
    forall tool ensures !Authorize(v.policies, tool, None).allowed {
      DefaultDeny(v.policies, tool, None);
    }
  }

  /** A list is filtered entry by entry, in its own order. */
  lemma ListsAreFilteredInOrder(v: Settings, r: Request, a: seq<Tool>, b: seq<Tool>, tool: Tool)
    ensures FilterToolList(v, r, ToolList(a + b)) ==
      ToolList(FilterToolList(v, r, ToolList(a)).tools + FilterToolList(v, r, ToolList(b)).tools)
    ensures FilterToolList(v, r, ToolList([tool])) == ToolList(if MayCall(v, r, tool.name) then [tool] else [])
    ensures FilterToolList(v, r, ToolList([])) == ToolList([])
  {
    DefaultDeny(v.policies, tool.name, None);
    hide PrincipalFromToken, Authorize;
    var p := PrincipalOf(v, r);
    FilterConcat(a, b, (t: Tool) => IsVisible(v.policies, t.name, p));
    FilterOne(tool, (t: Tool) => IsVisible(v.policies, t.name, p));
  }

  /** A wire result with these entries in place of its tools. */
  function Listing(fields: map<string, Json>, entries: seq<Json>): HandlerResult {
    Wire(fields["tools" := JArray(entries)])
  }

  lemma ListingIsFiltered(v: Settings, r: Request, fields: map<string, Json>, entries: seq<Json>)
    ensures var p := PrincipalOf(v, r);
      FilterToolList(v, r, Listing(fields, entries))
      == Listing(fields, Filter(entries, (entry: Json) => ListsEntry(v, p, entry)))
  {
    hide PrincipalOf, Filter, ListsEntry;
    var p := PrincipalOf(v, r);
    var kept := JArray(Filter(entries, (entry: Json) => ListsEntry(v, p, entry)));
    assert fields["tools" := JArray(entries)]["tools" := kept] == fields["tools" := kept];
  }

  /** The wire form is filtered alike, and any other member of it stays. */
  lemma WiresAreFilteredInOrder(v: Settings, r: Request, fields: map<string, Json>, a: seq<Json>, b: seq<Json>)
    returns (x: seq<Json>, y: seq<Json>)
    ensures FilterToolList(v, r, Listing(fields, a)) == Listing(fields, x)
    ensures FilterToolList(v, r, Listing(fields, b)) == Listing(fields, y)
    ensures FilterToolList(v, r, Listing(fields, a + b)) == Listing(fields, x + y)
    ensures FilterToolList(v, r, Listing(fields, [])) == Listing(fields, [])
  {
    hide PrincipalOf, FilterToolList, ListsEntry, Listing;
    var p := PrincipalOf(v, r);
    var keep := (entry: Json) => ListsEntry(v, p, entry);
    x, y := Filter(a, keep), Filter(b, keep);
    FilterConcat(a, b, keep);
    ListingIsFiltered(v, r, fields, a);
    ListingIsFiltered(v, r, fields, b);
    ListingIsFiltered(v, r, fields, a + b);
    ListingIsFiltered(v, r, fields, []);
  }

  /** An entry stays exactly when it is an object with a name that the reader may call. */
  lemma EntriesMayBeCalled(v: Settings, r: Request, fields: map<string, Json>, entry: Json)
    ensures FilterToolList(v, r, Listing(fields, [entry])) == Listing(fields,
      if entry.JObject? && "name" in entry.fields && entry.fields["name"].JString?
         && MayCall(v, r, entry.fields["name"].s)
      then [entry] else [])
  {
    hide FilterToolList, Authorize, Listing, Filter;
    var p := PrincipalOf(v, r);
    FilterOne(entry, (e: Json) => ListsEntry(v, p, e));
    ListingIsFiltered(v, r, fields, [entry]);
    if entry.JObject? && Get(entry.fields, "name").JString? {
      DefaultDeny(v.policies, Get(entry.fields, "name").s, p);
    }
  }

  lemma OtherResultsListNothing(v: Settings, r: Request, result: HandlerResult)
    requires !result.ToolList? && (result.Wire? ==> !Get(result.fields, "tools").JArray?)
    ensures FilterToolList(v, r, result) == ToolList([])
  {
  }

  // ---------------------------------------------------------------- both decision points in a row

  datatype Outcome = Unauthorized | Challenged(scopes: seq<string>) | Dispatched(reaction: Reaction)

  /**
   One HTTP request from the verifier to the handler. The SDK is one assumption: a verifier
   that returns nothing ends the request, one that returns a token has it attached to exactly
   this request.
   */
  function Serve(v: Settings, isMcpRequest: bool, target: Option<string>, delegated: Option<AccessToken>,
                 verb: string, params: Option<map<string, Json>>): Outcome
  {
    if delegated.None? then Unauthorized
    else
      var missing := if isMcpRequest then Missing(v, target, delegated.value) else {};
      if missing != {} then Challenged(Sorted(missing))
      else Dispatched(React(v, Request(verb, params, delegated)))
  }

  ghost predicate ReachesHandlerOf(o: Outcome, verb: string, params: Option<map<string, Json>>, tool: string) {
    o == Dispatched(Pass) && verb == "tools/call" && CalledTool(Request(verb, params, None)) == Some(tool)
  }

  /** Whatever the headers claim, a tool runs only for a caller whom its policy allows. */
  lemma HandlerNeedsAuthorization(v: Settings, isMcpRequest: bool, target: Option<string>,
          delegated: Option<AccessToken>,
                                  verb: string, params: Option<map<string, Json>>, tool: string)
    requires ReachesHandlerOf(Serve(v, isMcpRequest, target, delegated, verb, params), verb, params, tool)
    ensures delegated.Some?
      && Authorize(v.policies, tool, Some(PrincipalFromToken(v.provider, delegated.value))).allowed
  {
    hide PrincipalFromToken, Authorize, Missing;
    var r := Request(verb, params, delegated);
    assert CalledTool(r) == CalledTool(Request(verb, params, None));
  }

  /** What keeps a caller from a tool that no scope can remove. */
  ghost predicate BeyondScopes(v: Settings, tool: string, p: Principal) {
    || tool !in v.policies
    || (v.policies[tool].kind.DelegatedScopes? && p.kind != Delegated)
    || (v.policies[tool].kind.ApplicationRoles?
        && (p.kind != Application || !(v.policies[tool].permissions <= p.roles)))
  }

  /**
   When the header names the tool that the body calls and the token clears the verifier, the
   two decision points agree: the call is denied exactly for a missing policy, a wrong kind of
   principal or a missing application role, never for a scope.
   */
  lemma DecisionPointsAgree(v: Settings, tool: string, token: AccessToken, params: map<string, Json>)
    requires tool != "" && Get(params, "name") == JString(tool)
    requires !Serve(v, true, Some(tool), Some(token), "tools/call", Some(params)).Challenged?
    ensures var p := PrincipalFromToken(v.provider, token);
      var o := Serve(v, true, Some(tool), Some(token), "tools/call", Some(params));
      && (o == Dispatched(Pass) <==> !BeyondScopes(v, tool, p))
      && (o != Dispatched(Pass) ==> o.Dispatched? && o.reaction.Deny?)
      && (o == Dispatched(Deny(MissingPermission)) ==> v.policies[tool].kind.ApplicationRoles?)
  {
    PrincipalHoldsScopes(v, token);
    hide PrincipalFromToken;
    assert MissingForTarget(v, Some(tool), token) == {};
  }

  /** A challenge for a tool's scopes is raised for calls that dispatch would have denied, and for no others. */
  lemma ChallengesReplaceDenials(v: Settings, tool: string, token: AccessToken, params: map<string, Json>)
    requires tool != "" && Get(params, "name") == JString(tool)
    requires MissingForTarget(v, Some(tool), token) != {}
    ensures React(v, Request("tools/call", Some(params), Some(token))) == Deny(MissingPermission)
  {
    PrincipalHoldsScopes(v, token);
    hide PrincipalFromToken;
  }

  lemma PrincipalHoldsScopes(v: Settings, token: AccessToken)
    ensures PrincipalFromToken(v.provider, token).scopes == Members(token.scopes)
  {
  }

  /** No scopes the caller could add would let it call the tool. */
  ghost predicate IsHopeless(v: Settings, tool: string, p: Principal) {
    forall more :: !Authorize(v.policies, tool, Some(WithScopes(p, more))).allowed
  }

  lemma HopelessIsBeyondScopes(v: Settings, tool: string, p: Principal)
    ensures IsHopeless(v, tool, p) <==> BeyondScopes(v, tool, p)
  {
    if !BeyondScopes(v, tool, p) {
      assert Authorize(v.policies, tool, Some(WithScopes(p, v.policies[tool].permissions))).allowed;
    }
  }

  /**
   A challenge for a call that no scopes can open is raised exactly when a global scope is
   missing and the tool is out of reach for another reason: the target itself never raises one,
   but the global requirement does not look at the target.
   */
  lemma HopelessChallenges(v: Settings, tool: string, token: AccessToken)
    ensures var p := PrincipalFromToken(v.provider, token);
      Missing(v, Some(tool), token) != {} && IsHopeless(v, tool, p) <==>
      MissingGlobal(v, token) != {} && BeyondScopes(v, tool, p)
  {
    var p := PrincipalFromToken(v.provider, token);
    HopelessIsBeyondScopes(v, tool, p);
    OnlyUsefulChallenges(v, tool, token);
    hide PrincipalFromToken, Authorize, BeyondScopes, MissingForTarget, MissingGlobal;
    if MissingForTarget(v, Some(tool), token) != {} {
      var more :| Authorize(v.policies, tool, Some(WithScopes(p, more))).allowed;
      assert !IsHopeless(v, tool, p);
    }
  }

  /** It does happen: without the global scope, a call of a tool that has no policy is challenged. */
  lemma HopelessChallengeHappens()
    ensures var v, token := Settings(map[], Generic, ["g"]), AccessToken("client", None, [], map[]);
      Missing(v, Some("tool"), token) == {"g"} && IsHopeless(v, "tool", PrincipalFromToken(v.provider, token))
  {
    var v, token := Settings(map[], Generic, ["g"]), AccessToken("client", None, [], map[]);
    assert v.globalScopes[0] in Members(v.globalScopes);
    assert Members(v.globalScopes) == {"g"} && Members(token.scopes) == {};
  }

  // ---------------------------------------------------------------- tool lists

  /** The catalogue and the calls agree: an entry is listed exactly when calling it would not be denied. */
  lemma ListedIffCallable(v: Settings, list: Request, fields: map<string, Json>, entry: Json, call: map<string, Json>)
    requires Get(fields, "tools").JArray? && entry.JObject? && Get(entry.fields, "name") == Get(call, "name")
    requires Get(call, "name").JString? && Get(call, "name").s != ""
    ensures var before := multiset(Get(fields, "tools").items);
      var r := FilterToolList(v, list, Wire(fields));
      && r.Wire? && Get(r.fields, "tools").JArray?
      && (forall k :: k in fields && k != "tools" ==> k in r.fields && r.fields[k] == fields[k])
      && multiset(Get(r.fields, "tools").items)[entry]
         == if React(v, Request("tools/call", Some(call), list.user)) == Pass then before[entry] else 0
  {
    hide Authorize, PrincipalOf;
    var p := PrincipalOf(v, list);
    FilterCounts(Get(fields, "tools").items, (e: Json) => ListsEntry(v, p, e), entry);
    var r := Request("tools/call", Some(call), list.user);
    assert PrincipalOf(v, r) == p by { PrincipalIsTheUsers(v, r, list); }
  }

  lemma PrincipalIsTheUsers(v: Settings, a: Request, b: Request)
    requires a.user == b.user
    ensures PrincipalOf(v, a) == PrincipalOf(v, b)
  {
  }

  ghost predicate Shows(r: HandlerResult, name: string) {
    || (r.ToolList? && exists t :: t in r.tools && t.name == name)
    || (r.Wire? && Get(r.fields, "tools").JArray?
        && exists e :: e in Get(r.fields, "tools").items && e.JObject? && Get(e.fields, "name") == JString(name))
    || r.Other? || (r.Wire? && !Get(r.fields, "tools").JArray?)
  }

  /** Nothing a list answer shows is hidden from its reader, and results of unknown shape show nothing. */
  lemma ListsShowOnlyVisible(v: Settings, r: Request, next: Request -> HandlerResult, name: string)
    requires r.verb == "tools/list" && Shows(Respond(v, r, next), name)
    ensures IsVisible(v.policies, name, PrincipalOf(v, r)) && Shows(next(r), name)
  {
    hide Authorize, PrincipalOf;
    var p, raw := PrincipalOf(v, r), next(r);
    if raw.ToolList? {
      var keep := (t: Tool) => IsVisible(v.policies, t.name, p);
      var t :| t in Filter(raw.tools, keep) && t.name == name;
      FilterCounts(raw.tools, keep, t);
      assert t in multiset(Filter(raw.tools, keep));
      assert t in multiset(raw.tools);
    } else if raw.Wire? && Get(raw.fields, "tools").JArray? {
      var items := Get(raw.fields, "tools").items;
      var keep := (e: Json) => ListsEntry(v, p, e);
      var e :| e in Filter(items, keep) && e.JObject? && Get(e.fields, "name") == JString(name);
      FilterCounts(items, keep, e);
      assert e in multiset(Filter(items, keep));
      assert e in multiset(items);
    }
  }
}

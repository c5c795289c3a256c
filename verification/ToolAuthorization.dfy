/** Declarative tool policies, their evaluation, and the registry built for one provider. */
module ToolAuthorization {
  import opened Common
  import opened ScopeClaims
  import opened SortedScopes

  datatype PrincipalKind = Delegated | Application | Unknown

  /** The normalized facts about a caller; no decision reads the client id or the subject. */
  datatype Principal = Principal(
    clientId: string, subject: Option<string>, kind: PrincipalKind, scopes: set<string>, roles: set<string>)

  datatype PolicyKind = Authenticated | DelegatedScopes | ApplicationRoles | OAuthScopes

  datatype ToolPolicy = ToolPolicy(kind: PolicyKind, permissions: set<string>) {
    /** What `__post_init__` lets through. */
    predicate Valid() {
      kind.Authenticated? <==> permissions == {}
    }

    predicate AsksForScopes() {
      kind.DelegatedScopes? || kind.OAuthScopes?
    }
  }

  datatype Reason = Allowed | PolicyMissing | Unauthenticated | WrongPrincipalKind | MissingPermission

  datatype Decision = Decision(allowed: bool, reason: Reason, requiredScopes: seq<string>)

  datatype PolicyError = NoPermissions | InvalidScopeToken(scope: string)

  // ---------------------------------------------------------------- constructing policies

  /** A scope-token character of section 3.3 of RFC 6749. */
  predicate IsScopeChar(c: char) {
    var n := c as int;
    n == 0x21 || 0x23 <= n <= 0x5B || 0x5D <= n <= 0x7E
  }

  /** `_is_valid_oauth_scope_token`, which accepts the empty string; its callers drop that first. */
  predicate IsScopeToken(scope: string) {
    forall i :: 0 <= i < |scope| ==> IsScopeChar(scope[i])
  }

  function Permissions(values: seq<string>): Result<set<string>, PolicyError> {
    var permissions := set v | v in values && v != "";
    if permissions == {} then Err(NoPermissions) else Ok(permissions)
  }

  function ScopePermissions(values: seq<string>): Result<set<string>, PolicyError> {
    match Permissions(values)
    case Err(e) => Err(e)
    case Ok(permissions) =>
      var bad := set p | p in permissions && !IsScopeToken(p);
      if bad == {} then Ok(permissions) else Err(InvalidScopeToken(Sorted(bad)[0]))
  }

  /** The three constructors of policies with permissions. */
  function MakePolicy(kind: PolicyKind, values: seq<string>): Result<ToolPolicy, PolicyError>
    requires !kind.Authenticated?
  {
    var permissions := if kind.ApplicationRoles? then Permissions(values) else ScopePermissions(values);
    if permissions.Err? then Err(permissions.error) else Ok(ToolPolicy(kind, permissions.value))
  }

  predicate AcceptableValues(kind: PolicyKind, values: seq<string>) {
    && (exists v :: v in values && v != "")
    && (kind.ApplicationRoles? || forall v :: v in values ==> IsScopeToken(v))
  }

  /** A scope token is printable ASCII without space, quote and backslash. */
  lemma ScopeTokensExactly(scope: string)
    ensures IsScopeToken(scope) <==>
      forall i :: 0 <= i < |scope| ==> '!' <= scope[i] <= '~' && scope[i] != '"' && scope[i] != '\\'
  {
  }

  /** A constructed policy is valid and holds the non-empty values; construction fails on no other lists. */
  lemma MadePolicies(kind: PolicyKind, values: seq<string>)
    requires !kind.Authenticated?
    ensures var r := MakePolicy(kind, values);
      && (r.Ok? <==> AcceptableValues(kind, values))
      && (r.Ok? ==> r.value.kind == kind && r.value.Valid() && r.value.permissions == Members(values) - {""})
  {
    var permissions := set v | v in values && v != "";
    assert permissions == Members(values) - {""};
    if exists v :: v in values && v != "" {
      var v :| v in values && v != "";
      assert v in permissions;
    }
    assert IsScopeToken("");
    var bad := set p | p in permissions && !IsScopeToken(p);
    if v :| v in values && !IsScopeToken(v) {
      assert v in bad;
    }
  }

  // ---------------------------------------------------------------- decisions

  function RequiredScopes(policy: ToolPolicy): seq<string> {
    if policy.AsksForScopes() then Sorted(policy.permissions) else []
  }

  function PermissionDecision(policy: ToolPolicy, granted: set<string>): Decision {
    if policy.permissions <= granted then Decision(true, Allowed, RequiredScopes(policy))
    else Decision(false, MissingPermission, RequiredScopes(policy))
  }

  /** `ToolAuthorizationService.authorize` */
  function Authorize(policies: map<string, ToolPolicy>, tool: string, principal: Option<Principal>): Decision {
    if tool !in policies then Decision(false, PolicyMissing, [])
    else
      var policy := policies[tool];
      if principal.None? then Decision(false, Unauthenticated, RequiredScopes(policy))
      else match policy.kind
        case Authenticated => Decision(true, Allowed, [])
        case DelegatedScopes =>
          if !principal.value.kind.Delegated? then Decision(false, WrongPrincipalKind, RequiredScopes(policy))
          else PermissionDecision(policy, principal.value.scopes)
        case ApplicationRoles =>
          if !principal.value.kind.Application? then Decision(false, WrongPrincipalKind, [])
          else PermissionDecision(policy, principal.value.roles)
        case OAuthScopes => PermissionDecision(policy, principal.value.scopes)
  }

  predicate IsVisible(policies: map<string, ToolPolicy>, tool: string, principal: Option<Principal>) {
    Authorize(policies, tool, principal).allowed
  }

  /** The caller is of the kind the policy asks for. */
  predicate FitsKind(p: Principal, policy: ToolPolicy) {
    (policy.kind.DelegatedScopes? ==> p.kind.Delegated?) && (policy.kind.ApplicationRoles? ==> p.kind.Application?)
  }

  /** What a policy asks of an authenticated caller. */
  predicate Satisfies(p: Principal, policy: ToolPolicy) {
    && FitsKind(p, policy)
    && (policy.AsksForScopes() ==> policy.permissions <= p.scopes)
    && (policy.kind.ApplicationRoles? ==> policy.permissions <= p.roles)
  }

  /**
   Default deny: a tool is open exactly to authenticated callers who satisfy its own policy, and
   each of the five reasons is exact.
   */
  lemma DefaultDeny(policies: map<string, ToolPolicy>, tool: string, p: Option<Principal>)
    ensures var d := Authorize(policies, tool, p);
      && (d.allowed <==> tool in policies && p.Some? && Satisfies(p.value, policies[tool]))
      && (d.allowed <==> d.reason == Allowed)
      && (d.reason == PolicyMissing <==> tool !in policies)
      && (d.reason == Unauthenticated <==> tool in policies && p.None?)
      && (d.reason == WrongPrincipalKind <==> tool in policies && p.Some? && !FitsKind(p.value, policies[tool]))
      && (d.reason == MissingPermission <==>
          tool in policies && p.Some? && FitsKind(p.value, policies[tool]) && !Satisfies(p.value, policies[tool]))
      && d.requiredScopes ==
           if tool in policies && policies[tool].AsksForScopes() then Sorted(policies[tool].permissions) else []
  {
  }

  function WithScopes(p: Principal, more: set<string>): Principal {
    p.(scopes := p.scopes + more)
  }

  /** The denial that asks for scopes: a permission is missing and the policy names scopes. */
  predicate AsksForMoreScopes(d: Decision) {
    !d.allowed && d.reason == MissingPermission && d.requiredScopes != []
  }

  /** Granting more never takes a permission away. */
  lemma AuthorizeIsMonotone(policies: map<string, ToolPolicy>, tool: string, p: Principal, more: set<string>,
          roles: set<string>)
    requires Authorize(policies, tool, Some(p)).allowed
    ensures Authorize(policies, tool, Some(WithScopes(p, more).(roles := p.roles + roles))).allowed
  {
  }

  /**
   A denial asks for scopes exactly when some extension of the caller's scopes would be
   allowed, and the scopes it names are then the least such extension.
   */
  lemma AskingIsUseful(policies: map<string, ToolPolicy>, tool: string, p: Principal)
    ensures var d := Authorize(policies, tool, Some(p));
      && (AsksForMoreScopes(d) <==>
          !d.allowed && exists more :: Authorize(policies, tool, Some(WithScopes(p, more))).allowed)
      && (AsksForMoreScopes(d) ==> forall more ::
          (Authorize(policies, tool, Some(WithScopes(p, more))).allowed
           <==> Members(d.requiredScopes) <= p.scopes + more))
  {
    var d := Authorize(policies, tool, Some(p));
    if AsksForMoreScopes(d) {
      assert Authorize(policies, tool, Some(WithScopes(p, Members(d.requiredScopes)))).allowed;
    }
  }

  // ---------------------------------------------------------------- the registry for one provider

  datatype Provider = Entra | Generic

  const HEALTH_SCOPE := "mcp:tools:health"

  /** The policies used when the caller supplies none. */
  function DefaultPolicies(provider: Provider): map<string, ToolPolicy> {
    map["whoami" := ToolPolicy(Authenticated, {}),
        "health" := ToolPolicy(if provider.Entra? then DelegatedScopes else OAuthScopes, {HEALTH_SCOPE})]
  }

  /** Anyone may ask who they are; the health check takes its scope, from a delegated caller when it is Entra. */
  predicate AreDefaults(policies: map<string, ToolPolicy>, provider: Provider) {
    && policies.Keys == {"whoami", "health"}
    && policies["whoami"] == ToolPolicy(Authenticated, {})
    && policies["health"] ==
         ToolPolicy(if provider.Entra? then DelegatedScopes else OAuthScopes, {"mcp:tools:health"})
  }

  lemma DefaultsExactly(provider: Provider)
    ensures AreDefaults(DefaultPolicies(provider), provider)
  {
  }

  /** The policy that replaces one with short scope names. */
  function QualifiedPolicy(policy: ToolPolicy, resource: string): Result<ToolPolicy, PolicyError> {
    if policy.AsksForScopes() then MakePolicy(policy.kind, QualifyScopes(Sorted(policy.permissions), resource))
    else Ok(policy)
  }

  lemma OtherPoliciesStay(policy: ToolPolicy, resource: string)
    requires !policy.AsksForScopes()
    ensures QualifiedPolicy(policy, resource) == Ok(policy)
  {
  }

  predicate Qualifies(policies: map<string, ToolPolicy>, resource: string) {
    forall tool :: tool in policies ==> QualifiedPolicy(policies[tool], resource).Ok?
  }

  ghost predicate AgreesWith(effective: map<string, ToolPolicy>, registry: map<string, ToolPolicy>, resource: string) {
    forall tool :: tool in effective ==>
      tool in registry && QualifiedPolicy(registry[tool], resource) == Ok(effective[tool])
  }

  lemma NothingToAgreeWith(registry: map<string, ToolPolicy>, resource: string)
    ensures AgreesWith(map[], registry, resource)
  {
  }

  lemma OneMorePolicy(effective: map<string, ToolPolicy>, registry: map<string, ToolPolicy>, resource: string,
          tool: string, policy: ToolPolicy)
    requires AgreesWith(effective, registry, resource)
    requires tool in registry && QualifiedPolicy(registry[tool], resource) == Ok(policy)
    ensures AgreesWith(effective[tool := policy], registry, resource)
  {
    hide QualifiedPolicy;
  }

  lemma AllQualify(effective: map<string, ToolPolicy>, registry: map<string, ToolPolicy>, resource: string)
    requires AgreesWith(effective, registry, resource) && effective.Keys == registry.Keys
    ensures Qualifies(registry, resource)
  {
    hide QualifiedPolicy;
    assert forall tool :: tool in registry <==> tool in effective.Keys;
  }

  lemma OneFails(registry: map<string, ToolPolicy>, resource: string, tool: string)
    requires tool in registry && QualifiedPolicy(registry[tool], resource).Err?
    ensures !Qualifies(registry, resource)
  {
    hide QualifiedPolicy;
  }

  /** `_build_tool_authorizer` */
  method BuildToolAuthorizer(provider: Provider, resource: Option<string>, supplied: Option<map<string, ToolPolicy>>)
    returns (r: Result<map<string, ToolPolicy>, PolicyError>)
    ensures var registry := if supplied.Some? then supplied.value else DefaultPolicies(provider);
      if provider.Generic? || resource.None? then r == Ok(registry)
      else
        && (r.Ok? <==> Qualifies(registry, resource.value))
        && (r.Ok? ==> r.value.Keys == registry.Keys && AgreesWith(r.value, registry, resource.value))
    ensures supplied.None? && (provider.Generic? || resource.None?) ==> r.Ok? && AreDefaults(r.value, provider)
  {
    DefaultsExactly(provider);
    hide MakePolicy, DefaultPolicies, AreDefaults, Qualifies, AgreesWith;
    hide QualifyScopes, Sorted, Members, StrictlySorted;
    var registry := if supplied.Some? then supplied.value else DefaultPolicies(provider);
    if provider.Generic? || resource.None? {
      return Ok(registry);
    }
    var effective: map<string, ToolPolicy> := map[];
    var pending := registry.Keys;
    NothingToAgreeWith(registry, resource.value);
    while pending != {}
      invariant pending <= registry.Keys && effective.Keys == registry.Keys - pending
      invariant AgreesWith(effective, registry, resource.value)
      decreases |pending|
    {
      var tool :| tool in pending;
      var policy := registry[tool];
      pending := pending - {tool};
      if !policy.AsksForScopes() {
        OneMorePolicy(effective, registry, resource.value, tool, policy);
        effective := effective[tool := policy];
      } else {
        var scopes := QualifyScopes(Sorted(policy.permissions), resource.value);
        var qualified := MakePolicy(policy.kind, scopes);
        if qualified.Err? {
          OneFails(registry, resource.value, tool);
          return Err(qualified.error);
        }
        OneMorePolicy(effective, registry, resource.value, tool, qualified.value);
        effective := effective[tool := qualified.value];
      }
    }
    AllQualify(effective, registry, resource.value);
    r := Ok(effective);
  }

  /** Qualifying a policy of scopes qualifies each of its names, and keeps every other policy. */
  lemma QualifiedPermissions(policy: ToolPolicy, resource: string)
    requires QualifiedPolicy(policy, resource).Ok?
    ensures var q := QualifiedPolicy(policy, resource).value;
      q.kind == policy.kind && q.permissions ==
        if policy.AsksForScopes() then Members(QualifyScopes(Sorted(policy.permissions), resource)) - {""}
        else policy.permissions
  {
    if policy.AsksForScopes() {
      MadePolicies(policy.kind, QualifyScopes(Sorted(policy.permissions), resource));
    }
  }
}

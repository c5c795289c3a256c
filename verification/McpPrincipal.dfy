/** From a validated access token to the facts that policies read, and the Entra normalization before it. */
module McpPrincipal {
  import opened Characters
  import opened Common
  import opened ScopeClaims
  import opened SortedScopes
  import opened ToolAuthorization

  /** A validated token; an absent claims mapping is the empty one. */
  datatype AccessToken = AccessToken(
    clientId: string, subject: Option<string>, scopes: seq<string>, claims: map<string, Json>)

  function HasDelegatedScopes(claims: map<string, Json>): bool {
    var scp := Get(claims, "scp");
    scp.JString? && Words(scp.s) != []
  }

  /** `_entra_principal_kind`: contradictory claims are neither delegated nor application. */
  function EntraKind(claims: map<string, Json>): PrincipalKind {
    var isApp := Get(claims, "idtyp") == JString("app");
    if HasDelegatedScopes(claims) then (if isApp then Unknown else Delegated)
    else if isApp then Application
    else Unknown
  }

  /** `principal_from_access_token` */
  function PrincipalFromToken(provider: Provider, token: AccessToken): Principal {
    Principal(
      token.clientId,
      token.subject,
      if provider.Entra? then EntraKind(token.claims) else Unknown,
      Members(token.scopes),
      if provider.Entra? then Members(RolesFromClaims(token.claims)) else {})
  }

  /** `EntraTokenVerifier.verify_token`, given what the generic verification returned. */
  function EntraVerify(delegated: Option<AccessToken>, tenantId: string, resource: string): Option<AccessToken> {
    if delegated.None? || Get(delegated.value.claims, "tid") != JString(tenantId) then None
    else Some(delegated.value.(scopes := QualifyScopes(delegated.value.scopes, resource)))
  }

  predicate IsMarkedApp(claims: map<string, Json>) {
    "idtyp" in claims && claims["idtyp"] == JString("app")
  }

  predicate CarriesScp(claims: map<string, Json>) {
    "scp" in claims && claims["scp"].JString? && exists i :: 0 <= i < |claims["scp"].s| && !IsSpace(claims["scp"].s[i])
  }

  lemma {:induction false} SomeWord(s: string)
    ensures Words(s) == [] <==> forall i :: 0 <= i < |s| ==> IsSpace(s[i])
    decreases |s|
  {
    hide IsSpace;
    if s != "" && IsSpace(s[0]) {
      SomeWord(s[1..]);
      assert s == [s[0]] + s[1..];
    }
  }

  /** What the kind is read from: the app marker, and a scp claim with something in it. */
  lemma EntraKindExactly(claims: map<string, Json>)
    ensures EntraKind(claims) ==
      if CarriesScp(claims) && !IsMarkedApp(claims) then Delegated
      else if IsMarkedApp(claims) && !CarriesScp(claims) then Application
      else Unknown
  {
    hide Words;
    if "scp" in claims && claims["scp"].JString? {
      SomeWord(claims["scp"].s);
    }
  }

  /** A role is a non-empty string member of an array claim. */
  predicate CarriesRole(claims: map<string, Json>, role: string) {
    "roles" in claims && claims["roles"].JArray? && JString(role) in claims["roles"].items && role != ""
  }

  /** Every field of the principal: kind and roles are read for Entra only, scopes from the token alone. */
  lemma PrincipalExactly(provider: Provider, token: AccessToken)
    ensures var p := PrincipalFromToken(provider, token);
      && p.clientId == token.clientId && p.subject == token.subject
      && (p.kind == Delegated <==> provider == Entra && CarriesScp(token.claims) && !IsMarkedApp(token.claims))
      && (p.kind == Application <==> provider == Entra && IsMarkedApp(token.claims) && !CarriesScp(token.claims))
      && (forall s :: s in p.scopes <==> s in token.scopes)
      && (forall r :: r in p.roles <==> provider == Entra && CarriesRole(token.claims, r))
  {
    EntraKindExactly(token.claims);
    hide EntraKind, CarriesScp, IsMarkedApp;
  }

  predicate Grants(provider: Provider, policy: ToolPolicy, token: AccessToken) {
    Authorize(map["tool" := policy], "tool", Some(PrincipalFromToken(provider, token))).allowed
  }

  /** No token is served by a delegated policy and by an application policy. */
  lemma NeverDelegatedAndApplication(provider: Provider, delegated: ToolPolicy, application: ToolPolicy,
          token: AccessToken)
    requires delegated.kind.DelegatedScopes? && application.kind.ApplicationRoles?
    ensures !(Grants(provider, delegated, token) && Grants(provider, application, token))
  {
  }

  /** Whatever the roles claim holds, it decides no policy about scopes. */
  lemma RolesDecideNoScopePolicy(provider: Provider, policy: ToolPolicy, token: AccessToken, roles: Json)
    requires policy.AsksForScopes()
    ensures Grants(provider, policy, token.(claims := token.claims["roles" := roles]))
      == Grants(provider, policy, token)
  {
  }

  /**
   The two qualifications meet: an Entra policy of scopes, short or qualified, is met by a
   verified token exactly when the raw token is of this tenant and carried every name in either
   form, and the principal is delegated where the policy says so.
   */
  lemma EntraPolicyMeetsToken(policy: ToolPolicy, raw: AccessToken, tenantId: string, resource: string)
    requires policy.AsksForScopes() && QualifiedPolicy(policy, resource).Ok? && IsUri(StripSlashes(resource))
    ensures var verified := EntraVerify(Some(raw), tenantId, resource);
      (verified.Some? && Grants(Entra, QualifiedPolicy(policy, resource).value, verified.value)) <==>
      (&& Get(raw.claims, "tid") == JString(tenantId)
       && (policy.kind.DelegatedScopes? ==> EntraKind(raw.claims) == Delegated)
       && forall p :: p in policy.permissions && p != "" ==> Carries(raw.scopes, p, resource))
  {
    hide EntraKind, IsUri, Grants, Carries, QualifyScopes, QualifiedPolicy, Prefix, StripSlashes;
    var names := Sorted(policy.permissions);
    assert forall p :: p in names <==> p in Members(names);
    QualifiedPermissions(policy, resource);
    QualificationKeepsGrants(names, raw.scopes, resource);
    QualifiedNamesAreNotEmpty(names, resource);
    var verified := EntraVerify(Some(raw), tenantId, resource);
    if verified.Some? {
      ScopeGrants(QualifiedPolicy(policy, resource).value, verified.value);
    }
  }

  lemma ScopeGrants(policy: ToolPolicy, token: AccessToken)
    requires policy.AsksForScopes()
    ensures Grants(Entra, policy, token) <==>
      (&& (policy.kind.DelegatedScopes? ==> EntraKind(token.claims) == Delegated)
       && policy.permissions <= Members(token.scopes))
  {
  }

  lemma QualifiedNamesAreNotEmpty(names: seq<string>, resource: string)
    requires IsUri(StripSlashes(resource))
    ensures "" !in Members(QualifyScopes(names, resource))
  {
    if "" in Members(QualifyScopes(names, resource)) {
      var s :| s in names && s != "" && Qualified(s, resource) == "";
      QualifiedIsUri(s, resource);
    }
  }
}

/** The token verifier's decorator: which scopes a request is challenged for, and what a challenge is worth. */
module TokenVerifier {
  import opened Common
  import opened McpPrincipal
  import opened ScopeClaims
  import opened SortedScopes
  import opened ToolAuthorization

  /** Request-local state; `requiredScopes` is the only field that changes. */
  class ProgressiveAuthorizationContext {
    const isMcpRequest: bool
    const target: Option<string>
    var requiredScopes: seq<string>

    constructor (isMcpRequest: bool, target: Option<string>)
      ensures this.isMcpRequest == isMcpRequest && this.target == target && requiredScopes == []
    {
      this.isMcpRequest := isMcpRequest;
      this.target := target;
      requiredScopes := [];
    }
  }

  datatype Settings = Settings(policies: map<string, ToolPolicy>, provider: Provider, globalScopes: seq<string>)

  // ---------------------------------------------------------------- which requirements fail

  function KindOf(v: Settings, token: AccessToken): PrincipalKind {
    PrincipalFromToken(v.provider, token).kind
  }

  function MissingGlobal(v: Settings, token: AccessToken): set<string> {
    if Members(v.globalScopes) <= Members(token.scopes) then {} else Members(v.globalScopes)
  }

  /** The scopes of the target's policy, when only scopes stand between this caller and the tool. */
  function MissingForTarget(v: Settings, target: Option<string>, token: AccessToken): set<string> {
    if target.None? || target.value !in v.policies then {}
    else
      var policy := v.policies[target.value];
      if policy.AsksForScopes() && (policy.kind.DelegatedScopes? ==> KindOf(v, token).Delegated?)
         && !(policy.permissions <= Members(token.scopes))
      then policy.permissions
      else {}
  }

  /** The union of the scope requirements that this token fails. */
  function Missing(v: Settings, target: Option<string>, token: AccessToken): set<string> {
    MissingGlobal(v, token) + MissingForTarget(v, target, token)
  }

  /** The scopes a verification leaves in a context. */
  function Judged(v: Settings, isMcpRequest: bool, target: Option<string>,
                  required: seq<string>, delegated: Option<AccessToken>): seq<string>
  {
    if delegated.None? || !isMcpRequest || Missing(v, target, delegated.value) == {} then required
    else Sorted(Missing(v, target, delegated.value))
  }

  /** A scope of the list that the token does not hold. */
  predicate LacksScope(scopes: seq<string>, token: AccessToken, g: string) {
    g in scopes && g !in token.scopes
  }

  /** The policy service denies the target for a missing permission, and its policy is about scopes. */
  predicate DeniedForScopes(v: Settings, target: Option<string>, token: AccessToken) {
    && target.Some? && target.value in v.policies
    && Authorize(v.policies, target.value, Some(PrincipalFromToken(v.provider, token))).reason == MissingPermission
    && (v.policies[target.value].kind == DelegatedScopes || v.policies[target.value].kind == OAuthScopes)
  }

  /** Whole requirements are asked for: every global scope when one is lacking, every scope of a failed policy. */
  lemma MissingIsUnion(v: Settings, target: Option<string>, token: AccessToken)
    ensures forall s :: s in Missing(v, target, token) <==>
      (|| (s in v.globalScopes && exists g :: LacksScope(v.globalScopes, token, g))
       || (DeniedForScopes(v, target, token) && s in v.policies[target.value].permissions))
    ensures Missing(v, target, token) != {} <==>
      (exists g :: LacksScope(v.globalScopes, token, g)) || DeniedForScopes(v, target, token)
    ensures Members(Sorted(Missing(v, target, token))) == Missing(v, target, token)
  {
    GlobalExactly(v, token);
    TargetExactly(v, target, token);
    hide MissingGlobal, MissingForTarget, LacksScope, DeniedForScopes;
  }

  lemma GlobalExactly(v: Settings, token: AccessToken)
    ensures forall s :: s in MissingGlobal(v, token) <==>
      s in v.globalScopes && exists g :: LacksScope(v.globalScopes, token, g)
    ensures MissingGlobal(v, token) != {} <==> exists g :: LacksScope(v.globalScopes, token, g)
  {
    assert forall s :: s in Members(v.globalScopes) <==> s in v.globalScopes;
    if g :| LacksScope(v.globalScopes, token, g) {
      assert g in Members(v.globalScopes) && g !in Members(token.scopes);
    }
    if !(Members(v.globalScopes) <= Members(token.scopes)) {
      var g :| g in Members(v.globalScopes) && g !in Members(token.scopes);
      assert LacksScope(v.globalScopes, token, g);
      assert g in MissingGlobal(v, token);
    }
  }

  lemma TargetExactly(v: Settings, target: Option<string>, token: AccessToken)
    ensures forall s :: s in MissingForTarget(v, target, token) <==>
      DeniedForScopes(v, target, token) && s in v.policies[target.value].permissions
    ensures MissingForTarget(v, target, token) != {} <==> DeniedForScopes(v, target, token)
  {
    var held := PrincipalFromToken(v.provider, token).scopes;
    assert held == Members(token.scopes);
    hide PrincipalFromToken;
    if DeniedForScopes(v, target, token) {
      var s :| s in v.policies[target.value].permissions && s !in held;
      assert s in MissingForTarget(v, target, token);
    }
  }

  // ---------------------------------------------------------------- the verifier

  class ProgressiveAuthorizationTokenVerifier {
    const settings: Settings

    constructor (policies: map<string, ToolPolicy>, provider: Provider, globalRequiredScopes: seq<string>)
      ensures settings.policies == policies && settings.provider == provider
      ensures StrictlySorted(settings.globalScopes) && Members(settings.globalScopes) == Members(globalRequiredScopes)
    {
      settings := Settings(policies, provider, Sorted(Members(globalRequiredScopes)));
    }

    /** `verify_token`, given what the wrapped verifier returned and the context of the current task. */
    method VerifyToken(delegated: Option<AccessToken>, context: ProgressiveAuthorizationContext?)
      returns (r: Option<AccessToken>)
      modifies context
      ensures var judged := delegated.Some? && context != null && context.isMcpRequest;
        r == if judged && Missing(settings, context.target, delegated.value) != {} then None else delegated
      ensures r.None? && delegated.Some? <==>
        && delegated.Some? && context != null && context.isMcpRequest
        && (|| (exists g :: LacksScope(settings.globalScopes, delegated.value, g))
            || DeniedForScopes(settings, context.target, delegated.value))
      ensures r.None? && delegated.Some? ==> forall s :: s in context.requiredScopes <==>
        (|| (s in settings.globalScopes && exists g :: LacksScope(settings.globalScopes, delegated.value, g))
         || (DeniedForScopes(settings, context.target, delegated.value)
             && s in settings.policies[context.target.value].permissions))
      ensures context == null
        || context.requiredScopes ==
           Judged(settings, context.isMcpRequest, context.target, old(context.requiredScopes), delegated)
    {
      if delegated.None? {
        return None;
      }
      var token := delegated.value;
      if context != null && context.isMcpRequest {
        MissingIsUnion(settings, context.target, token);
      }
      if context == null || !context.isMcpRequest {
        return delegated;
      }
      var challengeScopes: set<string> := {};
      if !(Members(settings.globalScopes) <= Members(token.scopes)) {
        challengeScopes := challengeScopes + Members(settings.globalScopes);
      }
      if context.target.Some? {
        var principal := PrincipalFromToken(settings.provider, token);
        var decision := Authorize(settings.policies, context.target.value, Some(principal));
        TargetChallenge(settings, context.target.value, token);
        if !decision.allowed && decision.reason == MissingPermission && decision.requiredScopes != [] {
          challengeScopes := challengeScopes + Members(decision.requiredScopes);
        }
      }
      assert challengeScopes == Missing(settings, context.target, token);
      if challengeScopes != {} {
        context.requiredScopes := Sorted(challengeScopes);
        return None;
      }
      return delegated;
    }
  }

  /** The policy service names exactly the scopes that are missing for the target. */
  lemma TargetChallenge(v: Settings, tool: string, token: AccessToken)
    ensures var d := Authorize(v.policies, tool, Some(PrincipalFromToken(v.provider, token)));
      MissingForTarget(v, Some(tool), token) == if AsksForMoreScopes(d) then Members(d.requiredScopes) else {}
  {
    hide Sorted;
    if tool in v.policies && v.policies[tool].AsksForScopes() {
      var permissions := v.policies[tool].permissions;
      assert Sorted(permissions) == [] ==> Members(Sorted(permissions)) == {};
    }
  }

  // ---------------------------------------------------------------- what a challenge is worth

  ghost predicate Grows(token: AccessToken, again: AccessToken) {
    Members(token.scopes) <= Members(again.scopes)
  }

  /**
   A challenge is exact: among the tokens that keep the principal's kind and its scopes, those
   that hold the challenged scopes are the ones that clear the verifier. So the least token
   that answers a challenge clears in one round trip, and nothing less does.
   */
  lemma ChallengeIsExact(v: Settings, target: Option<string>, token: AccessToken, again: AccessToken)
    requires Grows(token, again) && KindOf(v, again) == KindOf(v, token)
    ensures Missing(v, target, again) == {} <==> Missing(v, target, token) <= Members(again.scopes)
  {
    hide PrincipalFromToken;
    assert MissingGlobal(v, token) <= Members(again.scopes) <==> MissingGlobal(v, again) == {};
    assert MissingForTarget(v, target, token) <= Members(again.scopes) <==> MissingForTarget(v, target, again) == {};
  }

  /** The generic provider knows one kind only, so a challenge can always be answered in one round trip. */
  lemma GenericStepUp(v: Settings, target: Option<string>, token: AccessToken, again: AccessToken)
    requires v.provider.Generic? && Members(token.scopes) + Missing(v, target, token) <= Members(again.scopes)
    ensures Missing(v, target, again) == {}
  {
    ChallengeIsExact(v, target, token, again);
  }

  /**
   When the kind may change, a second challenge comes exactly when the new token has become
   delegated, the target asks for delegated scopes, and those are not all there.
   */
  lemma SecondChallenge(v: Settings, target: Option<string>, token: AccessToken, again: AccessToken)
    requires Members(token.scopes) + Missing(v, target, token) <= Members(again.scopes)
    ensures Missing(v, target, again) != {} <==>
      (&& target.Some? && target.value in v.policies && v.policies[target.value].kind.DelegatedScopes?
       && KindOf(v, token) != Delegated && KindOf(v, again) == Delegated
       && !(v.policies[target.value].permissions <= Members(again.scopes)))
  {
    hide PrincipalFromToken;
    assert MissingGlobal(v, again) == {};
  }

  /** A client that answers every challenge is never challenged three times, if a delegated token stays delegated. */
  lemma ThirdTryClears(v: Settings, target: Option<string>, token: AccessToken, again: AccessToken, third: AccessToken)
    requires Members(token.scopes) + Missing(v, target, token) <= Members(again.scopes)
    requires Members(again.scopes) + Missing(v, target, again) <= Members(third.scopes)
    requires KindOf(v, again) == Delegated ==> KindOf(v, third) == Delegated
    requires Missing(v, target, again) != {}
    ensures Missing(v, target, third) == {}
  {
    SecondChallenge(v, target, token, again);
    ChallengeIsExact(v, target, again, third);
  }

  /** For Entra the kind survives a token with more delegated scopes exactly when there were some before. */
  lemma KindSurvivesConsent(claims: map<string, Json>, scp: string)
    requires Words(scp) != []
    ensures EntraKind(claims["scp" := JString(scp)]) == EntraKind(claims) <==> HasDelegatedScopes(claims)
  {
    hide Words;
  }

  /** A token as the Entra verifier hands it over, from claims of the configured tenant. */
  ghost predicate DeliveredByEntra(token: AccessToken, raw: AccessToken, tenantId: string, resource: string) {
    raw.scopes == ScopesOf(raw.claims) && EntraVerify(Some(raw), tenantId, resource) == Some(token)
  }

  /** Settings as the server builds them for Entra from policies and global scopes with short names. */
  ghost predicate BuiltForEntra(v: Settings, registry: map<string, ToolPolicy>, globals: seq<string>,
          resource: string)
  {
    && v.provider == Entra && v.policies.Keys == registry.Keys && AgreesWith(v.policies, registry, resource)
    && v.globalScopes == QualifyScopes(globals, resource)
  }

  const EXAMPLE_TENANT := "tenant"
  const EXAMPLE_RESOURCE := "api://r"

  function ExampleClaims(): map<string, Json> {
    map["tid" := JString(EXAMPLE_TENANT)]
  }

  function ConsentedClaims(): map<string, Json> {
    ExampleClaims()["scp" := JString("g")]
  }

  function ExampleToken(claims: map<string, Json>, scopes: seq<string>): AccessToken {
    AccessToken("client", None, scopes, claims)
  }

  const EXAMPLE_SETTINGS := Settings(
    map["whoami" := ToolPolicy(Authenticated, {}),
        "health" := ToolPolicy(DelegatedScopes, {"api://r/mcp:tools:health"})],
    Entra,
    ["api://r/g"])

  /**
   The second challenge does happen, with the default policies of an Entra server that asks for
   one global scope: a token of the right tenant without delegated scopes calls `health`, is
   challenged for the global scope only, obtains exactly that, and is challenged again.
   */
  lemma SecondChallengeHappens()
    ensures var v, token := EXAMPLE_SETTINGS, ExampleToken(ExampleClaims(), []);
      var again := ExampleToken(ConsentedClaims(), ["api://r/g"]);
      && BuiltForEntra(v, DefaultPolicies(Entra), ["g"], EXAMPLE_RESOURCE)
      && DeliveredByEntra(token, ExampleToken(ExampleClaims(), []), EXAMPLE_TENANT, EXAMPLE_RESOURCE)
      && DeliveredByEntra(again, ExampleToken(ConsentedClaims(), ["g"]), EXAMPLE_TENANT, EXAMPLE_RESOURCE)
      && Missing(v, Some("health"), token) == {"api://r/g"}
      && Members(again.scopes) == Members(token.scopes) + Missing(v, Some("health"), token)
      && Missing(v, Some("health"), again) == {"api://r/mcp:tools:health"}
  {
    ExampleIsBuilt();
    ExampleScopes();
    ExampleKinds();
    ExampleMissing(ExampleToken(ExampleClaims(), []), ExampleToken(ConsentedClaims(), ["api://r/g"]));
    hide Missing, BuiltForEntra, QualifyScopes, ScopesOf, EntraKind;
  }

  lemma ExampleIsBuilt()
    ensures BuiltForEntra(EXAMPLE_SETTINGS, DefaultPolicies(Entra), ["g"], EXAMPLE_RESOURCE)
  {
    hide QualifiedPolicy, QualifyScopes, ScopesOf;
    ExamplePolicy();
    ExampleScopes();
    OtherPoliciesStay(ToolPolicy(Authenticated, {}), EXAMPLE_RESOURCE);
    var policies, registry := EXAMPLE_SETTINGS.policies, DefaultPolicies(Entra);
    assert "whoami"[0] != "health"[0];
    forall tool | tool in policies
      ensures tool in registry && QualifiedPolicy(registry[tool], EXAMPLE_RESOURCE) == Ok(policies[tool])
    {
      assert tool == "whoami" || tool == "health";
    }
  }

  lemma ExampleMissing(token: AccessToken, again: AccessToken)
    requires EntraKind(token.claims) == Unknown && token.scopes == []
    requires EntraKind(again.claims) == Delegated && again.scopes == ["api://r/g"]
    ensures Missing(EXAMPLE_SETTINGS, Some("health"), token) == {"api://r/g"}
    ensures Members(again.scopes) == {"api://r/g"} && Members(token.scopes) == {}
    ensures Missing(EXAMPLE_SETTINGS, Some("health"), again) == {"api://r/mcp:tools:health"}
  {
    hide EntraKind;
    var v := EXAMPLE_SETTINGS;
    assert Members(["api://r/g"]) == {"api://r/g"} && Members(token.scopes) == {};
    assert "api://r/g" !in Members(token.scopes) && "api://r/mcp:tools:health" !in Members(again.scopes);
    assert MissingForTarget(v, Some("health"), token) == {};
    assert MissingGlobal(v, again) == {};
  }

  lemma ExampleQualified(name: string)
    requires name != "" && forall i :: 0 <= i < |name| ==> name[i] != '/'
    ensures QualifyScopes([name], EXAMPLE_RESOURCE) == ["api://r/" + name]
  {
    ShortWithoutSlash(name);
    SingleQualified(name, EXAMPLE_RESOURCE);
    assert Prefix(EXAMPLE_RESOURCE) == "api://r/";
  }

  lemma ExamplePolicy()
    ensures QualifiedPolicy(ToolPolicy(DelegatedScopes, {HEALTH_SCOPE}), EXAMPLE_RESOURCE)
      == Ok(ToolPolicy(DelegatedScopes, {"api://r/mcp:tools:health"}))
  {
    hide Sorted, QualifyScopes, IsScopeToken, MakePolicy;
    var names, q := [HEALTH_SCOPE], "api://r/mcp:tools:health";
    assert Members(names) == {HEALTH_SCOPE} && Members([q]) - {""} == {q};
    SortedIsUnique(Sorted({HEALTH_SCOPE}), names);
    ExampleQualified(HEALTH_SCOPE);
    assert "api://r/" + HEALTH_SCOPE == q;
    ExampleIsToken();
    assert q in [q];
    MadePolicies(DelegatedScopes, [q]);
  }

  lemma ExampleIsToken()
    ensures IsScopeToken("api://r/mcp:tools:health")
  {
  }

  lemma ExampleScopes()
    ensures QualifyScopes(["g"], EXAMPLE_RESOURCE) == ["api://r/g"] && QualifyScopes([], EXAMPLE_RESOURCE) == []
    ensures ScopesOf(ExampleClaims()) == [] && ScopesOf(ConsentedClaims()) == ["g"]
  {
    ExampleQualified("g");
    assert "api://r/" + "g" == "api://r/g";
    WordsOfFirst("g", "");
    assert "g" + "" == "g";
    assert Members(["g"]) == {"g"};
    SortedIsUnique(ScopesOf(ConsentedClaims()), ["g"]);
    SortedIsUnique(ScopesOf(ExampleClaims()), []);
    SortedIsUnique(QualifyScopes([], EXAMPLE_RESOURCE), []);
  }

  lemma ExampleKinds()
    ensures EntraKind(ExampleClaims()) == Unknown && EntraKind(ConsentedClaims()) == Delegated
  {
    WordsOfFirst("g", "");
    assert "g" + "" == "g";
  }

  /** The target adds to a challenge exactly when the caller is denied and more scopes would let it in. */
  lemma OnlyUsefulChallenges(v: Settings, tool: string, token: AccessToken)
    ensures var p := PrincipalFromToken(v.provider, token);
      MissingForTarget(v, Some(tool), token) != {} <==>
      (&& !Authorize(v.policies, tool, Some(p)).allowed
       && exists more :: Authorize(v.policies, tool, Some(WithScopes(p, more))).allowed)
  {
    var p := PrincipalFromToken(v.provider, token);
    var d := Authorize(v.policies, tool, Some(p));
    hide PrincipalFromToken, Authorize, MissingForTarget;
    TargetChallenge(v, tool, token);
    AskingIsUseful(v.policies, tool, p);
    if d.requiredScopes != [] {
      assert d.requiredScopes[0] in Members(d.requiredScopes);
    }
  }
}

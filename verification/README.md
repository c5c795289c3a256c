# Verified model of the MCP resource server

This project models the protocols and text transformations of an OAuth 2.1 resource server
for MCP and proves properties of them over all inputs, all runs and all interleavings.
`dafny verify dfyconfig.toml` checks everything.

**Key and metadata caching.** `LockedTtlCache` is the protocol shared by the JWKS resolver and
the discovery client: a TTL cache read without a lock, a second read and a fetch under it, and a
forced refresh throttled by a per-URI cooldown. Tasks with program counters, a monotone clock, a
lock holder and a provider whose document changes over time interleave at every suspension
point; each clock reading is a parameter of its step. `CacheInvariants` holds the inductive
invariant, `CacheTheorems` what follows for every run, `JwksKeyResolver` and `OidcDiscovery` the
objects whose methods are the steps, and the theorems for real documents.

**Progressive authorization.** `ScopeClaims` and `SortedScopes` hold scope splitting, sorting and
qualification; `ToolAuthorization` the policies and the registry built from them; `McpPrincipal` and
`TokenVerifier` the facts read from a token and the verifier that decides about a challenge;
`McpToolAuthorization` the second decision point and its agreement with the first;
`ChallengeHeader` the header and a client's reading of it; `ProgressiveHttp` the rewriting of a
response stream; `RequestIsolation` concurrent requests that share contexts through a task-local
variable. The SDK is one assumption: a verifier that returns nothing ends the request without
dispatch, and a returned token is attached to exactly that request.

**Transport.** `HttpEnvelope` and `HttpAdmission` are the header checks and the concurrency counter,
the latter interleaved at single reads and writes; `OidcNetworkPolicy` and `TransportPool` the
outbound trust boundary.

**Logging.** `BearerRedaction`, `QueryRedaction` and `LogRedaction` are the two pattern rewrites, their
composition, and its lifting to nested values. Which characters count as word characters is a
parameter of every theorem.

**Release evidence.** `SbomComponents`, `ArchivePaths`, `ChecksumManifest` and `VulnerabilityPolicy` are the
worklist, the path check, the manifest written and read in two steps, and the dated exceptions.

`Common`, `Characters`, `Ordering` and `Permutations` are shared.
Lemmas named `...Exactly` state a decision in terms of its inputs alone.

## Results that differ from the documentation

- `docs/adr/0006-progressive-oauth-scope-step-up.md` promises a single step-up round trip. For Entra
  this fails in one family of requests, stated exactly by `TokenVerifier.SecondChallenge`: a token
  without delegated scopes is challenged for the global scopes only, because its kind is not
  delegated; the new token is delegated, and only now the tool's own scopes are asked for.
  `SecondChallengeHappens` is such a request. For every other request, and always for the generic
  provider, one round trip is enough.
- The same document calls a challenge misleading when no scope can help. The target of a request never
  raises one, but the global scopes are asked for without looking at the target: a caller without
  them is challenged for a tool that has no policy, or needs another kind of principal or a role
  (`McpToolAuthorization.HopelessChallenges`, `HopelessChallengeHappens`).
- `qualify_scopes` promises that a permission for a different resource is never rewritten into an
  allowed one. It is not rewritten, but it can be one: with resource `api://r` the policy name `sub/x` is
  met by the scope `x` of resource `api://r/sub`. This happens exactly for nested resources, and
  never for names without a slash under different prefixes (`ScopeClaims.OtherResourcesGrantNothing`,
  `NestedResourceGrants`, `PlainNamesStayApart`).
- The refresh cooldown bounds forced refreshes of a live document only. Fills that fail are not
  throttled (`CacheTheorems.FailedFillsAreUnthrottled`).
- `docs/adr/0007-harden-oidc-discovery-jwks-trust-chain.md` accepts that a new key is rejected for at most
  the cooldown. The stamp is written before the fetch, so a refresh that fails spends the cooldown
  too: `CacheTheorems.FailedRefreshHidesRotation` is such a run, and `LateMissExactly` says that, unless
  its own fetch fails, a resolve begun a cooldown after the publication misses the key in no other way.
- `qualify_scopes` is idempotent only for a resource that is a URI after its trailing slashes are
  stripped (`ScopeClaims.IdempotentOnlyForUris`).
- The response rewriter drops bodies only: a message of another type that follows a replaced start,
  such as trailers, still reaches the client (`ProgressiveHttp.ChallengeIsWholeResponse`).

## Model

| member | source | states |
|---|---|---|
| CacheTheorems.SingleFlight | src/mcp_server_auth_template/adapters/jwks_key_resolver.py:110-122 | In every interleaving at most one task is fetching, and the fetches of a whole run never overlap in time. |
| CacheTheorems.CacheHoldsLatest | src/mcp_server_auth_template/adapters/jwks_key_resolver.py:120-122 | A cached entry is the result of the last successful fetch for its URI and expires one lifetime after that fetch ended. |
| CacheTheorems.NoStaleOverwrite | src/mcp_server_auth_template/adapters/jwks_key_resolver.py:120-121 | A document that replaces a cached one was requested after the replaced one had arrived. |
| CacheTheorems.ReturnedIsGenuine | src/mcp_server_auth_template/adapters/jwks_key_resolver.py:88-97 | What a lookup found, or searched in vain, was served for that URI inside a recorded fetch and was unexpired when read; a hit satisfies the request and a miss does not. |
| CacheTheorems.RotationIsBounded | src/mcp_server_auth_template/adapters/jwks_key_resolver.py:93-122 | If a key is published from p on and fetches begun from p on succeed, every resolve begun at p plus the cooldown or later finds it unless cancelled. |
| CacheTheorems.RotationBoundIsTight | src/mcp_server_auth_template/adapters/jwks_key_resolver.py:114-119 | However little earlier a resolve starts, there is a run with no failed fetch in which it misses the key. |
| CacheTheorems.LateMissExactly | src/mcp_server_auth_template/adapters/jwks_key_resolver.py:93-119 | For a resolve begun a cooldown after the publication, with no assumption on fetches: its forced lookup misses if and only if a live document lacks the key and a refresh begun less than a cooldown before has failed. |
| CacheTheorems.LateMissOnlyThere | src/mcp_server_auth_template/adapters/jwks_key_resolver.py:88-97 | A late resolve can miss at its forced lookup only, never through a fetch of its own. |
| CacheTheorems.LateMissNeedsFailure | src/mcp_server_auth_template/adapters/jwks_key_resolver.py:93-119 | Every late miss of a run has in the log a refresh of that URI that began after the publication, failed, and was less than a cooldown old. |
| CacheTheorems.FailedRefreshHidesRotation | src/mcp_server_auth_template/adapters/jwks_key_resolver.py:114-120 | A run in which a failed refresh makes a resolve miss a key that had been published for a whole cooldown. |
| CacheTheorems.RemovalIsBounded | src/mcp_server_auth_template/adapters/jwks_key_resolver.py:105-122 | A key withdrawn at r is not returned once a lifetime has passed since the fetch of its URI in flight at r ended. |
| CacheTheorems.RefreshRate | src/mcp_server_auth_template/adapters/jwks_key_resolver.py:114-119 | Any n forced refreshes of one URI, failed and cancelled ones included, span at least n-1 cooldowns. |
| CacheTheorems.FillRate | src/mcp_server_auth_template/adapters/jwks_key_resolver.py:105-122 | With no more URIs than cache slots, any m successful fills of one URI span at least m-1 lifetimes. |
| CacheTheorems.FailedFillsAreUnthrottled | src/mcp_server_auth_template/adapters/jwks_key_resolver.py:120 | No bound covers failing fills: any number of them can happen at one instant. |
| CacheTheorems.AtMostTwoFetches | src/mcp_server_auth_template/adapters/jwks_key_resolver.py:88-93 | One resolve issues at most two fetches. |
| CacheTheorems.QueuedLookupFetchesNothing | src/mcp_server_auth_template/adapters/jwks_key_resolver.py:110-113 | A plain lookup granted the lock while a success for its URI is unexpired and still cached issues no fetch and frees the lock. |
| CacheTheorems.FetchedStaysCached | src/mcp_server_auth_template/adapters/jwks_key_resolver.py:58-62 | With no more URIs than cache slots every document once fetched still has its entry. |
| JwksKeyResolver.Resolver.Cached | src/mcp_server_auth_template/adapters/jwks_key_resolver.py:105-108 | The unlocked read returns an entry strictly before its expiry and nothing otherwise, as the protocol step does. |
| JwksKeyResolver.Resolver.ReuseOrIssue | src/mcp_server_auth_template/adapters/jwks_key_resolver.py:110-119 | The locked section decides as the protocol step does: a fill exactly without a live entry, a refresh exactly when one is forced over a live entry a cooldown after the last stamp, which is then written before the fetch; else the live entry. |
| JwksKeyResolver.Resolver.Complete | src/mcp_server_auth_template/adapters/jwks_key_resolver.py:120-140 | A fetched document decodes exactly when its keys are an array within the limit without a repeated kid; it is stored as its signing keys for one lifetime, and a failure leaves the cache as it was. |
| JwksKeyResolver.IndexKeys | src/mcp_server_auth_template/adapters/jwks_key_resolver.py:142-163 | Fails exactly when two entries share a well-formed kid; otherwise a key stands under a kid exactly when the document holds it under this kid, with a use that is absent, null or sig and operations that are absent, null or include verify. |
| JwksKeyResolver.IndexIsExact | src/mcp_server_auth_template/adapters/jwks_key_resolver.py:142-163 | Without a repeated kid the fold over the document is the set of offered keys. |
| JwksKeyResolver.IndexPermuted | src/mcp_server_auth_template/adapters/jwks_key_resolver.py:142-163 | Reordering a document changes neither the failure nor the index. |
| JwksKeyResolver.ChosenExactly | src/mcp_server_auth_template/adapters/jwks_key_resolver.py:165-188 | A key is chosen exactly when it stands under the kid, names no other algorithm, is RSA for RS256 or P-256 for ES256, and the library imports it. |
| JwksKeyResolver.RequestedExactly | src/mcp_server_auth_template/adapters/jwks_key_resolver.py:72-87 | A token header is followed exactly with a kid of 1 to 256 characters, RS256 or ES256, and a trusted JWKS URI. |
| JwksKeyResolver.PublishedIsCompatible | src/mcp_server_auth_template/adapters/jwks_key_resolver.py:165-188 | A key that the document offers for the requested kid and algorithm is found in its index. |
| JwksKeyResolver.CompatibleIsPublished | src/mcp_server_auth_template/adapters/jwks_key_resolver.py:165-188 | Only a key that the document offers is found. |
| JwksKeyResolver.ResolvedKeyIsBound | src/mcp_server_auth_template/adapters/jwks_key_resolver.py:77-91 | A key handed out for a token header is an entry under the header's kid, of the key type of its algorithm, and is handed out for no other accepted algorithm. |
| JwksKeyResolver.RotatedKeyIsFound | src/mcp_server_auth_template/adapters/jwks_key_resolver.py:65-122 | The rotation bound for real JWKS documents: a usable matching key published throughout is returned a cooldown later. |
| JwksKeyResolver.RemovedKeyIsGone | src/mcp_server_auth_template/adapters/jwks_key_resolver.py:65-122 | The removal bound for real JWKS documents, with the latency of the fetch in flight at the removal. |
| OidcDiscovery.Client.Cached | src/mcp_server_auth_template/adapters/oidc_discovery.py:43-54 | Another issuer is refused before the cache is read; a hit is live and trusted. |
| OidcDiscovery.Client.Complete | src/mcp_server_auth_template/adapters/oidc_discovery.py:55-80 | Metadata is stored for one lifetime exactly when the document names the configured issuer, character by character, and a JWKS URI of a trusted origin; the class invariant is kept. |
| OidcDiscovery.AdmittedExactly | src/mcp_server_auth_template/adapters/oidc_discovery.py:67-78 | What a document yields, read off its two members and the trust set. |
| OidcDiscovery.OnlyTrustedMetadata | src/mcp_server_auth_template/adapters/oidc_discovery.py:43-80 | In every run everything cached or returned carries the configured issuer and a JWKS URI of a trusted origin, and no resolve ends in a miss. |
| OidcDiscovery.EveryFetchIsAFill | src/mcp_server_auth_template/adapters/oidc_discovery.py:47-57 | No discovery lookup is ever forced and no fetch is a refresh. |
| OidcDiscovery.DiscoveryRate | src/mcp_server_auth_template/adapters/oidc_discovery.py:43-57 | Any m successful discovery fetches span at least m-1 lifetimes, with no assumption on the cache size. |
| ScopeClaims.ScopesFromClaims | src/mcp_server_auth_template/domain/scope_claims.py:15-33 | The sorted, duplicate-free union of the words of both scope claims and of nothing else. |
| ScopeClaims.OnlyScopeClaimsAreScopes | src/mcp_server_auth_template/domain/scope_claims.py:3-9 | Whatever another claim holds, roles included, the scopes are the same. |
| ScopeClaims.RolesFromClaims | src/mcp_server_auth_template/domain/scope_claims.py:36-41 | The sorted non-empty string members of a roles array. |
| ScopeClaims.WordsOfJoined | src/mcp_server_auth_template/domain/scope_claims.py:25-31 | Splitting at whitespace undoes joining by spaces, for any list of words. |
| ScopeClaims.QualifyScopes | src/mcp_server_auth_template/domain/scope_claims.py:44-55 | Strictly sorted; its members are the qualified forms of the non-empty scopes. |
| ScopeClaims.QualifiedExactly | src/mcp_server_auth_template/domain/scope_claims.py:53-54 | A scope with a scheme separator at some position stays; any other gets the slash-stripped resource and one slash in front. |
| ScopeClaims.IdempotentOnlyForUris | src/mcp_server_auth_template/domain/scope_claims.py:53-55 | Qualifying twice equals qualifying once, for all scope lists, if and only if the slash-stripped resource contains the scheme separator. |
| ScopeClaims.QualificationKeepsGrants | src/mcp_server_auth_template/domain/scope_claims.py:44-55 | For policies of short and URI names, the qualified policy is a subset of the qualified token exactly when the token carries each name, as it is or in its other form for this resource. |
| ScopeClaims.OtherResourcesGrantNothing | src/mcp_server_auth_template/domain/scope_claims.py:44-55 | For all short names of two resources, a token scope qualified for the other one never satisfies a policy name of this one, if and only if neither resource is nested in the other. |
| ScopeClaims.NamesMeetWhenNested | src/mcp_server_auth_template/domain/scope_claims.py:53-54 | Two resources qualify some pair of short names alike exactly when one prefix extends the other by what could begin a short name. |
| ScopeClaims.NestedResourceGrants | src/mcp_server_auth_template/domain/scope_claims.py:44-55 | A scope qualified for api://r/sub that satisfies a short policy name of api://r. |
| ScopeClaims.PlainNamesStayApart | src/mcp_server_auth_template/domain/scope_claims.py:53-54 | Names without a slash are qualified alike only as the same name under the same prefix. |
| ToolAuthorization.MadePolicies | src/mcp_server_auth_template/application/tool_authorization.py:36-66 | A policy constructor succeeds exactly on lists with a non-empty value whose scopes are RFC 6749 tokens, and holds exactly the non-empty values. |
| ToolAuthorization.ScopeTokensExactly | src/mcp_server_auth_template/application/tool_authorization.py:152-158 | A scope token is printable ASCII without space, quote and backslash. |
| ToolAuthorization.DefaultDeny | src/mcp_server_auth_template/application/tool_authorization.py:84-134 | A tool is open exactly to authenticated callers who satisfy its own policy; each of the five reasons is given exactly when it applies; the named scopes are the sorted ones of a scope policy and none otherwise. |
| ToolAuthorization.AuthorizeIsMonotone | src/mcp_server_auth_template/application/tool_authorization.py:84-134 | More scopes and more roles never close a tool. |
| ToolAuthorization.AskingIsUseful | src/mcp_server_auth_template/application/tool_authorization.py:119-134 | A denial asks for scopes exactly when some extension of the caller's scopes would be allowed, and names the least one. |
| ToolAuthorization.BuildToolAuthorizer | src/mcp_server_auth_template/entrypoints/mcp_server.py:143-179 | The registry keeps its tools; for Entra each policy is replaced by its qualified form, and building fails exactly when one qualified form is refused; the policies used when none are supplied are fixed for both providers. |
| ToolAuthorization.QualifiedPermissions | src/mcp_server_auth_template/entrypoints/mcp_server.py:169-179 | Qualifying keeps a policy's kind, replaces scopes by their qualified names and leaves other permissions alone. |
| McpPrincipal.NeverDelegatedAndApplication | src/mcp_server_auth_template/adapters/mcp_principal.py:52-64 | No token satisfies both a delegated-scope policy and an application-role policy. |
| McpPrincipal.RolesDecideNoScopePolicy | src/mcp_server_auth_template/adapters/mcp_principal.py:27-49 | Changing the roles claim changes no decision of a scope policy. |
| McpPrincipal.EntraKindExactly | src/mcp_server_auth_template/adapters/mcp_principal.py:52-64 | Delegated is a scp claim with a non-space character and no app marker, application the marker and no such claim, unknown everything else. |
| McpPrincipal.PrincipalExactly | src/mcp_server_auth_template/adapters/mcp_principal.py:27-49 | Every field of the principal: scopes from the token alone, kind and roles from the claims for Entra only. |
| McpPrincipal.EntraPolicyMeetsToken | src/mcp_server_auth_template/adapters/entra_token_verifier.py:51-69 | A qualified policy of any scopes is met by a verified token exactly when the raw token is of this tenant, is delegated where required, and carried each name in either form. |
| TokenVerifier.ProgressiveAuthorizationTokenVerifier.constructor | src/mcp_server_auth_template/adapters/progressive_token_verifier.py:31-43 | The global scopes are kept sorted and without duplicates. |
| TokenVerifier.ProgressiveAuthorizationTokenVerifier.VerifyToken | src/mcp_server_auth_template/adapters/progressive_token_verifier.py:45-83 | A token is withheld exactly when, on an MCP request, a global scope is lacking or the target is denied for missing scopes; the context then holds all global scopes in the first case and all of the policy in the second, sorted, and is otherwise untouched. |
| TokenVerifier.MissingIsUnion | src/mcp_server_auth_template/adapters/progressive_token_verifier.py:60-79 | Whole requirements are asked for: every global scope when one is lacking, every scope of a policy that denies the caller for a missing permission. |
| TokenVerifier.TargetChallenge | src/mcp_server_auth_template/adapters/progressive_token_verifier.py:64-74 | The policy service names exactly the scopes the target is missing. |
| TokenVerifier.ChallengeIsExact | src/mcp_server_auth_template/adapters/progressive_token_verifier.py:60-83 | Among tokens that keep kind and scopes, those that hold the challenged scopes are exactly the ones that clear. |
| TokenVerifier.GenericStepUp | src/mcp_server_auth_template/adapters/progressive_token_verifier.py:60-83 | For the generic provider every challenge is answered in one round trip. |
| TokenVerifier.SecondChallenge | src/mcp_server_auth_template/adapters/progressive_token_verifier.py:60-83 | After the challenged scopes were added, a second challenge comes exactly when the token became delegated and the target's delegated scopes are not all there. |
| TokenVerifier.ThirdTryClears | src/mcp_server_auth_template/adapters/progressive_token_verifier.py:60-83 | A client that answers every challenge, and whose token stays delegated once it is, is never challenged three times. |
| TokenVerifier.SecondChallengeHappens | src/mcp_server_auth_template/adapters/progressive_token_verifier.py:60-83 | A request to a server with the default Entra policies, with tokens as the Entra verifier delivers them, that is challenged twice. |
| TokenVerifier.KindSurvivesConsent | src/mcp_server_auth_template/adapters/mcp_principal.py:52-64 | Consent to more delegated scopes keeps the Entra kind exactly when the token had delegated scopes before. |
| TokenVerifier.OnlyUsefulChallenges | src/mcp_server_auth_template/adapters/progressive_token_verifier.py:64-74 | The target adds to a challenge exactly when the caller is denied and more scopes would let it in. |
| McpToolAuthorization.HandlerNeedsAuthorization | src/mcp_server_auth_template/adapters/mcp_tool_authorization.py:29-62 | For any headers, the handler of a tool is reached only if the policy allows this request's own principal that tool. |
| McpToolAuthorization.RespondsExactly | src/mcp_server_auth_template/adapters/mcp_tool_authorization.py:29-62 | Other verbs and calls that name no tool get the handler's answer, lists are filtered, and a named call gets the handler's answer if its caller may use the tool and a denial if not. |
| McpToolAuthorization.DecisionPointsAgree | src/mcp_server_auth_template/adapters/mcp_tool_authorization.py:29-62 | With equal header and body names and a token that clears, dispatch denies exactly for a missing policy, a wrong kind or a missing application role. |
| McpToolAuthorization.ChallengesReplaceDenials | src/mcp_server_auth_template/adapters/mcp_tool_authorization.py:47-62 | A call whose target adds to a challenge would have been denied in dispatch for a missing permission. |
| McpToolAuthorization.HopelessChallenges | src/mcp_server_auth_template/adapters/progressive_token_verifier.py:60-83 | A call that no added scopes could open is challenged exactly when a global scope is missing and the tool is out of reach for a missing policy, a wrong kind or a missing role. |
| McpToolAuthorization.HopelessChallengeHappens | src/mcp_server_auth_template/adapters/progressive_token_verifier.py:60-79 | A concrete request of that kind. |
| McpToolAuthorization.ListedIffCallable | src/mcp_server_auth_template/adapters/mcp_tool_authorization.py:64-91 | A listed entry keeps its multiplicity exactly when calling it would pass, is dropped otherwise, and all other members of the result stay. |
| McpToolAuthorization.ListsAreFilteredInOrder | src/mcp_server_auth_template/adapters/mcp_tool_authorization.py:74-79 | A typed list is filtered tool by tool in its own order, and keeps a tool exactly when its reader may call it. |
| McpToolAuthorization.WiresAreFilteredInOrder | src/mcp_server_auth_template/adapters/mcp_tool_authorization.py:80-90 | A wire list is filtered part by part in its own order, and every other member stays. |
| McpToolAuthorization.EntriesMayBeCalled | src/mcp_server_auth_template/adapters/mcp_tool_authorization.py:83-90 | An entry of a wire list stays exactly when it is an object with a text name that its reader may call. |
| McpToolAuthorization.ListsShowOnlyVisible | src/mcp_server_auth_template/adapters/mcp_tool_authorization.py:64-91 | A list answer shows only tools its reader may call, and only ones the handler listed; unknown shapes show nothing. |
| ChallengeHeader.ParamsRoundTrip | src/mcp_server_auth_template/adapters/progressive_auth_http.py:141-145 | Reading undoes printing for every list of parameters that needs no escape. |
| ChallengeHeader.ChallengeIsWritten | src/mcp_server_auth_template/adapters/progressive_auth_http.py:140-145 | The header value piece by piece. |
| ChallengeHeader.ChallengeRoundTrip | src/mcp_server_auth_template/adapters/progressive_auth_http.py:140-145 | For every set of valid scope tokens the printed challenge parses back to the error code, exactly the sorted scopes, and the metadata URL. |
| ChallengeHeader.ChallengesAreDistinct | src/mcp_server_auth_template/adapters/progressive_auth_http.py:140-145 | Different scope sets are never printed alike. |
| ChallengeHeader.EncodableExactly | src/mcp_server_auth_template/adapters/progressive_auth_http.py:141-145 | The header can be encoded exactly when every scope and the metadata URL are ASCII. |
| ChallengeHeader.ChallengesAreReadable | src/mcp_server_auth_template/application/tool_authorization.py:144-158 | Every challenge of the verifier reads back, and can be encoded if and only if the metadata URL is ASCII; constructed tool policies give the precondition, global scopes must be valid tokens. |
| ProgressiveHttp.DecimalRoundTrip | src/mcp_server_auth_template/adapters/progressive_auth_http.py:153 | The printed length reads back as the number. |
| ProgressiveHttp.ReplacementIsWellFramed | src/mcp_server_auth_template/adapters/progressive_auth_http.py:147-159 | The replacement is one start and one body whose length is the announced one. |
| ProgressiveHttp.ReplacementRefusesFor | src/mcp_server_auth_template/adapters/progressive_auth_http.py:127-159 | For sorted valid scopes the replacement is a 403 whose only www-authenticate header a client reads back to exactly these scopes. |
| ProgressiveHttp.ScopeChallengeSender.Send | src/mcp_server_auth_template/adapters/progressive_auth_http.py:93-114 | For a start with recorded scopes it appends one 403 start and its body of 109 characters, with exactly one header of each of four names, the challenge among them, from which a client reads sorted valid scopes back; bodies after that are dropped, anything else is passed on; it raises exactly for a challenge that is not ASCII and then changes nothing. |
| ProgressiveHttp.ScopesAreOwn | src/mcp_server_auth_template/adapters/progressive_auth_http.py:85-90 | A context holds nothing, or scopes that a verification of this very request recorded. |
| ProgressiveHttp.StreamIsRewritten | src/mcp_server_auth_template/adapters/progressive_auth_http.py:93-114 | At any moment of a stream that starts once: unchanged if no scopes were recorded before the start, else one challenge in its place, no body, everything else kept; a challenge that cannot be encoded is not sent, nor is the start. |
| ProgressiveHttp.ChallengeIsWholeResponse | src/mcp_server_auth_template/adapters/progressive_auth_http.py:111-114 | A client that was sent a challenge receives exactly it if and only if the application sent nothing but bodies after its start. |
| RequestIsolation.RequestsAreIsolated | src/mcp_server_auth_template/adapters/progressive_auth_http.py:79-119 | In every interleaving of requests, nested ones and ones entered in tasks of other requests included, the state and output of a request are those of its own share of the run alone. |
| RequestIsolation.SameShareSameOutput | src/mcp_server_auth_template/adapters/progressive_auth_http.py:79-119 | Two runs in which a request takes the same part give it the same output. |
| RequestIsolation.ClientSees | src/mcp_server_auth_template/adapters/progressive_auth_http.py:79-159 | In every run a start/body response reaches the client unchanged or as one challenge for scopes this request's verification recorded; without its start if that challenge is not ASCII. |
| RequestIsolation.ClientSeesVerdict | src/mcp_server_auth_template/adapters/progressive_auth_http.py:79-159 | In every run, a request that is verified once and then answered gets its answer when nothing is missing, and otherwise one 403 whose single challenge a client reads back to exactly the sorted missing scopes; without a start if that cannot be encoded. |
| RequestIsolation.ContextIsRestored | src/mcp_server_auth_template/adapters/progressive_auth_http.py:116-119 | Over a whole stay, whatever happened meanwhile, the task is back under the binding it had before the request entered, and leaving touches no other task's. |
| HttpEnvelope.ValidateEnvelope | src/mcp_server_auth_template/adapters/http_transport_security.py:122-153 | Each rejection exactly under its own condition, the earlier ones first: the number of headers, the length of the header block as written, two headers that spell one of ten names in any case, both framing headers. |
| HttpEnvelope.VerdictPermuted | src/mcp_server_auth_template/adapters/http_transport_security.py:122-153 | Reordering the headers does not change the verdict. |
| HttpEnvelope.AcceptedHeadersAreSingle | src/mcp_server_auth_template/adapters/http_transport_security.py:133-148 | An accepted envelope carries each critical header at most once. |
| HttpEnvelope.AcceptedHeaderIsRead | src/mcp_server_auth_template/adapters/progressive_auth_http.py:178-186 | In an accepted envelope every ASCII critical header is the one that is read. |
| HttpEnvelope.SingleHeaderExactly | src/mcp_server_auth_template/adapters/progressive_auth_http.py:178-186 | A header is read exactly when one header alone spells the name in any case and its value is ASCII. |
| HttpEnvelope.TargetExactly | src/mcp_server_auth_template/adapters/progressive_auth_http.py:162-201 | A request names a tool exactly when it is a POST whose version, method and name headers stand there once each with the known values, and the name decodes, from the sentinel form or plainly, to that non-empty tool. |
| HttpEnvelope.TargetPermuted | src/mcp_server_auth_template/adapters/progressive_auth_http.py:162-201 | The routing target does not depend on header order. |
| HttpAdmission.Admission.TryAdmit | src/mcp_server_auth_template/adapters/http_transport_security.py:111-116 | Admits exactly while a slot is free, adds the request to the occupants, and keeps the counter equal to their number. |
| HttpAdmission.Admission.Release | src/mcp_server_auth_template/adapters/http_transport_security.py:118-120 | Removes exactly this occupant, keeps the counter equal to the number of occupants, and leaves room for the next request. |
| HttpAdmission.Admission.Dispatch | src/mcp_server_auth_template/adapters/http_transport_security.py:64-104 | Each route has its exact condition, so a request contends exactly when it is HTTP, has a clean envelope, no operational path, an allowed host, and POST on the MCP path; only an admitted contender becomes an occupant. |
| HttpAdmission.CounterIsExact | src/mcp_server_auth_template/adapters/http_transport_security.py:106-120 | With every single read and write interleaved, the counter equals the number of occupied slots and stays within its bounds. |
| HttpAdmission.DrainsToZero | src/mcp_server_auth_template/adapters/http_transport_security.py:106-120 | When no request is on its way, however the applications ended, the counter is zero and the lock free. |
| HttpAdmission.UncountedRequestsStayOut | src/mcp_server_auth_template/adapters/http_transport_security.py:66-94 | Take the arrival of a rejected, operational or non-HTTP request out of any run: the run is still possible, with the same counter, lock and other requests; the request takes no later step. |
| HttpAdmission.RefusedOnlyWhenFull | src/mcp_server_auth_template/adapters/http_transport_security.py:111-114 | A contender is refused exactly when every slot is occupied by another request. |
| HttpAdmission.BelowLimitIsAdmitted | src/mcp_server_auth_template/adapters/http_transport_security.py:111-116 | A contender that compares below the limit is never refused, on any schedule of the others; it can always take its next instruction and reaches its application after three more. |
| OidcNetworkPolicy.BuildPolicy | src/mcp_server_auth_template/adapters/oidc_http_security.py:170-197 | Fails exactly on an unparsable, queried or non-HTTPS issuer or allowlist entry (HTTP passes in loopback mode only); otherwise the trust set is the issuer's origin and the listed ones, and the discovery URL is the stripped issuer with the well-known path. |
| OidcNetworkPolicy.ParsesExactly | src/mcp_server_auth_template/adapters/oidc_http_security.py:83-100 | A URL has an origin exactly when it holds no backslash or control character, no text after a hash, and its head has that origin. |
| OidcNetworkPolicy.HeadIs | src/mcp_server_auth_template/adapters/oidc_http_security.py:86-100 | The head is the text up to the first scheme separator and the authority after it. |
| OidcNetworkPolicy.ResolvesExactly | src/mcp_server_auth_template/adapters/oidc_http_security.py:236-277 | A connection is made to this origin, address and kind exactly when the URL is the discovery URL or of a trusted origin, the address is the first answer, and either all answers are loopback in loopback mode or the scheme is HTTPS and all are global, mapped addresses judged by what they embed. |
| OidcNetworkPolicy.DiscoveryHasIssuerOrigin | src/mcp_server_auth_template/adapters/oidc_http_security.py:178 | The discovery URL has the issuer's origin, whatever the issuer's path. |
| OidcNetworkPolicy.RequestsAreTrusted | src/mcp_server_auth_template/adapters/oidc_http_security.py:236-241 | Every URL that may be requested lies in a trusted origin. |
| OidcNetworkPolicy.ConnectionsAreConfined | src/mcp_server_auth_template/adapters/oidc_http_security.py:249-277 | A connection goes to a trusted origin at an address of its own answer; without loopback mode over HTTPS with no non-global answer; without HTTPS only in loopback mode to loopback answers. |
| OidcNetworkPolicy.BoundedStream | src/mcp_server_auth_template/adapters/oidc_http_security.py:280-292 | Passes on the longest prefix of chunks within the limit and fails exactly when the whole exceeds it. |
| TransportPool.Transport.TransportFor | src/mcp_server_auth_template/adapters/oidc_http_security.py:317-330 | Returns the origin's child, makes one within the budget, and refuses exactly when a new origin meets a full pool. |
| TransportPool.PoolIsBounded | src/mcp_server_auth_template/adapters/oidc_http_security.py:317-330 | In every interleaving the pool stays within the budget and the trust set. |
| TransportPool.OneChildPerOrigin | src/mcp_server_auth_template/adapters/oidc_http_security.py:317-330 | Between closes two callers get the same child exactly when they asked for the same origin, and no origin is made twice. |
| TransportPool.BudgetErrorReachable | src/mcp_server_auth_template/adapters/oidc_http_security.py:326-327 | The budget error can occur if and only if there are more trusted origins than the budget. |
| BearerRedaction.BearerMatchExact | src/mcp_server_auth_template/entrypoints/logging.py:31 | A match is, at a word boundary, the six letters of bearer in any case, one or more spaces, and a non-empty token to its end; stated without the matcher's own parts. |
| BearerRedaction.FirstBearerMatch | src/mcp_server_auth_template/entrypoints/logging.py:58 | The first match becomes the redacted form, the text before it stays, and the same holds of the rest. |
| BearerRedaction.SubBearerCleans | src/mcp_server_auth_template/entrypoints/logging.py:31-58 | After one application every match at any position is the redacted form. |
| BearerRedaction.BearerCleanExactly | src/mcp_server_auth_template/entrypoints/logging.py:31-58 | A text is clean exactly when every bearer token in it, at any position, is the mask. |
| QueryRedaction.FirstSecret | src/mcp_server_auth_template/entrypoints/logging.py:59 | Only the value of the first secret is masked, everything before it stays, and the same holds of the rest. |
| QueryRedaction.QueryMatchExact | src/mcp_server_auth_template/entrypoints/logging.py:32-34 | A match is one of four literal names in any case, an equals sign, and a non-empty value to its end at a space or ampersand; stated without the matcher's own parts. |
| QueryRedaction.SubQueryCleans | src/mcp_server_auth_template/entrypoints/logging.py:32-59 | After one application every matched value is the mask. |
| QueryRedaction.QueryCleanExactly | src/mcp_server_auth_template/entrypoints/logging.py:32-59 | A text is clean exactly when every value behind one of the four names, at any position, is the mask. |
| QueryRedaction.QueryKeepsBearerClean | src/mcp_server_auth_template/entrypoints/logging.py:58-59 | The second rewrite creates no bearer match that the first would still have to redact. |
| LogRedaction.CleanIffUnchanged | src/mcp_server_auth_template/entrypoints/logging.py:57-59 | The two rewrites leave a text alone exactly when every match in it is redacted already; their output always is. |
| LogRedaction.CleanAtEveryPosition | src/mcp_server_auth_template/entrypoints/logging.py:57-59 | In such a text a match of either pattern, starting anywhere, is the redacted form. |
| LogRedaction.RedactCleans | src/mcp_server_auth_template/entrypoints/logging.py:47-60 | At any depth no unredacted match remains and a sensitive key holds nothing but the mask. |
| LogRedaction.SensitiveExactly | src/mcp_server_auth_template/entrypoints/logging.py:17-30 | A key is sensitive exactly when it spells one of ten literal names in any case, with hyphens for underscores. |
| LogRedaction.RedactConceals | src/mcp_server_auth_template/entrypoints/logging.py:47-60 | At any depth, no text holds a bearer token or one of the four secrets other than the mask, and a key of the ten names holds the mask alone. |
| LogRedaction.RedactTextMasks | src/mcp_server_auth_template/entrypoints/logging.py:57-59 | The output is the text with its bearer tokens masked from the left, then the values of the secrets that this leaves, and nothing else changed; stated as a relation, without the rewrites. |
| LogRedaction.OnlySecretsAreMasked | src/mcp_server_auth_template/entrypoints/logging.py:47-60 | Under any other key a value keeps its kind, a text has its secrets masked in this way, and other values stay. |
| LogRedaction.RedactIdempotent | src/mcp_server_auth_template/entrypoints/logging.py:47-60 | Redaction is idempotent on every nested value under every key. |
| LogRedaction.ItemsKeepTheirPlaces | src/mcp_server_auth_template/entrypoints/logging.py:53-56 | Lists and tuples keep their length; each item is redacted on its own. |
| LogRedaction.EntriesKeepTheirPlaces | src/mcp_server_auth_template/entrypoints/logging.py:51-52 | Dictionaries keep their entries in order under their key texts; where texts collide the first gives the place and the last the value. |
| LogRedaction.RedactSecuritySecrets | src/mcp_server_auth_template/entrypoints/logging.py:38-44 | The event keeps its fields and each holds its redacted value, in which no token or secret is left and which is the mask under a sensitive name. |
| SbomComponents.NormalIffFixed | scripts/validate_security_evidence.py:35-37 | For every lower-casing that keeps separators and is stable, normal names are exactly the fixed points of normalization, which is idempotent and leaves single hyphens only. |
| SbomComponents.RunsBecomeHyphens | scripts/validate_security_evidence.py:35-37 | Text without separators stays and the whole run of separators after it becomes one hyphen. |
| SbomComponents.AsciiLowering | scripts/validate_security_evidence.py:35-37 | Lower-casing of ASCII letters is such a lower-casing, so the assumption can be met. |
| SbomComponents.ComponentNames | scripts/validate_security_evidence.py:40-61 | The worklist terminates on every document and returns exactly the normalized names of the components that some chain of component lists leads to from the listed ones or from the metadata component. |
| SbomComponents.NamesAreThoseWritten | scripts/validate_security_evidence.py:40-61 | The names of the forest are those at the end of a chain of component lists, read off the document. |
| SbomComponents.OrderDoesNotMatter | scripts/validate_security_evidence.py:51-60 | Reordering or repeating components changes nothing. |
| ArchivePaths.SameMember | scripts/prepare_release_artifacts.py:93-103 | Accepted names are the same member exactly when they differ in a trailing slash at most, and the parts spell the name. |
| ArchivePaths.SafePartsExactly | scripts/prepare_release_artifacts.py:93-103 | A name is accepted as these parts exactly when they are non-empty, no dots, free of slash and backslash, and the name is their join, with one more slash or not. |
| ArchivePaths.MembersStayInside | scripts/prepare_release_artifacts.py:93-103 | An accepted name leads strictly down from the directory it is unpacked in. |
| ChecksumManifest.PrepareManifest | scripts/prepare_release_artifacts.py:263-279 | Two builds that agree in every digest give the manifest of those digests, over the sorted names; any difference refuses them. |
| ChecksumManifest.ValidatePackageChecksums | scripts/prepare_release_publication.py:90-105 | Passes exactly when the text is ASCII and its lines are the entries of the expected map, each once: 64 hexadecimal digits, two spaces, a name without slash and backslash. |
| ChecksumManifest.ParsedExactly | scripts/prepare_release_publication.py:95-100 | Reading gives a map exactly when the lines spell it out. |
| ChecksumManifest.FirstLine | scripts/prepare_release_publication.py:92 | Each break ends one line, and a carriage return takes a line feed behind it along. |
| ChecksumManifest.ManifestRoundTrip | scripts/prepare_release_artifacts.py:278-279 | The manifest of SHA-256 digests is read back as the same map if and only if every name is non-empty ASCII without slash, backslash or line break. |
| VulnerabilityPolicy.ActionableFindings | scripts/enforce_vulnerability_policy.py:83-115 | Fails exactly when an entry has no vulnerability, or is critical or high in any case and cannot be identified; otherwise a key is actionable, or unfixed, exactly when such an entry with this key has, or lacks, a non-blank fix version. |
| VulnerabilityPolicy.ReadMatchExactly | scripts/enforce_vulnerability_policy.py:93-114 | How one entry of the report is read, in terms of its members alone. |
| VulnerabilityPolicy.KeyOrder | scripts/enforce_vulnerability_policy.py:33-41 | Keys are compared field by field, in the order of the fields. |
| VulnerabilityPolicy.ExceptionRecords | scripts/enforce_vulnerability_policy.py:125-191 | Succeeds exactly when every exception has the ten fields as texts, explanations of 40 characters, a window of 1 to 90 days that covers the day, and a key of its own; a key is recorded with a day exactly when an exception for it expires then. |
| VulnerabilityPolicy.EvaluateVulnerabilityPolicy | scripts/enforce_vulnerability_policy.py:201-236 | The verdict read off the documents: invalid exactly for an unreadable report or policy; refused with the sorted findings without exception and exceptions without finding; or passed with the expiry of each excused finding in order and the two counts. |
| VulnerabilityPolicy.PassesExactly | scripts/enforce_vulnerability_policy.py:201-236 | A day passes exactly when the pair is in order, finding keys equal exception keys, and every exception covers the day. |
| VulnerabilityPolicy.PassingDaysAreContiguous | scripts/enforce_vulnerability_policy.py:178-181 | The passing days of a pair form one interval. |
| VulnerabilityPolicy.PassingDaysAreFew | scripts/enforce_vulnerability_policy.py:182-187 | With an exception that interval has at most 91 days. |
| VulnerabilityPolicy.FindingsAreASet | scripts/enforce_vulnerability_policy.py:208-218 | Permuting or repeating findings changes neither validity nor the keys the verdict is made of. |
| VulnerabilityPolicy.VerdictIsUnique | scripts/enforce_vulnerability_policy.py:208-236 | A valid pair has one verdict, to the last entry of the output, and reordering the exceptions keeps it. |

## Left out

- JWT decoding and signature checks, the key library's import, HTTP, DNS and TLS: outcomes are parameters or nondeterministic steps.
- URL, IDNA and IP-table parsing: a head parser and address verdicts are parameters; only that a head ends at the first slash, question mark or hash, and that a URL without host is refused, is used.
- The TTL cache's choice of what to evict: any choice is allowed, but only when the cache would overflow.
- Base64 and ISO date decoding: parameters.
- The MCP SDK's routing and its validation of headers against the body: only the one assumption above; agreement of the decision points is stated for equal names.
- Unicode lower-casing: for component names it is a parameter that keeps separators and is stable; elsewhere characters outside ASCII stay as they are, which comparisons with ASCII names cannot tell.
- Unicode normalization and surrogates: strings are sequences of characters.
- ProgressiveHttp.ScopeChallengeSender.Send: what the application does with the encoding error of a challenge that is not ASCII; any messages may follow it.
- ChallengeHeader.ChallengesAreReadable: needs every global scope to be a valid scope token, because the configuration does not check it.
- RequestIsolation.RequestsAreIsolated: contexts are values under an identifier in this machine, not heap objects; `TokenVerifier` and `ProgressiveHttp` hold the classes of one request. Calls in one task return innermost first, as calls do.
- CacheTheorems.FillRate: needs no more URIs than cache slots, since an evicted document is fetched again at once.
- CacheTheorems.RotationIsBounded: says nothing of cancelled resolves, which return nothing.
- OidcNetworkPolicy.RequestsAreTrusted: host normalization is part of the head parser, so its idempotence is not stated.
- The discovery and JWKS transports' header, redirect and content-length checks: single branches.
- Wheel and source archive contents, project identity, platform evidence, and the rest of the release scripts: lists of field checks.
- The text of policy error messages: which entry is reported first depends on order; that something is refused does not.
- Settings validation, probes, tracing, audit events, governance validators and deployment files: plumbing and field checks.

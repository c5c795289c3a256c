/** The discovery client: the cache protocol without forced refreshes, storing trusted metadata only. */
module OidcDiscovery {
  import opened Common
  import opened LockedTtlCache
  import opened OidcNetworkPolicy
  import CacheInvariants
  import CacheTheorems

  datatype Metadata = Metadata(issuer: string, jwksUri: string)

  /** `assert_metadata_trusted`: the exact issuer, and a JWKS URI of a trusted origin. */
  predicate MetadataTrusted(p: Policy, m: Metadata, parseHead: string -> Option<Origin>) {
    m.issuer == p.issuerUrl && TrustsJwksUri(p, m.jwksUri, parseHead)
  }

  function NonEmptyString(j: Json): Option<string> {
    if j.JString? && j.s != "" then Some(j.s) else None
  }

  /** What a fetched document yields: both members non-empty strings, and trusted. */
  function Admitted(p: Policy, document: Option<map<string, Json>>,
          parseHead: string -> Option<Origin>): Option<Metadata>
  {
    if document.None? then None
    else
      var issuer := NonEmptyString(Get(document.value, "issuer"));
      var jwksUri := NonEmptyString(Get(document.value, "jwks_uri"));
      if issuer.None? || jwksUri.None? then None
      else
        var m := Metadata(issuer.value, jwksUri.value);
        if MetadataTrusted(p, m, parseHead) then Some(m) else None
  }

  /**
   What is admitted: the document's issuer is the configured one, character by character, and its
   JWKS URI is a non-empty string whose origin the policy trusts.
   */
  ghost predicate IsAdmitted(p: Policy, document: Option<map<string, Json>>, parseHead: string -> Option<Origin>,
          m: Metadata)
  {
    && document.Some? && p.issuerUrl != "" && m.jwksUri != ""
    && "issuer" in document.value && document.value["issuer"] == JString(p.issuerUrl)
    && "jwks_uri" in document.value && document.value["jwks_uri"] == JString(m.jwksUri)
    && m.issuer == p.issuerUrl
    && exists o :: o in p.trusted && ParseUrl(m.jwksUri, parseHead) == Some(o)
  }

  lemma AdmittedExactly(p: Policy, document: Option<map<string, Json>>, parseHead: string -> Option<Origin>,
          m: Metadata)
    ensures Admitted(p, document, parseHead) == Some(m) <==> IsAdmitted(p, document, parseHead, m)
  {
    hide ParseUrl;
  }

  /** The client's suspension-free stretches of code. */
  class Client {
    const policy: Policy
    const parseHead: string -> Option<Origin>
    const ttl: real
    const cacheSize: nat
    var cache: Cache<Metadata>

    constructor (policy: Policy, parseHead: string -> Option<Origin>, ttl: real, cacheSize: nat)
      requires ttl > 0.0 && cacheSize > 0
      ensures this.policy == policy && this.parseHead == parseHead && this.ttl == ttl && this.cacheSize == cacheSize
      ensures cache == map[]
    {
      this.policy, this.parseHead, this.ttl, this.cacheSize := policy, parseHead, ttl, cacheSize;
      cache := map[];
    }

    ghost predicate Valid()
      reads this
    {
      forall u :: u in cache ==> u == policy.issuerUrl && MetadataTrusted(policy, cache[u].value, parseHead)
    }

    /** Both reads, before and under the lock. Another issuer is refused before the cache is read. */
    method Cached(issuer: string, now: real) returns (refused: bool, hit: Option<Metadata>)
      requires Valid()
      ensures refused <==> issuer != policy.issuerUrl
      ensures !refused ==> hit == Live(cache, issuer, now)
      ensures forall m :: hit == Some(m) <==>
        issuer == policy.issuerUrl && issuer in cache && cache[issuer].value == m && now < cache[issuer].expires
      ensures hit.Some? ==> MetadataTrusted(policy, hit.value, parseHead)
    {
      if issuer != policy.issuerUrl {
        return true, None;
      }
      if issuer in cache && now < cache[issuer].expires {
        return false, Some(cache[issuer].value);
      }
      return false, None;
    }

    /** The code after the fetch: validate, and only then store. */
    method Complete(document: Option<map<string, Json>>, at: real) returns (r: Option<Metadata>)
      requires Valid()
      modifies this`cache
      ensures Valid()
      ensures r == Admitted(policy, document, parseHead)
      ensures forall m :: r == Some(m) <==> IsAdmitted(policy, document, parseHead, m)
      ensures r.Some? ==> cache == old(cache)[policy.issuerUrl := Entry(r.value, at + ttl)]
      ensures cache == if r.Some? then Stored(old(cache), policy.issuerUrl, r.value, at, ttl, {}) else old(cache)
    {
      r := Admitted(policy, document, parseHead);
      forall m ensures r == Some(m) <==> IsAdmitted(policy, document, parseHead, m) {
        AdmittedExactly(policy, document, parseHead, m);
      }
      if r.Some? {
        cache := cache[policy.issuerUrl := Entry(r.value, at + ttl)];
        assert old(cache) - {} == old(cache);
      }
    }
  }

  /** The client as an instance of the cache protocol: any cached document will do. */
  ghost function Protocol(p: Policy, parseHead: string -> Option<Origin>, ttl: real, cacheSize: nat,
                          documents: real -> Option<map<string, Json>>): Config<Metadata, ()>
  {
    Config(ttl, 1.0, cacheSize,
           (u: Uri, at: real) => Admitted(p, documents(at), parseHead),
           (req: (), m: Metadata) => true)
  }

  /** Only trusted metadata is ever cached or returned, and a resolve never reports a miss. */
  lemma OnlyTrustedMetadata(cfg: Config<Metadata, ()>, s: State<Metadata, ()>, p: Policy,
                            parseHead: string -> Option<Origin>, documents: real -> Option<map<string, Json>>)
    requires cfg == Protocol(p, parseHead, cfg.ttl, cfg.cacheSize, documents)
    requires CacheInvariants.Positive(cfg) && Reachable(cfg, s)
    ensures forall u :: u in s.cache ==> MetadataTrusted(p, s.cache[u].value, parseHead)
    ensures forall t :: t in s.tasks && s.tasks[t].phase.Done? ==>
      && !s.tasks[t].phase.outcome.NotFound?
      && (s.tasks[t].phase.outcome.Found? ==> MetadataTrusted(p, s.tasks[t].phase.outcome.value, parseHead))
  {
    forall u | u in s.cache ensures MetadataTrusted(p, s.cache[u].value, parseHead) {
      CacheTheorems.CacheHoldsLatest(cfg, s, u);
      var f :| f in s.log && f.result == Some(s.cache[u].value) && cfg.source(u, f.served) == f.result;
      assert Admitted(p, documents(f.served), parseHead) == f.result;
    }
    forall t | t in s.tasks && s.tasks[t].phase.Done?
      ensures !s.tasks[t].phase.outcome.NotFound?
      ensures s.tasks[t].phase.outcome.Found? ==> MetadataTrusted(p, s.tasks[t].phase.outcome.value, parseHead)
    {
      CacheTheorems.ReturnedIsGenuine(cfg, s, t);
      var o := s.tasks[t].phase.outcome;
      if o.Found? {
        assert Admitted(p, documents(CacheTheorems.OriginOf(o).value.served), parseHead) == Some(o.value);
      }
    }
  }

  /** No discovery lookup is ever forced: every fetch the client issues is a fill. */
  lemma EveryFetchIsAFill(cfg: Config<Metadata, ()>, s: State<Metadata, ()>, p: Policy,
                          parseHead: string -> Option<Origin>, documents: real -> Option<map<string, Json>>)
    requires cfg == Protocol(p, parseHead, cfg.ttl, cfg.cacheSize, documents) && Reachable(cfg, s)
    ensures forall f :: f in CacheInvariants.Requests(s) ==> f.kind == Fill
    ensures forall t :: t in s.tasks ==> s.tasks[t].phase != Waiting(true)
  {
    assert CacheTheorems.AcceptsAll(cfg);
    var clock: real, run: seq<Event<()>> :| Exec(cfg, clock, run) == Some(s);
    CacheTheorems.NeverRefreshed(cfg, clock, run);
  }

  /**
   Any m successful discovery fetches take m-1 lifetimes, whatever the traffic: the client asks
   for its configured issuer only, so nothing is ever evicted, and every fetch is a fill.
   */
  lemma DiscoveryRate(cfg: Config<Metadata, ()>, s: State<Metadata, ()>, p: Policy,
                      parseHead: string -> Option<Origin>, documents: real -> Option<map<string, Json>>, ix: seq<nat>)
    requires cfg == Protocol(p, parseHead, cfg.ttl, cfg.cacheSize, documents)
    requires CacheInvariants.Positive(cfg) && Reachable(cfg, s)
    requires forall t :: t in s.tasks ==> s.tasks[t].uri == p.issuerUrl
    requires CacheTheorems.Positions(CacheInvariants.Requests(s), ix) && ix != []
    requires forall k :: 0 <= k < |ix| ==>
      CacheInvariants.Requests(s)[ix[k]].uri == p.issuerUrl && CacheInvariants.Requests(s)[ix[k]].result.Some?
    ensures (|ix| - 1) as real * cfg.ttl <=
      CacheInvariants.Requests(s)[ix[|ix| - 1]].ended - CacheInvariants.Requests(s)[ix[0]].ended
  {
    EveryFetchIsAFill(cfg, s, p, parseHead, documents);
    var fs := CacheInvariants.Requests(s);
    hide CacheInvariants.Requests, Reachable;
    assert forall k :: 0 <= k < |ix| ==> fs[ix[k]] in fs && CacheTheorems.IsGoodFill(fs[ix[k]], p.issuerUrl);
    CacheTheorems.FillRate(cfg, s, {p.issuerUrl}, p.issuerUrl, ix);
  }
}

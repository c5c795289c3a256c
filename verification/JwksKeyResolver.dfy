/** Indexing a JWKS document, picking a key for a token, and the resolver around the cache protocol. */
module JwksKeyResolver {
  import opened Common
  import opened Permutations
  import opened LockedTtlCache
  import CacheInvariants
  import CacheTheorems

  const MAX_KID_LENGTH: nat := 256

  type Jwk = map<string, Json>
  type Keys = map<string, Jwk>

  // ---------------------------------------------------------------- indexing

  /** The kid of an entry that has a well-formed one. */
  function WellFormedKid(raw: Json): Option<string> {
    if raw.JObject? && Get(raw.fields, "kid").JString? && 0 < |Get(raw.fields, "kid").s| <= MAX_KID_LENGTH
    then Some(Get(raw.fields, "kid").s) else None
  }

  /** Neither `use` nor `key_ops` rules the key out for signature verification. */
  predicate Usable(key: Jwk) {
    && (Get(key, "use") == JNull || Get(key, "use") == JString("sig"))
    && (Get(key, "key_ops") == JNull
        || (Get(key, "key_ops").JArray? && JString("verify") in Get(key, "key_ops").items))
  }

  /** The document offers `key` for verification under `kid`. */
  ghost predicate Offers(raw: seq<Json>, kid: string, key: Jwk) {
    JObject(key) in raw && WellFormedKid(JObject(key)) == Some(kid) && Usable(key)
  }

  ghost predicate HasDuplicateKid(raw: seq<Json>) {
    Repeats(raw, WellFormedKid)
  }

  /**
   A signing key, member by member: an entry of the document under a well-formed kid, whose `use`
   is absent, null or "sig", and whose `key_ops` is absent, null or an array that holds "verify".
   */
  ghost predicate IsSigningKey(raw: seq<Json>, kid: string, key: Jwk) {
    && JObject(key) in raw
    && "kid" in key && key["kid"] == JString(kid) && 1 <= |kid| <= 256
    && ("use" in key ==> key["use"] == JNull || key["use"] == JString("sig"))
    && ("key_ops" in key ==>
          key["key_ops"] == JNull || (key["key_ops"].JArray? && JString("verify") in key["key_ops"].items))
  }

  lemma OffersSigningKeys(raw: seq<Json>, kid: string, key: Jwk)
    ensures Offers(raw, kid, key) <==> IsSigningKey(raw, kid, key)
  {
  }

  /** The entry carries this kid, and it is a non-empty string of bounded length. */
  predicate CarriesKid(entry: Json, kid: string) {
    entry.JObject? && "kid" in entry.fields && entry.fields["kid"] == JString(kid) && 1 <= |kid| <= 256
  }

  /** Two entries carry the same kid. */
  ghost predicate SharesKid(raw: seq<Json>) {
    exists i, j, kid :: 0 <= i < j < |raw| && CarriesKid(raw[i], kid) && CarriesKid(raw[j], kid)
  }

  lemma CarriesWellFormedKid(entry: Json, kid: string)
    ensures CarriesKid(entry, kid) <==> WellFormedKid(entry) == Some(kid)
  {
  }

  lemma SharedKidIsDuplicate(raw: seq<Json>)
    ensures SharesKid(raw) <==> HasDuplicateKid(raw)
  {
    hide WellFormedKid, CarriesKid;
    if i, j, kid :| 0 <= i < j < |raw| && CarriesKid(raw[i], kid) && CarriesKid(raw[j], kid) {
      CarriesWellFormedKid(raw[i], kid);
      CarriesWellFormedKid(raw[j], kid);
    }
    if i, j :| 0 <= i < j < |raw| && WellFormedKid(raw[i]).Some? && WellFormedKid(raw[i]) == WellFormedKid(raw[j]) {
      CarriesWellFormedKid(raw[i], WellFormedKid(raw[i]).value);
      CarriesWellFormedKid(raw[j], WellFormedKid(raw[i]).value);
    }
  }

  /** The index built so far, entry by entry. */
  function Indexed(raw: seq<Json>): Keys {
    if raw == [] then map[]
    else
      var last := raw[|raw| - 1];
      var front := Indexed(raw[..|raw| - 1]);
      if WellFormedKid(last).Some? && Usable(last.fields) then front[WellFormedKid(last).value := last.fields]
      else front
  }

  /** Without a repeated kid the index is exactly the usable entries, by kid. */
  lemma {:induction false} IndexIsExact(raw: seq<Json>, kid: string, key: Jwk)
    requires !HasDuplicateKid(raw)
    ensures (kid in Indexed(raw) && Indexed(raw)[kid] == key) <==> Offers(raw, kid, key)
  {
    if raw != [] {
      var n := |raw| - 1;
      var front, last := raw[..n], raw[n];
      assert raw == front + [last];
      IndexIsExact(front, kid, key);
    }
  }

  /** Reordering a document changes neither whether it indexes nor what its index is. */
  lemma IndexPermuted(a: seq<Json>, b: seq<Json>)
    requires Permutation(a, b)
    ensures HasDuplicateKid(a) <==> HasDuplicateKid(b)
    ensures !HasDuplicateKid(a) ==> Indexed(a) == Indexed(b)
  {
    if HasDuplicateKid(a) { RepeatsPermuted(a, b, WellFormedKid); }
    if HasDuplicateKid(b) { RepeatsPermuted(b, a, WellFormedKid); }
    if !HasDuplicateKid(a) {
      SameMembers(a, b);
      var x, y := Indexed(a), Indexed(b);
      forall kid | kid in x ensures kid in y && y[kid] == x[kid] {
        IndexIsExact(a, kid, x[kid]);
        IndexIsExact(b, kid, x[kid]);
      }
      forall kid | kid in y ensures kid in x {
        IndexIsExact(a, kid, y[kid]);
        IndexIsExact(b, kid, y[kid]);
      }
    }
  }

  /** The well-formed kids of the first `n` entries, none of which occurs twice among them. */
  ghost predicate SeenKids(raw: seq<Json>, n: nat, seen: set<string>)
    requires n <= |raw|
  {
    && (forall kid :: kid in seen <==> exists j :: 0 <= j < n && WellFormedKid(raw[j]) == Some(kid))
    && (forall j, k :: 0 <= j < k < n && WellFormedKid(raw[j]).Some? ==>
          WellFormedKid(raw[j]) != WellFormedKid(raw[k]))
  }

  /** The next entry repeats a kid exactly when its own has been seen. */
  lemma NextKid(raw: seq<Json>, n: nat, seen: set<string>)
    requires n < |raw| && SeenKids(raw, n, seen)
    ensures var kid := WellFormedKid(raw[n]);
      && (kid.None? ==> SeenKids(raw, n + 1, seen))
      && (kid.Some? && kid.value in seen ==> HasDuplicateKid(raw))
      && (kid.Some? && kid.value !in seen ==> SeenKids(raw, n + 1, seen + {kid.value}))
  {
    hide WellFormedKid;
    var kid := WellFormedKid(raw[n]);
    if kid.Some? && kid.value in seen {
      var j :| 0 <= j < n && WellFormedKid(raw[j]) == kid;
    }
  }

  lemma AllKidsSeen(raw: seq<Json>, seen: set<string>)
    requires SeenKids(raw, |raw|, seen)
    ensures !HasDuplicateKid(raw)
  {
    hide WellFormedKid;
  }

  /** `_index_keys`: fails on a repeated kid, also when `use` or `key_ops` would have filtered it. */
  method IndexKeys(raw: seq<Json>) returns (r: Option<Keys>)
    ensures r.None? <==> SharesKid(raw)
    ensures r.Some? ==> forall kid, key :: (kid in r.value && r.value[kid] == key) <==> IsSigningKey(raw, kid, key)
    ensures r == if HasDuplicateKid(raw) then None else Some(Indexed(raw))
  {
    hide Usable, Offers, HasDuplicateKid, SharesKid, IsSigningKey;
    SharedKidIsDuplicate(raw);
    var indexed: Keys := map[];
    var seenKids: set<string> := {};
    for i := 0 to |raw|
      invariant SeenKids(raw, i, seenKids)
      invariant indexed == Indexed(raw[..i])
    {
      assert raw[..i + 1][..i] == raw[..i];
      NextKid(raw, i, seenKids);
      var kid := WellFormedKid(raw[i]);
      if kid.None? {
        continue;
      }
      if kid.value in seenKids {
        return None;
      }
      seenKids := seenKids + {kid.value};
      if !Usable(raw[i].fields) {
        continue;
      }
      indexed := indexed[kid.value := raw[i].fields];
    }
    assert raw[..|raw|] == raw;
    AllKidsSeen(raw, seenKids);
    forall kid, key ensures (kid in indexed && indexed[kid] == key) <==> IsSigningKey(raw, kid, key) {
      IndexIsExact(raw, kid, key);
      OffersSigningKeys(raw, kid, key);
    }
    return Some(indexed);
  }

  // ---------------------------------------------------------------- picking a key

  datatype KeyRequest = KeyRequest(kid: string, alg: string)

  /** `kty`, `crv` and an advertised `alg` agree with the token's algorithm. */
  predicate Matches(raw: Jwk, alg: string) {
    && (Get(raw, "alg") == JNull || Get(raw, "alg") == JString(alg))
    && Get(raw, "kty") == JString(if alg == "RS256" then "RSA" else "EC")
    && (alg == "ES256" ==> Get(raw, "crv") == JString("P-256"))
  }

  /** `importable` stands for the key library accepting the raw key for that algorithm. */
  function CompatibleKey(keys: Keys, req: KeyRequest, importable: (Jwk, string) -> bool): Option<Jwk> {
    if req.kid in keys && Matches(keys[req.kid], req.alg) && importable(keys[req.kid], req.alg)
    then Some(keys[req.kid]) else None
  }

  /**
   A key is chosen exactly when it stands under the kid, advertises no other algorithm, is of the
   type and curve of the algorithm, and the library accepts it.
   */
  lemma ChosenExactly(keys: Keys, req: KeyRequest, importable: (Jwk, string) -> bool, key: Jwk)
    requires req.alg in {"RS256", "ES256"}
    ensures CompatibleKey(keys, req, importable) == Some(key) <==>
      (&& req.kid in keys && keys[req.kid] == key && importable(key, req.alg)
       && ("alg" in key ==> key["alg"] == JNull || key["alg"] == JString(req.alg))
       && "kty" in key
       && (req.alg == "RS256" ==> key["kty"] == JString("RSA"))
       && (req.alg == "ES256" ==>
           key["kty"] == JString("EC") && "crv" in key && key["crv"] == JString("P-256")))
  {
    assert "RS256"[0] != "ES256"[0];
  }

  /** The checks `resolve` makes on the unverified header before it touches the cache. */
  function Requested(header: Option<map<string, Json>>, trusted: bool): Option<KeyRequest> {
    if header.None? then None
    else
      var kid := Get(header.value, "kid");
      var alg := Get(header.value, "alg");
      if !kid.JString? || kid.s == "" || |kid.s| > MAX_KID_LENGTH then None
      else if !alg.JString? || alg.s !in {"RS256", "ES256"} then None
      else if !trusted then None
      else Some(KeyRequest(kid.s, alg.s))
  }

  /** A header is followed exactly with a bounded non-empty kid, an accepted algorithm and a trusted JWKS URI. */
  lemma RequestedExactly(header: Option<map<string, Json>>, trusted: bool, req: KeyRequest)
    ensures Requested(header, trusted) == Some(req) <==>
      (&& trusted && header.Some? && "kid" in header.value && "alg" in header.value
       && header.value["kid"] == JString(req.kid) && 1 <= |req.kid| <= 256
       && header.value["alg"] == JString(req.alg) && (req.alg == "RS256" || req.alg == "ES256"))
  {
  }

  /**
   What `resolve` hands out for a token header is bound to it: an entry of the document under the
   header's own kid, of the key type of the header's algorithm, and of no other accepted algorithm.
   */
  lemma ResolvedKeyIsBound(header: Option<map<string, Json>>, trusted: bool, raw: seq<Json>,
          importable: (Jwk, string) -> bool)
    requires !HasDuplicateKid(raw) && Requested(header, trusted).Some?
    requires CompatibleKey(Indexed(raw), Requested(header, trusted).value, importable).Some?
    ensures var req := Requested(header, trusted).value; var key := CompatibleKey(Indexed(raw), req, importable).value;
      && trusted && JObject(key) in raw && Get(key, "kid") == Get(header.value, "kid") == JString(req.kid)
      && Get(header.value, "alg") == JString(req.alg)
      && (Get(key, "kty") == JString("RSA") <==> req.alg == "RS256")
      && (Get(key, "kty") == JString("EC") && Get(key, "crv") == JString("P-256") <==> req.alg == "ES256")
      && forall alg :: alg in {"RS256", "ES256"} && alg != req.alg ==>
        CompatibleKey(Indexed(raw), req.(alg := alg), importable) == None
  {
    var req := Requested(header, trusted).value;
    IndexIsExact(raw, req.kid, Indexed(raw)[req.kid]);
    assert "RS256"[0] != "ES256"[0] && |"RSA"| != |"EC"|;
  }

  // ---------------------------------------------------------------- the resolver

  /** What a fetched document decodes to: `keys` must be a bounded array without a repeated kid. */
  ghost function Decoded(document: Option<map<string, Json>>, maxKeys: nat): Option<Keys> {
    if document.None? then None
    else
      var raw := Get(document.value, "keys");
      if !raw.JArray? || |raw.items| > maxKeys || HasDuplicateKid(raw.items) then None
      else Some(Indexed(raw.items))
  }

  /**
   The process-wide resolver. Its methods are the stretches of code between two
   suspension points; the cache protocol interleaves exactly these.
   */
  class Resolver {
    const ttl: real
    const cooldown: real
    const cacheSize: nat
    const maxKeys: nat
    var cache: Cache<Keys>
    var lastForcedRefresh: map<Uri, real>

    constructor (ttl: real, cooldown: real, cacheSize: nat, maxKeys: nat)
      requires ttl > 0.0 && cooldown > 0.0 && cacheSize > 0 && maxKeys > 0
      ensures this.ttl == ttl && this.cooldown == cooldown && this.cacheSize == cacheSize && this.maxKeys == maxKeys
      ensures cache == map[] && lastForcedRefresh == map[]
    {
      this.ttl, this.cooldown, this.cacheSize, this.maxKeys := ttl, cooldown, cacheSize, maxKeys;
      cache, lastForcedRefresh := map[], map[];
    }

    /** The read before the lock. */
    method Cached(uri: Uri, now: real) returns (hit: Option<Keys>)
      ensures hit == Live(cache, uri, now)
      ensures forall keys :: hit == Some(keys) <==>
        uri in cache && cache[uri].value == keys && now < cache[uri].expires
    {
      if uri in cache && now < cache[uri].expires {
        return Some(cache[uri].value);
      }
      return None;
    }

    /** The code under the lock, up to the fetch: `clockAt` is the second clock reading. */
    method ReuseOrIssue(uri: Uri, force: bool, readAt: real, clockAt: real) returns (d: Decision<Keys>)
      modifies this`lastForcedRefresh
      ensures d == Decide(cache, old(lastForcedRefresh), cooldown, uri, force, readAt, clockAt)
      ensures lastForcedRefresh == Stamped(old(lastForcedRefresh), uri, d, clockAt)
      ensures var live := uri in cache && readAt < cache[uri].expires;
        && (d == IssueFetch(Fill) <==> !live)
        && (d == IssueFetch(Refresh) <==>
            live && force && (uri in old(lastForcedRefresh) ==> clockAt - old(lastForcedRefresh)[uri] >= cooldown))
        && (d.UseCached? ==> d.value == cache[uri].value && d.throttled == force)
      ensures lastForcedRefresh ==
        if d == IssueFetch(Refresh) then old(lastForcedRefresh)[uri := clockAt] else old(lastForcedRefresh)
    {
      var cached := Cached(uri, readAt);
      if !force && cached.Some? {
        return UseCached(cached.value, false);
      }
      if force && cached.Some? {
        if uri in lastForcedRefresh && clockAt - lastForcedRefresh[uri] < cooldown {
          return UseCached(cached.value, true);
        }
        lastForcedRefresh := lastForcedRefresh[uri := clockAt];
        return IssueFetch(Refresh);
      }
      return IssueFetch(Fill);
    }

    /** The code after the fetch: decode, and on success store for a lifetime. */
    method Complete(uri: Uri, document: Option<map<string, Json>>, at: real, evicted: set<Uri>)
      returns (r: Option<Keys>)
      requires MayEvict(cache, uri, evicted, cacheSize)
      modifies this`cache
      ensures r == Decoded(document, maxKeys)
      ensures r.Some? <==>
        && document.Some? && "keys" in document.value && document.value["keys"].JArray?
        && |document.value["keys"].items| <= maxKeys && !SharesKid(document.value["keys"].items)
      ensures r.Some? ==> forall kid, key ::
        (kid in r.value && r.value[kid] == key) <==> IsSigningKey(document.value["keys"].items, kid, key)
      ensures cache == if r.Some? then Stored(old(cache), uri, r.value, at, ttl, evicted) else old(cache)
      ensures r.Some? ==> cache == (old(cache) - evicted)[uri := Entry(r.value, at + ttl)]
    {
      hide IsSigningKey, SharesKid, HasDuplicateKid, Indexed;
      if document.None? {
        return None;
      }
      var raw := Get(document.value, "keys");
      if !raw.JArray? || |raw.items| > maxKeys {
        return None;
      }
      r := IndexKeys(raw.items);
      SharedKidIsDuplicate(raw.items);
      if r.Some? {
        cache := (cache - evicted)[uri := Entry(r.value, at + ttl)];
      }
    }
  }

  // ---------------------------------------------------------------- the protocol at work

  /** The cache protocol of one resolver, against a provider that serves `documents(uri, t)` at instant `t`. */
  ghost function Protocol(ttl: real, cooldown: real, cacheSize: nat, maxKeys: nat,
                          documents: (Uri, real) -> Option<map<string, Json>>,
                          importable: (Jwk, string) -> bool): Config<Keys, KeyRequest>
  {
    Config(ttl, cooldown, cacheSize,
           (u: Uri, at: real) => Decoded(documents(u, at), maxKeys),
           (req: KeyRequest, keys: Keys) => CompatibleKey(keys, req, importable).Some?)
  }

  /** The document publishes, under the requested kid, a usable key for the requested algorithm. */
  ghost predicate PublishesKey(document: Option<map<string, Json>>, req: KeyRequest,
          importable: (Jwk, string) -> bool)
  {
    document.Some? ==>
      exists key :: Matches(key, req.alg) && importable(key, req.alg)
        && Get(document.value, "keys").JArray? && Offers(Get(document.value, "keys").items, req.kid, key)
  }

  /** A published key is found in whatever the document decodes to. */
  lemma PublishedIsCompatible(document: Option<map<string, Json>>, maxKeys: nat, req: KeyRequest,
          importable: (Jwk, string) -> bool)
    requires PublishesKey(document, req, importable) && Decoded(document, maxKeys).Some?
    ensures CompatibleKey(Decoded(document, maxKeys).value, req, importable).Some?
  {
    var raw := Get(document.value, "keys").items;
    var key :| Matches(key, req.alg) && importable(key, req.alg) && Offers(raw, req.kid, key);
    IndexIsExact(raw, req.kid, key);
  }

  /** And only a published key is: what a lookup returns is an entry of the document. */
  lemma CompatibleIsPublished(document: Option<map<string, Json>>, maxKeys: nat, req: KeyRequest,
          importable: (Jwk, string) -> bool)
    requires Decoded(document, maxKeys).Some?
    requires CompatibleKey(Decoded(document, maxKeys).value, req, importable).Some?
    ensures PublishesKey(document, req, importable)
  {
    var raw := Get(document.value, "keys").items;
    var key := CompatibleKey(Indexed(raw), req, importable).value;
    IndexIsExact(raw, req.kid, key);
  }

  /**
   Rotation, end to end: a key that every document carries from `p` on is found by every
   resolve begun a cooldown later, in every run in which fetches from `p` on succeed.
   */
  lemma RotatedKeyIsFound(cfg: Config<Keys, KeyRequest>, s: State<Keys, KeyRequest>, t: TaskId, p: real,
                          maxKeys: nat, documents: (Uri, real) -> Option<map<string, Json>>,
                          importable: (Jwk, string) -> bool)
    requires cfg == Protocol(cfg.ttl, cfg.cooldown, cfg.cacheSize, maxKeys, documents, importable)
    requires CacheInvariants.Positive(cfg) && Reachable(cfg, s) && t in s.tasks && s.tasks[t].phase.Done?
    requires forall at: real :: at >= p ==> PublishesKey(documents(s.tasks[t].uri, at), s.tasks[t].req, importable)
    requires CacheTheorems.FetchesSucceedFrom(s, s.tasks[t].uri, p)
    requires s.tasks[t].began >= p + cfg.cooldown && !s.tasks[t].phase.outcome.Cancelled?
    ensures s.tasks[t].phase.outcome.Found?
    ensures CompatibleKey(s.tasks[t].phase.outcome.value, s.tasks[t].req, importable).Some?
  {
    var u, req := s.tasks[t].uri, s.tasks[t].req;
    forall at: real | at >= p && cfg.source(u, at).Some? ensures cfg.accepts(req, cfg.source(u, at).value) {
      PublishedIsCompatible(documents(u, at), maxKeys, req, importable);
    }
    CacheTheorems.RotationIsBounded(cfg, s, t, p);
    CacheTheorems.ReturnedIsGenuine(cfg, s, t);
  }

  /**
   Removal, end to end: a key no document carries from `r` on is not returned a lifetime after
   the fetch in flight at `r` ended.
   */
  lemma RemovedKeyIsGone(cfg: Config<Keys, KeyRequest>, s: State<Keys, KeyRequest>, t: TaskId, r: real, latency: real,
                         maxKeys: nat, documents: (Uri, real) -> Option<map<string, Json>>,
                         importable: (Jwk, string) -> bool)
    requires cfg == Protocol(cfg.ttl, cfg.cooldown, cfg.cacheSize, maxKeys, documents, importable)
    requires CacheInvariants.Positive(cfg) && Reachable(cfg, s) && t in s.tasks && s.tasks[t].phase.Done?
    requires forall at: real :: at >= r && documents(s.tasks[t].uri, at).Some? ==>
      !PublishesKey(documents(s.tasks[t].uri, at), s.tasks[t].req, importable)
    requires CacheTheorems.InFlightEnds(s, s.tasks[t].uri, r, latency)
    ensures s.tasks[t].phase.outcome.Found? ==> s.tasks[t].phase.outcome.at < r + cfg.ttl + latency
  {
    var u, req := s.tasks[t].uri, s.tasks[t].req;
    forall at: real | at >= r && cfg.source(u, at).Some? ensures !cfg.accepts(req, cfg.source(u, at).value) {
      if cfg.accepts(req, cfg.source(u, at).value) {
        CompatibleIsPublished(documents(u, at), maxKeys, req, importable);
      }
    }
    CacheTheorems.RemovalIsBounded(cfg, s, t, r, latency);
  }
}

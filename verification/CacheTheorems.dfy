/** What holds of every run of the cache protocol, whatever the interleaving. */
module CacheTheorems {
  import opened Common
  import opened LockedTtlCache
  import opened CacheInvariants

  // ---------------------------------------------------------------- runs

  lemma {:induction false} RunInv<V(!new), R(!new)>(cfg: Config<V, R>, clock: real, run: seq<Event<R>>)
    requires Positive(cfg) && Exec(cfg, clock, run).Some?
    ensures Inv(cfg, Exec(cfg, clock, run).value)
  {
    if run != [] {
      var before := run[..|run| - 1];
      RunInv(cfg, clock, before);
      InvStep(cfg, Exec(cfg, clock, before).value, run[|run| - 1]);
    }
  }

  lemma WithinEarlier<V(!new), R(!new)>(cfg: Config<V, R>, s: State<V, R>, e: Event<R>, uris: set<Uri>)
    requires Enabled(cfg, s, e) && Within(Apply(cfg, s, e), uris)
    ensures Within(s, uris)
  {
    TasksFrame(cfg, s, e);
    hide Apply, Enabled;
    var s' := Apply(cfg, s, e);
    assert forall t :: t in s.tasks ==> t in s'.tasks && s'.tasks[t].uri == s.tasks[t].uri;
  }

  lemma {:induction false} RunFillInv<V(!new), R(!new)>(cfg: Config<V, R>, clock: real, run: seq<Event<R>>,
          uris: set<Uri>)
    requires Positive(cfg) && Exec(cfg, clock, run).Some?
    requires Within(Exec(cfg, clock, run).value, uris) && |uris| <= cfg.cacheSize
    ensures FillInv(cfg, Exec(cfg, clock, run).value, uris)
  {
    if run != [] {
      var before := run[..|run| - 1];
      var s := Exec(cfg, clock, before).value;
      var s' := Exec(cfg, clock, run).value;
      RunInv(cfg, clock, before);
      WithinEarlier(cfg, s, run[|run| - 1], uris);
      RunFillInv(cfg, clock, before, uris);
      FillInvStep(cfg, s, run[|run| - 1], uris);
    }
  }

  lemma ReachableInv<V(!new), R(!new)>(cfg: Config<V, R>, s: State<V, R>)
    requires Positive(cfg) && Reachable(cfg, s)
    ensures Inv(cfg, s)
  {
    var clock: real, run: seq<Event<R>> :| Exec(cfg, clock, run) == Some(s);
    RunInv(cfg, clock, run);
  }

  lemma ReachableFillInv<V(!new), R(!new)>(cfg: Config<V, R>, s: State<V, R>, uris: set<Uri>)
    requires Positive(cfg) && Reachable(cfg, s) && Within(s, uris) && |uris| <= cfg.cacheSize
    ensures FillInv(cfg, s, uris)
  {
    var clock: real, run: seq<Event<R>> :| Exec(cfg, clock, run) == Some(s);
    RunFillInv(cfg, clock, run, uris);
  }

  lemma ReachableRequests<V(!new), R(!new)>(cfg: Config<V, R>, s: State<V, R>)
    requires Positive(cfg) && Reachable(cfg, s)
    ensures Spaced(Requests(s), cfg.cooldown)
  {
    ReachableInv(cfg, s);
  }

  lemma ReachableFills<V(!new), R(!new)>(cfg: Config<V, R>, s: State<V, R>, uris: set<Uri>)
    requires Positive(cfg) && Reachable(cfg, s) && Within(s, uris) && |uris| <= cfg.cacheSize
    ensures FillsSpaced(Requests(s), cfg.ttl)
    ensures forall i :: 0 <= i < |Requests(s)| ==> Requests(s)[i].began <= Requests(s)[i].ended
  {
    ReachableInv(cfg, s);
    ReachableFillInv(cfg, s, uris);
  }

  // ---------------------------------------------------------------- single flight and freshness

  /** At most one fetch is in flight, and no two fetches of a run ever overlap in time. */
  lemma SingleFlight<V(!new), R(!new)>(cfg: Config<V, R>, s: State<V, R>)
    requires Positive(cfg) && Reachable(cfg, s)
    ensures forall t, t' :: t in s.tasks && t' in s.tasks ==>
      s.tasks[t].phase.Fetching? && s.tasks[t'].phase.Fetching? ==> t == t'
    ensures var fs := Requests(s); forall i, j :: 0 <= i < j < |fs| ==> fs[i].ended <= fs[j].began
  {
    ReachableInv(cfg, s);
  }

  /** A cached entry is the last success for its URI: no earlier fetch can have replaced it. */
  lemma CacheHoldsLatest<V(!new), R(!new)>(cfg: Config<V, R>, s: State<V, R>, u: Uri)
    requires Positive(cfg) && Reachable(cfg, s) && u in s.cache
    ensures exists f :: (
      && f in s.log && f.uri == u && cfg.source(u, f.served) == f.result
      && f.result == Some(s.cache[u].value) && s.cache[u].expires == f.ended + cfg.ttl
      && forall g :: g in s.log && g.uri == u && g.result.Some? && g != f ==> g.ended <= f.began)
  {
    ReachableInv(cfg, s);
    var f := s.lastOk[u];
    assert f in s.log;
  }

  /** Overwriting goes forward in time: the document that replaces another was requested later. */
  lemma NoStaleOverwrite<V(!new), R(!new)>(cfg: Config<V, R>, s: State<V, R>, e: Event<R>, u: Uri)
    requires Positive(cfg) && Reachable(cfg, s) && Enabled(cfg, s, e)
    requires u in s.cache && u in Apply(cfg, s, e).cache && Apply(cfg, s, e).cache[u] != s.cache[u]
    ensures var s' := Apply(cfg, s, e);
      && u in s.lastOk && u in s'.lastOk && s'.lastOk[u].result.Some?
      && s.lastOk[u].ended <= s'.lastOk[u].began
      && s'.cache[u] == Entry(s'.lastOk[u].result.value, s'.clock + cfg.ttl)
  {
    ReachableInv(cfg, s);
    StepShape(cfg, s, e);
    hide Enabled, Apply, Shape, LockInv, RefreshInv, TasksInv, Reachable;
    OverwriteStep(cfg, s, Apply(cfg, s, e), u);
  }

  lemma OverwriteStep<V(!new), R(!new)>(cfg: Config<V, R>, s: State<V, R>, s': State<V, R>, u: Uri)
    requires Sequential(Requests(s), s.clock) && HistoryInv(cfg, s) && CacheInv(cfg, s) && Shape(cfg, s, s')
    requires u in s.cache && u in s'.cache && s'.cache[u] != s.cache[u]
    ensures u in s.lastOk && u in s'.lastOk && s'.lastOk[u].result.Some?
    ensures s.lastOk[u].ended <= s'.lastOk[u].began
    ensures s'.cache[u] == Entry(s'.lastOk[u].result.value, s'.clock + cfg.ttl)
  {
    LogBefore(s);
    assert s.lastOk[u] in s.log;
  }

  /** The fetch a resolve got its document from. */
  ghost function OriginOf<V(!new)>(o: Outcome<V>): Option<Fetch<V>> {
    match o
    case Found(_, origin, _) => origin
    case NotFound(origin, _, _) => origin
    case _ => None
  }

  /**
   Every document a lookup hands out was served by the provider for that URI at an
   instant inside its fetch, and was unexpired when it was read.
   */
  lemma ReturnedIsGenuine<V(!new), R(!new)>(cfg: Config<V, R>, s: State<V, R>, t: TaskId)
    requires Positive(cfg) && Reachable(cfg, s) && t in s.tasks && s.tasks[t].phase.Done?
    ensures var task, o := s.tasks[t], s.tasks[t].phase.outcome;
      o.Found? || o.NotFound? ==>
        && OriginOf(o).Some?
        && var f := OriginOf(o).value;
        && f in s.log && f.uri == task.uri && f.began <= f.served <= f.ended <= o.at < f.ended + cfg.ttl
        && f.result.Some? && cfg.source(task.uri, f.served) == f.result
        && (o.Found? ==> f.result.value == o.value && cfg.accepts(task.req, o.value))
        && (o.NotFound? ==> !cfg.accepts(task.req, f.result.value))
  {
    ReachableInv(cfg, s);
    assert TaskInv(cfg, s, s.tasks[t]);
    var o := s.tasks[t].phase.outcome;
    if o.Found? || o.NotFound? {
      var f := OriginOf(o).value;
      var i :| 0 <= i < |s.log| && s.log[i] == f;
      assert Requests(s)[i] == f;
    }
  }

  // ---------------------------------------------------------------- rotation

  /** From instant `p` on, every document the provider serves satisfies the request. */
  ghost predicate PublishedFrom<V(!new), R(!new)>(cfg: Config<V, R>, u: Uri, req: R, p: real) {
    forall at: real :: at >= p && cfg.source(u, at).Some? ==> cfg.accepts(req, cfg.source(u, at).value)
  }

  /** From instant `r` on, no document the provider serves satisfies the request. */
  ghost predicate WithdrawnFrom<V(!new), R(!new)>(cfg: Config<V, R>, u: Uri, req: R, r: real) {
    forall at: real :: at >= r && cfg.source(u, at).Some? ==> !cfg.accepts(req, cfg.source(u, at).value)
  }

  ghost predicate FetchesSucceedFrom<V(!new), R(!new)>(s: State<V, R>, u: Uri, p: real) {
    forall f :: f in s.log && f.uri == u && f.began >= p ==> f.result.Some?
  }

  /**
   Bounded rotation staleness. If the key is published from `p` on and fetches begun
   from `p` on succeed, a resolve that starts a cooldown later, and is not cancelled,
   finds it.
   */
  lemma RotationIsBounded<V(!new), R(!new)>(cfg: Config<V, R>, s: State<V, R>, t: TaskId, p: real)
    requires Positive(cfg) && Reachable(cfg, s) && t in s.tasks && s.tasks[t].phase.Done?
    requires PublishedFrom(cfg, s.tasks[t].uri, s.tasks[t].req, p) && FetchesSucceedFrom(s, s.tasks[t].uri, p)
    requires s.tasks[t].began >= p + cfg.cooldown
    ensures s.tasks[t].phase.outcome.Found? || s.tasks[t].phase.outcome.Cancelled?
  {
    ReachableInv(cfg, s);
    assert TaskInv(cfg, s, s.tasks[t]);
    ReturnedIsGenuine(cfg, s, t);
  }

  /**
   What a late miss takes: a resolve that starts a cooldown after the publication and still
   misses was held off by a refresh begun after the publication that failed.
   */
  lemma LateMissNeedsFailure<V(!new), R(!new)>(cfg: Config<V, R>, s: State<V, R>, t: TaskId, p: real)
    requires Positive(cfg) && Reachable(cfg, s) && t in s.tasks && s.tasks[t].phase.Done?
    requires PublishedFrom(cfg, s.tasks[t].uri, s.tasks[t].req, p) && s.tasks[t].began >= p + cfg.cooldown
    requires s.tasks[t].phase.outcome.NotFound?
    ensures exists f ::
      f in s.log && IsRefresh(f, s.tasks[t].uri) && f.result == None && p < f.began
      && s.tasks[t].phase.outcome.at - f.began < cfg.cooldown
  {
    ReachableInv(cfg, s);
    assert TaskInv(cfg, s, s.tasks[t]);
    ReturnedIsGenuine(cfg, s, t);
    var f := s.tasks[t].phase.outcome.throttledBy.value;
    assert f in s.log;
  }

  /** A refresh of the URI begun less than a cooldown before `now` failed; by their spacing it is the last one. */
  ghost predicate RefreshJustFailed<V(!new), R(!new)>(cfg: Config<V, R>, s: State<V, R>, u: Uri, now: real) {
    exists f :: f in s.log && IsRefresh(f, u) && f.result == None && now - f.began < cfg.cooldown
  }

  /** The forced lookup of `t` is about to be decided, on behalf of a resolve begun late. */
  ghost predicate LateLookup<V(!new), R(!new)>(cfg: Config<V, R>, s: State<V, R>, t: TaskId, p: real,
          readAt: real, clockAt: real)
  {
    && Enabled(cfg, s, Grant(t, readAt, clockAt)) && s.tasks[t].phase == Waiting(true)
    && PublishedFrom(cfg, s.tasks[t].uri, s.tasks[t].req, p) && s.tasks[t].began >= p + cfg.cooldown
  }

  ghost predicate Misses<V(!new), R(!new)>(cfg: Config<V, R>, s: State<V, R>, e: Event<R>, t: TaskId)
    requires Enabled(cfg, s, e)
  {
    var s' := Apply(cfg, s, e);
    t in s'.tasks && s'.tasks[t].phase.Done? && s'.tasks[t].phase.outcome.NotFound?
  }

  lemma RecentRefreshThrottles<V(!new), R(!new)>(cfg: Config<V, R>, s: State<V, R>, u: Uri, now: real)
    requires Inv(cfg, s) && RefreshJustFailed(cfg, s, u, now)
    ensures u in s.lastForced && now - s.lastForced[u] < cfg.cooldown
  {
    var f :| f in s.log && IsRefresh(f, u) && f.result == None && now - f.began < cfg.cooldown;
    var i :| 0 <= i < |s.log| && s.log[i] == f;
    assert Requests(s)[i] == f;
  }

  /** A throttled late lookup that a live document does not satisfy has a failed refresh behind it. */
  lemma ThrottleMeansFailure<V(!new), R(!new)>(cfg: Config<V, R>, s: State<V, R>, t: TaskId, p: real,
          readAt: real, clockAt: real)
    requires Positive(cfg) && Inv(cfg, s) && LateLookup(cfg, s, t, p, readAt, clockAt)
    requires var u := s.tasks[t].uri; var live := Live(s.cache, u, readAt);
      && live.Some? && !cfg.accepts(s.tasks[t].req, live.value)
      && u in s.lastForced && clockAt - s.lastForced[u] < cfg.cooldown
    ensures RefreshJustFailed(cfg, s, s.tasks[t].uri, clockAt)
  {
    var task := s.tasks[t];
    var u := task.uri;
    ThrottleExplained(cfg, s, task, readAt, clockAt);
    CachedSupply(cfg, s, task, readAt, clockAt);
    assert StampSource(s, u);
    var f, last := s.lastRefresh[u], s.lastOk[u];
    var i :| 0 <= i < |s.log| && s.log[i] == last;
    assert Requests(s)[i] == last;
  }

  /**
   When exactly a late resolve misses: at its forced lookup, if and only if a document without
   the key is still live and a refresh begun less than a cooldown before has failed.
   */
  lemma LateMissExactly<V(!new), R(!new)>(cfg: Config<V, R>, s: State<V, R>, t: TaskId, p: real, readAt: real,
          clockAt: real)
    requires Positive(cfg) && Reachable(cfg, s) && LateLookup(cfg, s, t, p, readAt, clockAt)
    ensures var u := s.tasks[t].uri; var live := Live(s.cache, u, readAt);
      Misses(cfg, s, Grant(t, readAt, clockAt), t) <==>
      live.Some? && !cfg.accepts(s.tasks[t].req, live.value) && RefreshJustFailed(cfg, s, u, clockAt)
  {
    ReachableInv(cfg, s);
    hide Reachable, Inv, RefreshJustFailed;
    var u := s.tasks[t].uri;
    var live := Live(s.cache, u, readAt);
    if live.Some? && !cfg.accepts(s.tasks[t].req, live.value) {
      if RefreshJustFailed(cfg, s, u, clockAt) {
        RecentRefreshThrottles(cfg, s, u, clockAt);
      } else if u in s.lastForced && clockAt - s.lastForced[u] < cfg.cooldown {
        ThrottleMeansFailure(cfg, s, t, p, readAt, clockAt);
      }
    }
  }

  /** Nowhere else can a late resolve miss: a fetch of its own finds the key. */
  lemma LateMissOnlyThere<V(!new), R(!new)>(cfg: Config<V, R>, s: State<V, R>, e: Event<R>, t: TaskId, p: real)
    requires Positive(cfg) && Reachable(cfg, s) && Enabled(cfg, s, e) && t in s.tasks && !s.tasks[t].phase.Done?
    requires PublishedFrom(cfg, s.tasks[t].uri, s.tasks[t].req, p) && s.tasks[t].began >= p + cfg.cooldown
    requires Misses(cfg, s, e, t)
    ensures e.Grant? && e.t == t && LateLookup(cfg, s, t, p, e.readAt, e.clockAt)
  {
    ReachableInv(cfg, s);
    assert TaskInv(cfg, s, s.tasks[t]);
    hide Inv, TaskInv, Reachable;
    TasksFrame(cfg, s, e);
    match e {
      case Grant(_, readAt, clockAt) => PlainLookupNeverMisses(cfg, s, t, readAt, clockAt);
      case FetchOk(_, _, _, _) => LateFetchFindsKey(cfg, s, e, t, p);
      case _ => OthersNeverMiss(cfg, s, e, t);
    }
  }

  lemma OthersNeverMiss<V(!new), R(!new)>(cfg: Config<V, R>, s: State<V, R>, e: Event<R>, t: TaskId)
    requires Enabled(cfg, s, e) && (e.Start? || e.FetchErr? || e.Cancel?) && t in s.tasks && !s.tasks[t].phase.Done?
    ensures !Misses(cfg, s, e, t)
  {
    hide Settle;
  }

  lemma LateFetchFindsKey<V(!new), R(!new)>(cfg: Config<V, R>, s: State<V, R>, e: Event<R>, t: TaskId, p: real)
    requires Enabled(cfg, s, e) && e.FetchOk? && e.t == t && TaskInv(cfg, s, s.tasks[t])
    requires PublishedFrom(cfg, s.tasks[t].uri, s.tasks[t].req, p) && s.tasks[t].began >= p
    ensures !Misses(cfg, s, e, t)
  {
    assert e.served >= p;
  }

  /** Only a forced lookup ends in a miss. */
  lemma PlainLookupNeverMisses<V(!new), R(!new)>(cfg: Config<V, R>, s: State<V, R>, t: TaskId, readAt: real,
          clockAt: real)
    requires Enabled(cfg, s, Grant(t, readAt, clockAt)) && Misses(cfg, s, Grant(t, readAt, clockAt), t)
    ensures s.tasks[t].phase == Waiting(true)
  {
  }

  /** A fetch of the URI in flight at instant `r`, if it succeeds, ends within `latency` of it. */
  ghost predicate InFlightEnds<V(!new), R(!new)>(s: State<V, R>, u: Uri, r: real, latency: real) {
    latency >= 0.0
    && forall f :: f in s.log && f.uri == u && f.result.Some? && f.began < r <= f.ended ==> f.ended - r <= latency
  }

  /** A key withdrawn at `r` is not returned once a lifetime has passed since the fetch in flight at `r` ended. */
  lemma RemovalIsBounded<V(!new), R(!new)>(cfg: Config<V, R>, s: State<V, R>, t: TaskId, r: real, latency: real)
    requires Positive(cfg) && Reachable(cfg, s) && t in s.tasks && s.tasks[t].phase.Done?
    requires WithdrawnFrom(cfg, s.tasks[t].uri, s.tasks[t].req, r)
    requires InFlightEnds(s, s.tasks[t].uri, r, latency)
    ensures s.tasks[t].phase.outcome.Found? ==> s.tasks[t].phase.outcome.at < r + cfg.ttl + latency
  {
    ReturnedIsGenuine(cfg, s, t);
  }

  // ---------------------------------------------------------------- rates

  /** Strictly increasing positions of `fs`. */
  ghost predicate Positions<V(!new)>(fs: seq<Fetch<V>>, ix: seq<nat>) {
    && (forall k :: 0 <= k < |ix| ==> ix[k] < |fs|)
    && (forall k, l :: 0 <= k < l < |ix| ==> ix[k] < ix[l])
  }

  lemma StepOfMultiple(n: nat, width: real, total: real)
    requires n as real * width <= total
    ensures (n + 1) as real * width <= total + width
  {
  }

  lemma {:induction false} RefreshSpan<V(!new)>(fs: seq<Fetch<V>>, cooldown: real, u: Uri, ix: seq<nat>)
    requires Spaced(fs, cooldown) && Positions(fs, ix) && ix != []
    requires forall k :: 0 <= k < |ix| ==> IsRefresh(fs[ix[k]], u)
    ensures (|ix| - 1) as real * cooldown <= fs[ix[|ix| - 1]].began - fs[ix[0]].began
  {
    if |ix| > 1 {
      var front := ix[..|ix| - 1];
      RefreshSpan(fs, cooldown, u, front);
      StepOfMultiple(|ix| - 2, cooldown, fs[front[|front| - 1]].began - fs[front[0]].began);
    }
  }

  /**
   Refresh rate: any n forced refreshes of one URI, failed, cancelled and unfinished ones
   included, take at least (n-1) cooldowns.
   */
  lemma RefreshRate<V(!new), R(!new)>(cfg: Config<V, R>, s: State<V, R>, u: Uri, ix: seq<nat>)
    requires Positive(cfg) && Reachable(cfg, s) && Positions(Requests(s), ix) && ix != []
    requires forall k :: 0 <= k < |ix| ==> IsRefresh(Requests(s)[ix[k]], u)
    ensures (|ix| - 1) as real * cfg.cooldown <= Requests(s)[ix[|ix| - 1]].began - Requests(s)[ix[0]].began
  {
    hide Reachable, IsRefresh, Spaced, Requests;
    ReachableRequests(cfg, s);
    RefreshSpan(Requests(s), cfg.cooldown, u, ix);
  }

  ghost predicate IsGoodFill<V(!new)>(f: Fetch<V>, u: Uri) {
    f.uri == u && f.kind == Fill && f.result.Some?
  }

  lemma {:induction false} FillSpan<V(!new)>(fs: seq<Fetch<V>>, ttl: real, u: Uri, ix: seq<nat>)
    requires FillsSpaced(fs, ttl) && Positions(fs, ix) && ix != []
    requires forall i :: 0 <= i < |fs| ==> fs[i].began <= fs[i].ended
    requires forall k :: 0 <= k < |ix| ==> IsGoodFill(fs[ix[k]], u)
    ensures (|ix| - 1) as real * ttl <= fs[ix[|ix| - 1]].ended - fs[ix[0]].ended
  {
    if |ix| > 1 {
      var front := ix[..|ix| - 1];
      FillSpan(fs, ttl, u, front);
      StepOfMultiple(|ix| - 2, ttl, fs[front[|front| - 1]].ended - fs[front[0]].ended);
    }
  }

  /** Fill rate: with no more URIs than slots, any m successful fills of one URI take (m-1) lifetimes. */
  lemma FillRate<V(!new), R(!new)>(cfg: Config<V, R>, s: State<V, R>, uris: set<Uri>, u: Uri, ix: seq<nat>)
    requires Positive(cfg) && Reachable(cfg, s) && Within(s, uris) && |uris| <= cfg.cacheSize
    requires Positions(Requests(s), ix) && ix != []
    requires forall k :: 0 <= k < |ix| ==> IsGoodFill(Requests(s)[ix[k]], u)
    ensures (|ix| - 1) as real * cfg.ttl <= Requests(s)[ix[|ix| - 1]].ended - Requests(s)[ix[0]].ended
  {
    hide Reachable, Within, IsGoodFill, FillsSpaced, Requests;
    ReachableFills(cfg, s, uris);
    FillSpan(Requests(s), cfg.ttl, u, ix);
  }

  /** One resolve issues at most two fetches. */
  lemma AtMostTwoFetches<V(!new), R(!new)>(cfg: Config<V, R>, s: State<V, R>, t: TaskId)
    requires Positive(cfg) && Reachable(cfg, s) && t in s.tasks
    ensures s.tasks[t].issued <= 2
  {
    ReachableInv(cfg, s);
    assert TaskInv(cfg, s, s.tasks[t]);
  }

  /**
   A plain lookup that was queued while its URI was fetched is served without a fetch, as long
   as nothing pushed the document out of the cache; how many other URIs there are is irrelevant.
   */
  lemma QueuedLookupFetchesNothing<V(!new), R(!new)>(cfg: Config<V, R>, s: State<V, R>, t: TaskId, f: Fetch<V>,
          readAt: real, clockAt: real)
    requires Positive(cfg) && Reachable(cfg, s)
    requires Enabled(cfg, s, Grant(t, readAt, clockAt)) && s.tasks[t].phase == Waiting(false)
    requires f in s.log && f.uri == s.tasks[t].uri && f.result.Some? && readAt < f.ended + cfg.ttl && f.uri in s.cache
    ensures var s' := Apply(cfg, s, Grant(t, readAt, clockAt));
      Requests(s') == Requests(s) && s'.holder == None && s'.tasks[t].issued == s.tasks[t].issued
  {
    ReachableInv(cfg, s);
    var i :| 0 <= i < |s.log| && s.log[i] == f;
    assert Requests(s)[i] == f;
    var last := s.lastOk[f.uri];
    var j :| 0 <= j < |s.log| && s.log[j] == last;
    assert Requests(s)[j] == last;
  }

  /** With no more URIs than slots nothing is ever pushed out. */
  lemma FetchedStaysCached<V(!new), R(!new)>(cfg: Config<V, R>, s: State<V, R>, uris: set<Uri>, f: Fetch<V>)
    requires Positive(cfg) && Reachable(cfg, s) && Within(s, uris) && |uris| <= cfg.cacheSize
    requires f in s.log && f.result.Some?
    ensures f.uri in s.cache
  {
    hide Reachable;
    ReachableInv(cfg, s);
    ReachableFillInv(cfg, s, uris);
  }

  // ---------------------------------------------------------------- providers whose every document will do

  ghost predicate AcceptsAll<V(!new), R(!new)>(cfg: Config<V, R>) {
    forall req, v :: cfg.accepts(req, v)
  }

  /** Neither waiting for a forced lookup nor fetching anything but a fill. */
  ghost predicate IsPlain<V(!new)>(phase: Phase<V>) {
    match phase
    case Waiting(forced) => !forced
    case Fetching(forced, kind, _) => !forced && kind == Fill
    case Done(_) => true
  }

  /** No lookup is forced and every fetch, recorded or in flight, is a fill. */
  ghost predicate OnlyFills<V(!new), R(!new)>(s: State<V, R>) {
    && (forall t :: t in s.tasks ==> IsPlain(s.tasks[t].phase))
    && (forall f :: f in s.log ==> f.kind == Fill)
  }

  lemma SettledIsPlain<V(!new), R(!new)>(cfg: Config<V, R>, task: Task<V, R>, forced: bool, value: V,
                                         origin: Option<Fetch<V>>, blocker: Option<Fetch<V>>, at: real)
    requires AcceptsAll(cfg)
    ensures IsPlain(Settle(cfg, task, forced, value, origin, blocker, at))
  {
  }

  /** The event records nothing, or one more fetch, which is a fill. */
  ghost predicate LogsFills<V(!new), R(!new)>(s: State<V, R>, s': State<V, R>) {
    s'.log == s.log || exists f :: s'.log == s.log + [f] && f.kind == Fill
  }

  lemma PlainStart<V(!new), R(!new)>(cfg: Config<V, R>, s: State<V, R>, e: Event<R>)
    requires AcceptsAll(cfg) && Enabled(cfg, s, e) && e.Start?
    ensures var s' := Apply(cfg, s, e); IsPlain(s'.tasks[e.t].phase) && LogsFills(s, s')
  {
    hide AcceptsAll, Settle, Live;
    var hit := Live(s.cache, e.uri, e.at);
    if hit.Some? {
      var task := Task(e.uri, e.req, e.at, Waiting(false), 0);
      SettledIsPlain(cfg, task, false, hit.value, Latest(s.lastOk, e.uri), None, e.at);
    }
  }

  lemma PlainGrant<V(!new), R(!new)>(cfg: Config<V, R>, s: State<V, R>, e: Event<R>)
    requires AcceptsAll(cfg) && Enabled(cfg, s, e) && e.Grant? && IsPlain(s.tasks[e.t].phase)
    ensures var s' := Apply(cfg, s, e); IsPlain(s'.tasks[e.t].phase) && LogsFills(s, s')
  {
    hide AcceptsAll, Settle, Live;
    var task := s.tasks[e.t];
    var d := Decide(s.cache, s.lastForced, cfg.cooldown, task.uri, task.phase.forced, e.readAt, e.clockAt);
    if d.UseCached? {
      SettledIsPlain(cfg, task, task.phase.forced, d.value, Latest(s.lastOk, task.uri),
                     if d.throttled then Latest(s.lastRefresh, task.uri) else None, e.readAt);
    }
  }

  lemma PlainFetch<V(!new), R(!new)>(cfg: Config<V, R>, s: State<V, R>, e: Event<R>)
    requires AcceptsAll(cfg) && Enabled(cfg, s, e) && e.FetchOk? && IsPlain(s.tasks[e.t].phase)
    ensures var s' := Apply(cfg, s, e); IsPlain(s'.tasks[e.t].phase) && LogsFills(s, s')
  {
    hide AcceptsAll, Settle, Stored, MayEvict;
    var task := s.tasks[e.t];
    var result := cfg.source(task.uri, e.served);
    var f := Attempt(task, e.served, e.at, result);
    SettledIsPlain(cfg, task, task.phase.forced, result.value, Some(f), None, e.at);
    assert Apply(cfg, s, e).log == s.log + [f];
  }

  lemma PlainStop<V(!new), R(!new)>(cfg: Config<V, R>, s: State<V, R>, e: Event<R>)
    requires Enabled(cfg, s, e) && (e.FetchErr? || e.Cancel?) && IsPlain(s.tasks[e.t].phase)
    ensures var s' := Apply(cfg, s, e); IsPlain(s'.tasks[e.t].phase) && LogsFills(s, s')
  {
    var s' := Apply(cfg, s, e);
    if s'.log != s.log {
      var f := Attempt(s.tasks[e.t], s.tasks[e.t].phase.began, e.at, None);
      assert s'.log == s.log + [f];
    }
  }

  lemma OnlyFillsStep<V(!new), R(!new)>(cfg: Config<V, R>, s: State<V, R>, e: Event<R>)
    requires AcceptsAll(cfg) && OnlyFills(s) && Enabled(cfg, s, e)
    ensures OnlyFills(Apply(cfg, s, e))
  {
    NamedIsPlain(cfg, s, e);
    TasksFrame(cfg, s, e);
    hide Apply, Enabled, AcceptsAll, IsPlain, LogsFills;
    FillsLogged(s, Apply(cfg, s, e));
  }

  lemma NamedIsPlain<V(!new), R(!new)>(cfg: Config<V, R>, s: State<V, R>, e: Event<R>)
    requires AcceptsAll(cfg) && OnlyFills(s) && Enabled(cfg, s, e)
    ensures var s' := Apply(cfg, s, e); e.t in s'.tasks && IsPlain(s'.tasks[e.t].phase) && LogsFills(s, s')
  {
    assert !e.Start? ==> e.t in s.tasks;
    TasksFrame(cfg, s, e);
    hide Apply, Enabled, AcceptsAll, IsPlain, LogsFills;
    match e {
      case Start(_, _, _, _) => PlainStart(cfg, s, e);
      case Grant(_, _, _) => PlainGrant(cfg, s, e);
      case FetchOk(_, _, _, _) => PlainFetch(cfg, s, e);
      case FetchErr(_, _) => PlainStop(cfg, s, e);
      case Cancel(_, _) => PlainStop(cfg, s, e);
    }
  }

  lemma FillsLogged<V(!new), R(!new)>(s: State<V, R>, s': State<V, R>)
    requires LogsFills(s, s') && forall f :: f in s.log ==> f.kind == Fill
    ensures forall f :: f in s'.log ==> f.kind == Fill
  {
  }

  /** A client that is satisfied with any document never refreshes. */
  lemma {:induction false} NeverRefreshed<V(!new), R(!new)>(cfg: Config<V, R>, clock: real, run: seq<Event<R>>)
    requires AcceptsAll(cfg) && Exec(cfg, clock, run).Some?
    ensures OnlyFills(Exec(cfg, clock, run).value)
  {
    if run != [] {
      NeverRefreshed(cfg, clock, run[..|run| - 1]);
      OnlyFillsStep(cfg, Exec(cfg, clock, run[..|run| - 1]).value, run[|run| - 1]);
    }
  }

  // ---------------------------------------------------------------- the bounds are exact

  lemma RunExtends<V(!new), R(!new)>(cfg: Config<V, R>, clock: real, run: seq<Event<R>>, s: State<V, R>, e: Event<R>)
    requires Exec(cfg, clock, run) == Some(s) && Enabled(cfg, s, e)
    ensures Exec(cfg, clock, run + [e]) == Some(Apply(cfg, s, e))
  {
    assert (run + [e])[..|run + [e]| - 1] == run;
  }

  lemma ReachableStep<V(!new), R(!new)>(cfg: Config<V, R>, s: State<V, R>, e: Event<R>)
    requires Reachable(cfg, s) && Enabled(cfg, s, e)
    ensures Reachable(cfg, Apply(cfg, s, e))
  {
    hide Enabled, Apply;
    var clock: real, run: seq<Event<R>> :| Exec(cfg, clock, run) == Some(s);
    RunExtends(cfg, clock, run, s, e);
  }

  /** A provider whose document carries the wanted key exactly from `p` on. */
  ghost function RotatesAt(p: real, cooldown: real, ttl: real): Config<bool, ()> {
    Config(ttl, cooldown, 1, (u: Uri, at: real) => Some(at >= p), (req: (), present: bool) => present)
  }

  /** A first resolve at instant 0 finds nothing and fetches. */
  lemma FillBegun(cfg: Config<bool, ()>, p: real) returns (s: State<bool, ()>)
    requires cfg == RotatesAt(p, cfg.cooldown, cfg.ttl)
    ensures Reachable(cfg, s) && s.clock == 0.0 && s.holder == Some(0)
    ensures s.lastForced == map[] && s.cache == map[] && s.log == []
    ensures s.tasks == map[0 := Task("", (), 0.0, Fetching(false, Fill, 0.0), 1)]
  {
    var s0: State<bool, ()> := Init(0.0);
    assert Exec(cfg, 0.0, []) == Some(s0);
    assert Reachable(cfg, s0);
    hide Reachable, Exec;
    var s1 := Apply(cfg, s0, Start(0, "", (), 0.0));
    ReachableStep(cfg, s0, Start(0, "", (), 0.0));
    assert s1.tasks == map[0 := Task("", (), 0.0, Waiting(false), 0)];
    s := Apply(cfg, s1, Grant(0, 0.0, 0.0));
    ReachableStep(cfg, s1, Grant(0, 0.0, 0.0));
  }

  /** The fetch fills the cache, with a document that misses the key. */
  lemma FillSpent(cfg: Config<bool, ()>, p: real) returns (s: State<bool, ()>)
    requires p > 0.0 && cfg == RotatesAt(p, cfg.cooldown, cfg.ttl)
    ensures Reachable(cfg, s)
    ensures s.clock == 0.0 && s.holder == None && s.lastForced == map[]
    ensures s.tasks == map[0 := Task("", (), 0.0, Waiting(true), 1)] && s.cache == map["" := Entry(false, cfg.ttl)]
    ensures forall f :: f in s.log ==> f.began == 0.0 && f.result.Some?
  {
    hide Reachable, Exec;
    var s2 := FillBegun(cfg, p);
    s := Apply(cfg, s2, FetchOk(0, 0.0, 0.0, {}));
    ReachableStep(cfg, s2, FetchOk(0, 0.0, 0.0, {}));
  }

  /** The same resolve then spends the forced refresh, still at instant 0. */
  lemma RefreshSpent(cfg: Config<bool, ()>, p: real) returns (s: State<bool, ()>)
    requires p > 0.0 && cfg.ttl > 0.0 && cfg == RotatesAt(p, cfg.cooldown, cfg.ttl)
    ensures Reachable(cfg, s)
    ensures s.clock == 0.0 && s.holder == None && s.tasks.Keys == {0}
    ensures s.cache == map["" := Entry(false, cfg.ttl)] && s.lastForced == map["" := 0.0]
    ensures forall f :: f in s.log ==> f.began == 0.0 && f.result.Some?
  {
    hide Reachable, Exec;
    var s3 := FillSpent(cfg, p);
    var s4 := Apply(cfg, s3, Grant(0, 0.0, 0.0));
    ReachableStep(cfg, s3, Grant(0, 0.0, 0.0));
    assert s4.tasks == map[0 := Task("", (), 0.0, Fetching(true, Refresh, 0.0), 2)];
    s := Apply(cfg, s4, FetchOk(0, 0.0, 0.0, {}));
    ReachableStep(cfg, s4, FetchOk(0, 0.0, 0.0, {}));
  }

  /**
   The cooldown cannot be improved: however little earlier a resolve starts, there is a
   run without a single failed fetch in which it misses a key published throughout.
   */
  lemma RotationBoundIsTight(cooldown: real, early: real) returns (s: State<bool, ()>, p: real)
    requires 0.0 < early <= cooldown
    ensures var cfg := RotatesAt(p, cooldown, cooldown + 1.0);
      && Positive(cfg) && Reachable(cfg, s)
      && PublishedFrom(cfg, "", (), p) && FetchesSucceedFrom(s, "", p)
      && 1 in s.tasks && s.tasks[1].uri == "" && s.tasks[1].began == p + cooldown - early
      && s.tasks[1].phase.Done? && s.tasks[1].phase.outcome.NotFound?
  {
    p := early / 2.0;
    var cfg := RotatesAt(p, cooldown, cooldown + 1.0);
    var late := p + cooldown - early;
    hide Reachable, Exec;
    var spent := RefreshSpent(cfg, p);
    var s1 := Apply(cfg, spent, Start(1, "", (), late));
    ReachableStep(cfg, spent, Start(1, "", (), late));
    assert s1.tasks[1].phase == Waiting(true);
    s := Apply(cfg, s1, Grant(1, late, late));
    ReachableStep(cfg, s1, Grant(1, late, late));
  }

  /** With the key missing from a live document, a resolve at 2 forces a refresh, which fails. */
  lemma RefreshFails(cfg: Config<bool, ()>) returns (s: State<bool, ()>)
    requires cfg == RotatesAt(1.0, 1.0, 10.0)
    ensures Reachable(cfg, s) && s.clock == 2.0 && s.holder == None && s.tasks.Keys == {0, 1}
    ensures s.cache == map["" := Entry(false, 10.0)] && s.lastForced == map["" := 2.0]
  {
    hide Reachable, Exec;
    var s0 := RefreshSpent(cfg, 1.0);
    var s1 := Apply(cfg, s0, Start(1, "", (), 2.0));
    ReachableStep(cfg, s0, Start(1, "", (), 2.0));
    assert s1.tasks[1].phase == Waiting(true);
    var s2 := Apply(cfg, s1, Grant(1, 2.0, 2.0));
    ReachableStep(cfg, s1, Grant(1, 2.0, 2.0));
    assert s2.holder == Some(1) && s2.tasks[1].phase == Fetching(true, Refresh, 2.0);
    s := Apply(cfg, s2, FetchErr(1, 2.0));
    ReachableStep(cfg, s2, FetchErr(1, 2.0));
    assert s.lastForced == map["" := 2.0];
  }

  /**
   A failed refresh spends the cooldown, too: although the key is published from 1 on, a
   resolve that starts at 2, a whole cooldown later, misses it behind the refresh that failed.
   */
  lemma FailedRefreshHidesRotation() returns (s: State<bool, ()>)
    ensures var cfg := RotatesAt(1.0, 1.0, 10.0);
      && Positive(cfg) && Reachable(cfg, s) && PublishedFrom(cfg, "", (), 1.0)
      && 2 in s.tasks && s.tasks[2].uri == "" && s.tasks[2].began == 1.0 + cfg.cooldown
      && s.tasks[2].phase.Done? && s.tasks[2].phase.outcome.NotFound?
  {
    var cfg := RotatesAt(1.0, 1.0, 10.0);
    var failed := RefreshFails(cfg);
    hide Reachable;
    var s1 := Apply(cfg, failed, Start(2, "", (), 2.0));
    ReachableStep(cfg, failed, Start(2, "", (), 2.0));
    assert s1.tasks[2].phase == Waiting(true);
    s := Apply(cfg, s1, Grant(2, 2.0, 2.0));
    ReachableStep(cfg, s1, Grant(2, 2.0, 2.0));
  }

  /** A fresh task finds nothing, fetches, fails, and leaves everything but the record as it was. */
  lemma FailOnce(cfg: Config<bool, ()>, before: State<bool, ()>, t: TaskId) returns (s: State<bool, ()>)
    requires Reachable(cfg, before) && before.clock == 0.0 && before.cache == map[]
    requires before.holder == None && t !in before.tasks
    ensures Reachable(cfg, s) && s.clock == 0.0 && s.cache == map[] && s.holder == None
    ensures s.log == before.log + [Fetch("", Fill, 0.0, 0.0, 0.0, None)] && s.tasks.Keys == before.tasks.Keys + {t}
  {
    hide Reachable;
    var s1 := Apply(cfg, before, Start(t, "", (), 0.0));
    ReachableStep(cfg, before, Start(t, "", (), 0.0));
    var s2 := Apply(cfg, s1, Grant(t, 0.0, 0.0));
    ReachableStep(cfg, s1, Grant(t, 0.0, 0.0));
    s := Apply(cfg, s2, FetchErr(t, 0.0));
    ReachableStep(cfg, s2, FetchErr(t, 0.0));
  }

  /** What no bound covers: fills that fail are not throttled, any number can happen at one instant. */
  lemma {:induction false} FailedFillsAreUnthrottled(n: nat) returns (s: State<bool, ()>)
    ensures var cfg := RotatesAt(0.0, 1.0, 1.0);
      && Positive(cfg) && Reachable(cfg, s) && s.clock == 0.0 && s.cache == map[] && s.holder == None
      && |s.log| == n && (forall t :: t in s.tasks ==> t < n)
      && forall f :: f in s.log ==> f.kind == Fill && f.uri == "" && f.began == 0.0 && f.result == None
  {
    var cfg := RotatesAt(0.0, 1.0, 1.0);
    if n == 0 {
      s := Init(0.0);
      assert Exec(cfg, 0.0, []) == Some(s);
    } else {
      var before := FailedFillsAreUnthrottled(n - 1);
      s := FailOnce(cfg, before, n - 1);
    }
  }
}

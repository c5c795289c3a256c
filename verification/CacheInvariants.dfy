/** The invariants of the cache protocol, each preserved by every event. */
module CacheInvariants {
  import opened Common
  import opened LockedTtlCache

  /** The fetch in flight, if any, as the record it would leave if it were abandoned now. */
  ghost function Pending<V(!new), R(!new)>(s: State<V, R>): seq<Fetch<V>> {
    if s.holder.Some? && s.holder.value in s.tasks && s.tasks[s.holder.value].phase.Fetching?
    then var task := s.tasks[s.holder.value]; [Attempt(task, task.phase.began, s.clock, None)]
    else []
  }

  /** Every fetch the run has issued, in the order in which it was issued. */
  ghost function Requests<V(!new), R(!new)>(s: State<V, R>): seq<Fetch<V>> {
    s.log + Pending(s)
  }

  /** Single flight: a task has a fetch in flight exactly when it holds the lock. */
  ghost predicate LockInv<V(!new), R(!new)>(s: State<V, R>) {
    && (s.holder.Some? ==> s.holder.value in s.tasks && s.tasks[s.holder.value].phase.Fetching?)
    && (forall t :: t in s.tasks && s.tasks[t].phase.Fetching? ==> s.holder == Some(t))
  }

  /** Fetches do not overlap: each one begins after every earlier one has ended. */
  ghost predicate Sequential<V(!new)>(fs: seq<Fetch<V>>, clock: real) {
    && (forall i :: 0 <= i < |fs| ==> fs[i].began <= fs[i].served <= fs[i].ended <= clock)
    && (forall i, j :: 0 <= i < j < |fs| ==> fs[i].ended <= fs[j].began)
  }

  ghost predicate TimeInv<V(!new), R(!new)>(s: State<V, R>) {
    && Sequential(Requests(s), s.clock)
    && (forall t :: t in s.tasks ==> s.tasks[t].began <= s.clock)
  }

  /** `lastOk` is the latest successful fetch of each URI and holds what the provider served. */
  ghost predicate History<V(!new), R(!new)>(cfg: Config<V, R>, log: seq<Fetch<V>>, lastOk: map<Uri, Fetch<V>>) {
    && (forall u :: u in lastOk ==> lastOk[u] in log && lastOk[u].uri == u && lastOk[u].result.Some?)
    && (forall f :: f in log && f.result.Some? ==>
          && cfg.source(f.uri, f.served) == f.result
          && f.uri in lastOk
          && (f == lastOk[f.uri] || f.ended <= lastOk[f.uri].began))
  }

  ghost predicate HistoryInv<V(!new), R(!new)>(cfg: Config<V, R>, s: State<V, R>) {
    History(cfg, s.log, s.lastOk)
  }

  /** No stale overwrite: a cached entry is the latest document fetched for its URI. */
  ghost predicate CacheInv<V(!new), R(!new)>(cfg: Config<V, R>, s: State<V, R>) {
    forall u :: u in s.cache ==>
      && u in s.lastOk && s.lastOk[u].result.Some?
      && s.cache[u] == Entry(s.lastOk[u].result.value, s.lastOk[u].ended + cfg.ttl)
  }

  ghost predicate IsRefresh<V(!new)>(f: Fetch<V>, u: Uri) {
    f.uri == u && f.kind == Refresh
  }

  ghost predicate PendingRefresh<V(!new), R(!new)>(s: State<V, R>, u: Uri) {
    Pending(s) != [] && IsRefresh(Pending(s)[0], u)
  }

  /** Forced refreshes of one URI are at least a cooldown apart, finished or not. */
  ghost predicate Spaced<V(!new)>(fs: seq<Fetch<V>>, cooldown: real) {
    forall i, j :: 0 <= i < j < |fs| && fs[i].kind == Refresh && fs[j].kind == Refresh && fs[i].uri == fs[j].uri ==>
      fs[j].began - fs[i].began >= cooldown
  }

  /** The stamp of a URI is no earlier than any refresh issued for it. */
  ghost predicate Stamps<V(!new)>(fs: seq<Fetch<V>>, lastForced: map<Uri, real>) {
    forall i :: 0 <= i < |fs| && fs[i].kind == Refresh ==>
      fs[i].uri in lastForced && fs[i].began <= lastForced[fs[i].uri]
  }

  /** The stamp of a URI is the beginning of its latest refresh, in flight or recorded. */
  ghost predicate StampSource<V(!new), R(!new)>(s: State<V, R>, u: Uri) {
    if PendingRefresh(s, u) then u in s.lastForced && Pending(s)[0].began == s.lastForced[u]
    else u in s.lastForced ==>
      && u in s.lastRefresh && s.lastRefresh[u] in s.log && IsRefresh(s.lastRefresh[u], u)
      && s.lastRefresh[u].began == s.lastForced[u]
  }

  ghost predicate RefreshInv<V(!new), R(!new)>(cfg: Config<V, R>, s: State<V, R>) {
    && Spaced(Requests(s), cfg.cooldown)
    && Stamps(Requests(s), s.lastForced)
    && (forall u :: StampSource(s, u))
  }

  /** Every URI asked for so far is one of `uris`. */
  ghost predicate Within<V(!new), R(!new)>(s: State<V, R>, uris: set<Uri>) {
    forall t :: t in s.tasks ==> s.tasks[t].uri in uris
  }

  /** A fill comes no earlier than a lifetime after any earlier success for its URI. */
  ghost predicate FillsSpaced<V(!new)>(fs: seq<Fetch<V>>, ttl: real) {
    forall i, j :: 0 <= i < j < |fs| && fs[i].uri == fs[j].uri && fs[i].result.Some? && fs[j].kind == Fill ==>
      fs[j].began >= fs[i].ended + ttl
  }

  /** With no more URIs than cache slots, nothing fetched is ever pushed out. */
  ghost predicate FillInv<V(!new), R(!new)>(cfg: Config<V, R>, s: State<V, R>, uris: set<Uri>) {
    && s.lastOk.Keys == s.cache.Keys
    && s.cache.Keys <= uris
    && FillsSpaced(Requests(s), cfg.ttl)
  }

  /** A document handed out at `at` was current for the cache: just fetched, or live. */
  ghost predicate Fresh<V(!new), R(!new)>(cfg: Config<V, R>, f: Fetch<V>, at: real) {
    f.ended <= at < f.ended + cfg.ttl
  }

  ghost predicate Supplied<V(!new), R(!new)>(cfg: Config<V, R>, s: State<V, R>, task: Task<V, R>,
          origin: Option<Fetch<V>>, at: real)
  {
    && origin.Some? && origin.value in s.log && origin.value.uri == task.uri && origin.value.result.Some?
    && task.began <= at && Fresh(cfg, origin.value, at)
  }

  /**
   Why a lookup came back empty-handed: the document at hand was fetched after the
   task began, or a refresh less than a cooldown ago already settled the question.
   */
  ghost predicate Explained<V(!new), R(!new)>(cfg: Config<V, R>, s: State<V, R>, task: Task<V, R>, o: Outcome<V>)
    requires o.NotFound? && o.origin.Some?
  {
    || task.began <= o.origin.value.began
    || (&& o.throttledBy.Some? && o.throttledBy.value in s.log
        && IsRefresh(o.throttledBy.value, task.uri)
        && o.at - o.throttledBy.value.began < cfg.cooldown
        && (o.throttledBy.value.result.Some? ==> o.throttledBy.value.began <= o.origin.value.began))
  }

  ghost predicate OutcomeInv<V(!new), R(!new)>(cfg: Config<V, R>, s: State<V, R>, task: Task<V, R>, o: Outcome<V>) {
    match o
    case Found(value, origin, at) =>
      Supplied(cfg, s, task, origin, at) && origin.value.result == Some(value) && cfg.accepts(task.req, value)
    case NotFound(origin, _, at) =>
      && Supplied(cfg, s, task, origin, at) && !cfg.accepts(task.req, origin.value.result.value)
      && Explained(cfg, s, task, o)
    case FetchFailed(attempt) =>
      attempt in s.log && attempt.uri == task.uri && attempt.result == None && task.began <= attempt.began
    case Cancelled => true
  }

  /** One `resolve` issues at most one fetch per lookup, and performs at most two lookups. */
  ghost predicate TaskInv<V(!new), R(!new)>(cfg: Config<V, R>, s: State<V, R>, task: Task<V, R>) {
    match task.phase
    case Waiting(forced) => task.issued <= if forced then 1 else 0
    case Fetching(forced, _, began) => task.began <= began && task.issued <= if forced then 2 else 1
    case Done(o) => task.issued <= 2 && OutcomeInv(cfg, s, task, o)
  }

  ghost predicate TasksInv<V(!new), R(!new)>(cfg: Config<V, R>, s: State<V, R>) {
    forall t :: t in s.tasks ==> TaskInv(cfg, s, s.tasks[t])
  }

  ghost predicate Positive<V(!new), R(!new)>(cfg: Config<V, R>) {
    cfg.ttl > 0.0 && cfg.cooldown > 0.0 && cfg.cacheSize > 0
  }

  ghost predicate Inv<V(!new), R(!new)>(cfg: Config<V, R>, s: State<V, R>) {
    LockInv(s) && TimeInv(s) && HistoryInv(cfg, s) && CacheInv(cfg, s) && RefreshInv(cfg, s) && TasksInv(cfg, s)
  }

  /** What no event changes: every task it does not name, and who asked for what, and when. */
  lemma TasksFrame<V(!new), R(!new)>(cfg: Config<V, R>, s: State<V, R>, e: Event<R>)
    requires Enabled(cfg, s, e)
    ensures var s' := Apply(cfg, s, e);
      && s'.tasks.Keys == s.tasks.Keys + {e.t}
      && (forall t :: t in s.tasks && t != e.t ==> s'.tasks[t] == s.tasks[t])
      && (e.t in s.tasks ==> s'.tasks[e.t].uri == s.tasks[e.t].uri && s'.tasks[e.t].began == s.tasks[e.t].began)
  {
    hide Settle, Decide, Live, Stored, MayEvict;
  }

  // ---------------------------------------------------------------- the three shapes of a step

  /** The event touches neither the cache, nor the lock, nor the fetch in flight. */
  ghost predicate Quiet<V(!new), R(!new)>(s: State<V, R>, s': State<V, R>) {
    && s'.clock >= s.clock && s'.holder == s.holder
    && Pending(s') == (if Pending(s) == [] then [] else [Pending(s)[0].(ended := s'.clock)])
    && s'.cache == s.cache && s'.lastForced == s.lastForced
    && s'.log == s.log && s'.lastOk == s.lastOk && s'.lastRefresh == s.lastRefresh
  }

  /** A task takes the lock and issues a fetch. */
  ghost predicate Issues<V(!new), R(!new)>(cfg: Config<V, R>, s: State<V, R>, s': State<V, R>) {
    && s'.clock >= s.clock && Pending(s) == [] && |Pending(s')| == 1
    && s'.cache == s.cache && s'.log == s.log && s'.lastOk == s.lastOk && s'.lastRefresh == s.lastRefresh
    && (var f := Pending(s')[0];
      && f.began == f.served == f.ended == s'.clock && f.result == None
      && s'.lastForced == (if f.kind == Refresh then s.lastForced[f.uri := f.began] else s.lastForced)
      && (f.kind == Fill && f.uri in s.cache ==> s.cache[f.uri].expires <= f.began)
      && (f.kind == Refresh && f.uri in s.lastForced ==> f.began - s.lastForced[f.uri] >= cfg.cooldown))
  }

  /** The fetch in flight ends, well or badly, and the lock is released. */
  ghost predicate Finishes<V(!new), R(!new)>(cfg: Config<V, R>, s: State<V, R>, s': State<V, R>, f: Fetch<V>) {
    && s'.clock >= s.clock && |Pending(s)| == 1 && Pending(s') == []
    && f.uri == Pending(s)[0].uri && f.kind == Pending(s)[0].kind && f.began == Pending(s)[0].began
    && f.began <= f.served <= f.ended == s'.clock
    && s'.log == s.log + [f]
    && s'.lastOk == (if f.result.Some? then s.lastOk[f.uri := f] else s.lastOk)
    && s'.lastRefresh == (if f.kind == Refresh then s.lastRefresh[f.uri := f] else s.lastRefresh)
    && s'.lastForced == s.lastForced
    && (f.result == None ==> s'.cache == s.cache)
    && (f.result.Some? ==>
        && cfg.source(f.uri, f.served) == f.result
        && Overwrites(s.cache, s'.cache, f.uri, Entry(f.result.value, f.ended + cfg.ttl), cfg.cacheSize))
  }

  /** The new entry is in, every other one is as it was, and none is lost without overflow. */
  ghost predicate Overwrites<V(!new)>(c: Cache<V>, c': Cache<V>, uri: Uri, entry: Entry<V>, cacheSize: nat) {
    && uri in c' && c'[uri] == entry
    && (forall u :: u in c' && u != uri ==> u in c && c'[u] == c[u])
    && (|c.Keys + {uri}| <= cacheSize ==> c'.Keys == c.Keys + {uri})
  }

  lemma StoredOverwrites<V(!new)>(c: Cache<V>, uri: Uri, value: V, at: real, ttl: real, evicted: set<Uri>,
          cacheSize: nat)
    requires MayEvict(c, uri, evicted, cacheSize)
    ensures Overwrites(c, Stored(c, uri, value, at, ttl, evicted), uri, Entry(value, at + ttl), cacheSize)
  {
  }

  lemma StartShape<V(!new), R(!new)>(cfg: Config<V, R>, s: State<V, R>, t: TaskId, uri: Uri, req: R, at: real)
    requires LockInv(s) && Enabled(cfg, s, Start(t, uri, req, at))
    ensures var s' := StartStep(cfg, s, t, uri, req, at); LockInv(s') && Quiet(s, s')
  {
  }

  lemma GrantShape<V(!new), R(!new)>(cfg: Config<V, R>, s: State<V, R>, t: TaskId, readAt: real, clockAt: real)
    requires LockInv(s) && Enabled(cfg, s, Grant(t, readAt, clockAt))
    ensures var s' := GrantStep(cfg, s, t, readAt, clockAt); LockInv(s') && (Quiet(s, s') || Issues(cfg, s, s'))
  {
    var s' := GrantStep(cfg, s, t, readAt, clockAt);
    var task := s.tasks[t];
    if s'.holder == None {
      assert Quiet(s, s');
    } else {
      assert Pending(s')[0] == Attempt(s'.tasks[t], clockAt, clockAt, None);
      assert Issues(cfg, s, s');
    }
  }

  lemma FetchOkLock<V(!new), R(!new)>(cfg: Config<V, R>, s: State<V, R>, t: TaskId, served: real, at: real,
          evicted: set<Uri>)
    requires LockInv(s) && Enabled(cfg, s, FetchOk(t, served, at, evicted))
    ensures LockInv(FetchOkStep(cfg, s, t, served, at, evicted))
  {
    hide Stored, MayEvict;
  }

  lemma FetchOkShape<V(!new), R(!new)>(cfg: Config<V, R>, s: State<V, R>, t: TaskId, served: real, at: real,
          evicted: set<Uri>)
    requires LockInv(s) && Enabled(cfg, s, FetchOk(t, served, at, evicted))
    ensures var s' := FetchOkStep(cfg, s, t, served, at, evicted);
      LockInv(s') && |s'.log| == |s.log| + 1 && Finishes(cfg, s, s', s'.log[|s.log|])
  {
    FetchOkLock(cfg, s, t, served, at, evicted);
    var uri := s.tasks[t].uri;
    StoredOverwrites(s.cache, uri, cfg.source(uri, served).value, at, cfg.ttl, evicted, cfg.cacheSize);
    assert Pending(s) == [Attempt(s.tasks[t], s.tasks[t].phase.began, s.clock, None)];
    hide Overwrites, Stored, MayEvict, Settle, LockInv;
  }

  lemma FetchErrShape<V(!new), R(!new)>(cfg: Config<V, R>, s: State<V, R>, t: TaskId, at: real)
    requires LockInv(s) && TimeInv(s) && Enabled(cfg, s, FetchErr(t, at))
    ensures var s' := FetchErrStep(s, t, at);
      LockInv(s') && |s'.log| == |s.log| + 1 && Finishes(cfg, s, s', s'.log[|s.log|])
  {
    assert Requests(s)[|s.log|] == Pending(s)[0];
  }

  lemma CancelShape<V(!new), R(!new)>(cfg: Config<V, R>, s: State<V, R>, t: TaskId, at: real)
    requires LockInv(s) && TimeInv(s) && Enabled(cfg, s, Cancel(t, at))
    ensures var s' := CancelStep(s, t, at);
      LockInv(s') && (Quiet(s, s') || (|s'.log| == |s.log| + 1 && Finishes(cfg, s, s', s'.log[|s.log|])))
  {
    if s.tasks[t].phase.Fetching? {
      assert Requests(s)[|s.log|] == Pending(s)[0];
    } else {
      assert Quiet(s, CancelStep(s, t, at));
    }
  }

  ghost predicate Shape<V(!new), R(!new)>(cfg: Config<V, R>, s: State<V, R>, s': State<V, R>) {
    || Quiet(s, s')
    || Issues(cfg, s, s')
    || (|s'.log| == |s.log| + 1 && Finishes(cfg, s, s', s'.log[|s.log|]))
  }

  /** Every event has one of the three shapes, and keeps the lock discipline. */
  lemma StepShape<V(!new), R(!new)>(cfg: Config<V, R>, s: State<V, R>, e: Event<R>)
    requires LockInv(s) && TimeInv(s) && Enabled(cfg, s, e)
    ensures LockInv(Apply(cfg, s, e)) && Shape(cfg, s, Apply(cfg, s, e))
  {
    match e
    case Start(t, uri, req, at) => StartShape(cfg, s, t, uri, req, at);
    case Grant(t, readAt, clockAt) => GrantShape(cfg, s, t, readAt, clockAt);
    case FetchOk(t, served, at, evicted) => FetchOkShape(cfg, s, t, served, at, evicted);
    case FetchErr(t, at) => FetchErrShape(cfg, s, t, at);
    case Cancel(t, at) => CancelShape(cfg, s, t, at);
  }

  // ---------------------------------------------------------------- preservation

  lemma TimeStep<V(!new), R(!new)>(cfg: Config<V, R>, s: State<V, R>, s': State<V, R>)
    requires Sequential(Requests(s), s.clock) && Shape(cfg, s, s')
    ensures Sequential(Requests(s'), s'.clock)
  {
    assert forall i :: 0 <= i < |s.log| ==> Requests(s)[i] == s.log[i];
    assert forall i :: 0 <= i < |Pending(s)| ==> Requests(s)[|s.log| + i] == Pending(s)[i];
  }

  lemma RecordHistory<V(!new), R(!new)>(cfg: Config<V, R>, log: seq<Fetch<V>>, lastOk: map<Uri, Fetch<V>>, f: Fetch<V>)
    requires History(cfg, log, lastOk)
    requires forall g :: g in log ==> g.ended <= f.began
    requires f.result.Some? ==> cfg.source(f.uri, f.served) == f.result
    ensures History(cfg, log + [f], if f.result.Some? then lastOk[f.uri := f] else lastOk)
  {
  }

  lemma LogBefore<V(!new), R(!new)>(s: State<V, R>)
    requires Sequential(Requests(s), s.clock)
    ensures Pending(s) != [] ==> forall g :: g in s.log ==> g.ended <= Pending(s)[0].began
  {
    if Pending(s) != [] {
      assert Requests(s)[|s.log|] == Pending(s)[0];
      assert forall i :: 0 <= i < |s.log| ==> Requests(s)[i] == s.log[i];
    }
  }

  lemma HistoryStep<V(!new), R(!new)>(cfg: Config<V, R>, s: State<V, R>, s': State<V, R>)
    requires Sequential(Requests(s), s.clock) && HistoryInv(cfg, s) && Shape(cfg, s, s')
    ensures HistoryInv(cfg, s')
  {
    if |s'.log| > |s.log| {
      LogBefore(s);
      RecordHistory(cfg, s.log, s.lastOk, s'.log[|s.log|]);
    }
  }

  lemma CacheStep<V(!new), R(!new)>(cfg: Config<V, R>, s: State<V, R>, s': State<V, R>)
    requires CacheInv(cfg, s) && Shape(cfg, s, s')
    ensures CacheInv(cfg, s')
  {
  }

  lemma SpacingStep<V(!new), R(!new)>(cfg: Config<V, R>, s: State<V, R>, s': State<V, R>)
    requires Positive(cfg) && Shape(cfg, s, s')
    requires Spaced(Requests(s), cfg.cooldown) && Stamps(Requests(s), s.lastForced)
    ensures Spaced(Requests(s'), cfg.cooldown) && Stamps(Requests(s'), s'.lastForced)
  {
    var fs, fs' := Requests(s), Requests(s');
    if Issues(cfg, s, s') {
      var f := Pending(s')[0];
      assert fs' == fs + [f];
    } else {
      assert |fs'| == |fs|;
      forall i | 0 <= i < |fs|
        ensures fs'[i].uri == fs[i].uri && fs'[i].kind == fs[i].kind && fs'[i].began == fs[i].began
      {
      }
    }
  }

  lemma StampSourceStep<V(!new), R(!new)>(cfg: Config<V, R>, s: State<V, R>, s': State<V, R>, u: Uri)
    requires Shape(cfg, s, s') && StampSource(s, u)
    ensures StampSource(s', u)
  {
  }

  /** A fill issued now is a lifetime after every success, since no success is live in the cache. */
  lemma IssueFillsSpaced<V(!new), R(!new)>(cfg: Config<V, R>, s: State<V, R>, g: Fetch<V>)
    requires HistoryInv(cfg, s) && CacheInv(cfg, s) && s.lastOk.Keys == s.cache.Keys && Positive(cfg)
    requires forall i :: 0 <= i < |s.log| ==> s.log[i].began <= s.log[i].ended
    requires FillsSpaced(s.log, cfg.ttl)
    requires g.kind == Fill && g.uri in s.cache ==> s.cache[g.uri].expires <= g.began
    ensures FillsSpaced(s.log + [g], cfg.ttl)
  {
    forall i | 0 <= i < |s.log| && s.log[i].uri == g.uri && s.log[i].result.Some? && g.kind == Fill
      ensures g.began >= s.log[i].ended + cfg.ttl
    {
      assert s.log[i] in s.log;
    }
  }

  /** The last request may finish: a success does not disturb the spacing of those before it. */
  lemma FinishFillsSpaced<V(!new)>(fs: seq<Fetch<V>>, f: Fetch<V>, ttl: real)
    requires fs != [] && FillsSpaced(fs, ttl)
    requires f.uri == fs[|fs| - 1].uri && f.kind == fs[|fs| - 1].kind && f.began == fs[|fs| - 1].began
    ensures FillsSpaced(fs[..|fs| - 1] + [f], ttl)
  {
  }

  lemma FillSpacingStep<V(!new), R(!new)>(cfg: Config<V, R>, s: State<V, R>, s': State<V, R>)
    requires Positive(cfg) && HistoryInv(cfg, s) && CacheInv(cfg, s) && Shape(cfg, s, s')
    requires Sequential(Requests(s), s.clock)
    requires s.lastOk.Keys == s.cache.Keys && FillsSpaced(Requests(s), cfg.ttl)
    ensures FillsSpaced(Requests(s'), cfg.ttl)
  {
    if Pending(s) != [] {
      assert Requests(s)[..|s.log|] == s.log && Requests(s)[|s.log|] == Pending(s)[0];
      FinishFillsSpaced(Requests(s), Requests(s')[|s.log|], cfg.ttl);
      assert Requests(s') == s.log + [Requests(s')[|s.log|]];
    } else if Pending(s') != [] {
      assert Requests(s) == s.log && Requests(s') == s.log + [Pending(s')[0]];
      IssueFillsSpaced(cfg, s, Pending(s')[0]);
    } else {
      assert Requests(s') == Requests(s);
    }
  }

  lemma FillKeysStep<V(!new), R(!new)>(cfg: Config<V, R>, s: State<V, R>, s': State<V, R>, uris: set<Uri>)
    requires Shape(cfg, s, s')
    requires s.lastOk.Keys == s.cache.Keys <= uris && |uris| <= cfg.cacheSize
    requires Pending(s) != [] ==> Pending(s)[0].uri in uris
    ensures s'.lastOk.Keys == s'.cache.Keys <= uris
  {
    if !Quiet(s, s') && !Issues(cfg, s, s') {
      var f := s'.log[|s.log|];
      assert Finishes(cfg, s, s', f);
      UriCount(s.cache, f.uri, uris);
    }
  }

  lemma UriCount<V>(c: Cache<V>, uri: Uri, uris: set<Uri>)
    requires c.Keys <= uris && uri in uris
    ensures |c.Keys + {uri}| <= |uris|
  {
    SubsetSize(c.Keys + {uri}, uris);
  }

  // ---------------------------------------------------------------- tasks

  /** Tasks that the event does not name keep their invariant, as the log only grows. */
  lemma OtherTask<V(!new), R(!new)>(cfg: Config<V, R>, s: State<V, R>, s': State<V, R>, task: Task<V, R>)
    requires TaskInv(cfg, s, task) && Shape(cfg, s, s')
    ensures TaskInv(cfg, s', task)
  {
    assert forall f :: f in s.log ==> f in s'.log;
  }

  /** What a live cache entry was fetched by, and that it suits a settled lookup. */
  lemma CachedSupply<V(!new), R(!new)>(cfg: Config<V, R>, s: State<V, R>, task: Task<V, R>, readAt: real, clockAt: real)
    requires Positive(cfg) && Inv(cfg, s) && s.clock <= readAt && task.began <= readAt
    requires Live(s.cache, task.uri, readAt).Some?
    ensures var o := Latest(s.lastOk, task.uri);
      Supplied(cfg, s, task, o, readAt) && o.value.result == Live(s.cache, task.uri, readAt)
  {
    var f := s.lastOk[task.uri];
    var i :| 0 <= i < |s.log| && s.log[i] == f;
    assert Requests(s)[i] == f;
  }

  lemma SettleInv<V(!new), R(!new)>(cfg: Config<V, R>, s: State<V, R>, task: Task<V, R>, forced: bool, value: V,
                                    origin: Option<Fetch<V>>, blocker: Option<Fetch<V>>, at: real)
    requires Supplied(cfg, s, task, origin, at) && origin.value.result == Some(value)
    requires task.issued <= if forced then 2 else 1
    requires forced ==> Explained(cfg, s, task, NotFound(origin, blocker, at))
    ensures TaskInv(cfg, s, task.(phase := Settle(cfg, task, forced, value, origin, blocker, at)))
  {
  }

  /** A throttled refresh has a completed refresh behind it, and the cache is at least as recent. */
  lemma ThrottleExplained<V(!new), R(!new)>(cfg: Config<V, R>, s: State<V, R>, task: Task<V, R>, readAt: real,
          clockAt: real)
    requires Positive(cfg) && Inv(cfg, s) && s.holder == None && readAt <= clockAt
    requires task.uri in s.cache && task.uri in s.lastForced && clockAt - s.lastForced[task.uri] < cfg.cooldown
    ensures Latest(s.lastOk, task.uri).Some?
    ensures Explained(cfg, s, task, NotFound(Latest(s.lastOk, task.uri), Latest(s.lastRefresh, task.uri), readAt))
  {
    assert StampSource(s, task.uri);
    var r := s.lastRefresh[task.uri];
    var i :| 0 <= i < |s.log| && s.log[i] == r;
    assert Requests(s)[i] == r;
    assert s.lastOk[task.uri] in s.log;
  }

  lemma StartTask<V(!new), R(!new)>(cfg: Config<V, R>, s: State<V, R>, t: TaskId, uri: Uri, req: R, at: real)
    requires Positive(cfg) && Inv(cfg, s) && Enabled(cfg, s, Start(t, uri, req, at))
    ensures var s' := StartStep(cfg, s, t, uri, req, at); TaskInv(cfg, s', s'.tasks[t]) && s'.tasks[t].began <= at
  {
    var s' := StartStep(cfg, s, t, uri, req, at);
    var task := Task(uri, req, at, Waiting(false), 0);
    if Live(s.cache, uri, at).Some? {
      CachedSupply(cfg, s, task, at, at);
      SettleInv(cfg, s', task, false, Live(s.cache, uri, at).value, Latest(s.lastOk, uri), None, at);
    }
  }

  lemma GrantTask<V(!new), R(!new)>(cfg: Config<V, R>, s: State<V, R>, t: TaskId, readAt: real, clockAt: real)
    requires Positive(cfg) && Inv(cfg, s) && Enabled(cfg, s, Grant(t, readAt, clockAt))
    ensures var s' := GrantStep(cfg, s, t, readAt, clockAt);
      TaskInv(cfg, s', s'.tasks[t]) && s'.tasks[t].began <= clockAt
  {
    var s' := GrantStep(cfg, s, t, readAt, clockAt);
    var task := s.tasks[t];
    var d := Decide(s.cache, s.lastForced, cfg.cooldown, task.uri, task.phase.forced, readAt, clockAt);
    assert TaskInv(cfg, s, task);
    if d.UseCached? {
      CachedSupply(cfg, s, task, readAt, clockAt);
      if task.phase.forced {
        ThrottleExplained(cfg, s, task, readAt, clockAt);
      }
      SettleInv(cfg, s', task, task.phase.forced, d.value, Latest(s.lastOk, task.uri),
                if d.throttled then Latest(s.lastRefresh, task.uri) else None, readAt);
    }
  }

  lemma FetchOkTask<V(!new), R(!new)>(cfg: Config<V, R>, s: State<V, R>, t: TaskId, served: real, at: real,
          evicted: set<Uri>)
    requires Positive(cfg) && Inv(cfg, s) && Enabled(cfg, s, FetchOk(t, served, at, evicted))
    ensures var s' := FetchOkStep(cfg, s, t, served, at, evicted);
      TaskInv(cfg, s', s'.tasks[t]) && s'.tasks[t].began <= at
  {
    var s' := FetchOkStep(cfg, s, t, served, at, evicted);
    var task := s.tasks[t];
    var f := s'.log[|s.log|];
    assert TaskInv(cfg, s, task) && f in s'.log;
    SettleInv(cfg, s', task, task.phase.forced, f.result.value, Some(f), None, at);
  }

  lemma StopTask<V(!new), R(!new)>(cfg: Config<V, R>, s: State<V, R>, t: TaskId, at: real, cancelled: bool)
    requires Inv(cfg, s) && Enabled(cfg, s, if cancelled then Cancel(t, at) else FetchErr(t, at))
    ensures var s' := if cancelled then CancelStep(s, t, at) else FetchErrStep(s, t, at);
      TaskInv(cfg, s', s'.tasks[t]) && s'.tasks[t].began <= at
  {
    assert TaskInv(cfg, s, s.tasks[t]);
    if !cancelled {
      var s' := FetchErrStep(s, t, at);
      assert s'.log[|s.log|] in s'.log;
    }
  }

  lemma TasksStep<V(!new), R(!new)>(cfg: Config<V, R>, s: State<V, R>, e: Event<R>)
    requires Positive(cfg) && Inv(cfg, s) && Enabled(cfg, s, e) && Shape(cfg, s, Apply(cfg, s, e))
    ensures TasksInv(cfg, Apply(cfg, s, e))
    ensures var s' := Apply(cfg, s, e); forall t :: t in s'.tasks ==> s'.tasks[t].began <= s'.clock
  {
    NamedTaskStep(cfg, s, e);
    TasksFrame(cfg, s, e);
    hide Apply, Enabled, Shape, TaskInv;
    var s' := Apply(cfg, s, e);
    forall t | t in s'.tasks
      ensures TaskInv(cfg, s', s'.tasks[t]) && s'.tasks[t].began <= s'.clock
    {
      if t != e.t {
        OtherTask(cfg, s, s', s.tasks[t]);
        ClockAdvances(cfg, s, s');
      }
    }
  }

  lemma ClockAdvances<V(!new), R(!new)>(cfg: Config<V, R>, s: State<V, R>, s': State<V, R>)
    requires Shape(cfg, s, s')
    ensures s.clock <= s'.clock
  {
  }

  lemma NamedTaskStep<V(!new), R(!new)>(cfg: Config<V, R>, s: State<V, R>, e: Event<R>)
    requires Positive(cfg) && Inv(cfg, s) && Enabled(cfg, s, e)
    ensures var s' := Apply(cfg, s, e);
      e.t in s'.tasks && TaskInv(cfg, s', s'.tasks[e.t]) && s'.tasks[e.t].began <= s'.clock
  {
    hide TaskInv, Inv;
    match e {
      case Start(t, uri, req, at) => StartTask(cfg, s, t, uri, req, at);
      case Grant(t, readAt, clockAt) => GrantTask(cfg, s, t, readAt, clockAt);
      case FetchOk(t, served, at, evicted) => FetchOkTask(cfg, s, t, served, at, evicted);
      case FetchErr(t, at) => StopTask(cfg, s, t, at, false);
      case Cancel(t, at) => StopTask(cfg, s, t, at, true);
    }
  }

  /** Every event keeps the whole invariant. */
  lemma InvStep<V(!new), R(!new)>(cfg: Config<V, R>, s: State<V, R>, e: Event<R>)
    requires Positive(cfg) && Inv(cfg, s) && Enabled(cfg, s, e)
    ensures Inv(cfg, Apply(cfg, s, e)) && Shape(cfg, s, Apply(cfg, s, e))
  {
    var s' := Apply(cfg, s, e);
    StepShape(cfg, s, e);
    TimeStep(cfg, s, s');
    HistoryStep(cfg, s, s');
    CacheStep(cfg, s, s');
    SpacingStep(cfg, s, s');
    forall u ensures StampSource(s', u) { StampSourceStep(cfg, s, s', u); }
    TasksStep(cfg, s, e);
  }

  lemma FillInvStep<V(!new), R(!new)>(cfg: Config<V, R>, s: State<V, R>, e: Event<R>, uris: set<Uri>)
    requires Positive(cfg) && Inv(cfg, s) && Enabled(cfg, s, e) && |uris| <= cfg.cacheSize
    requires FillInv(cfg, s, uris) && Within(s, uris)
    ensures FillInv(cfg, Apply(cfg, s, e), uris)
  {
    var s' := Apply(cfg, s, e);
    InvStep(cfg, s, e);
    FillSpacingStep(cfg, s, s');
    FillKeysStep(cfg, s, s', uris);
  }
}

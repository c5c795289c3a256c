/**
 The cache protocol shared by the JWKS resolver and the discovery client: a
 TTL cache read without a lock, a lock around the second read and the fetch,
 and, for callers that are not satisfied by what they got, one forced refresh
 throttled by a per-URI cooldown.

 The protocol is a state machine. One event is one stretch of code between two
 suspension points, so events of different tasks interleave arbitrarily. Every
 clock reading of the code is a parameter of its event; the clock never runs
 backwards but may advance between any two readings.
 */
module LockedTtlCache {
  import opened Common

  type Uri = string
  type TaskId = nat

  datatype Entry<+V> = Entry(value: V, expires: real)
  type Cache<+V> = map<Uri, Entry<V>>

  /** Why a fetch was issued: nothing live was cached, or a live document was refreshed. */
  datatype Kind = Fill | Refresh

  /** One finished fetch. `served` is the instant at which the provider read its document. */
  datatype Fetch<+V> = Fetch(uri: Uri, kind: Kind, began: real, served: real, ended: real, result: Option<V>)

  datatype Outcome<+V> =
    | Found(value: V, origin: Option<Fetch<V>>, at: real)
    | NotFound(origin: Option<Fetch<V>>, throttledBy: Option<Fetch<V>>, at: real)
    | FetchFailed(attempt: Fetch<V>)
    | Cancelled

  datatype Phase<+V> =
    | Waiting(forced: bool)
    | Fetching(forced: bool, kind: Kind, began: real)
    | Done(outcome: Outcome<V>)

  datatype Task<+V, +R> = Task(uri: Uri, req: R, began: real, phase: Phase<V>, issued: nat)

  /**
   The environment and the constructor arguments. `source(uri, t)` is what a
   fetch served at instant `t` decodes to, None when the document is rejected.
   */
  datatype Config<!V, !R> = Config(
    ttl: real,
    cooldown: real,
    cacheSize: nat,
    source: (Uri, real) -> Option<V>,
    accepts: (R, V) -> bool)

  /** `log`, `lastOk` and `lastRefresh` are history: no step reads them to decide anything. */
  datatype State<+V, +R> = State(
    clock: real,
    cache: Cache<V>,
    lastForced: map<Uri, real>,
    holder: Option<TaskId>,
    tasks: map<TaskId, Task<V, R>>,
    log: seq<Fetch<V>>,
    lastOk: map<Uri, Fetch<V>>,
    lastRefresh: map<Uri, Fetch<V>>)

  datatype Event<+R> =
    | Start(t: TaskId, uri: Uri, req: R, at: real)
    | Grant(t: TaskId, readAt: real, clockAt: real)
    | FetchOk(t: TaskId, served: real, at: real, evicted: set<Uri>)
    | FetchErr(t: TaskId, at: real)
    | Cancel(t: TaskId, at: real)

  // ---------------------------------------------------------------- the code's own decisions

  /** `TTLCache.get`: an entry is visible strictly before its expiry. */
  function Live<V>(cache: Cache<V>, uri: Uri, now: real): Option<V> {
    if uri in cache && now < cache[uri].expires then Some(cache[uri].value) else None
  }

  datatype Decision<+V> = UseCached(value: V, throttled: bool) | IssueFetch(kind: Kind)

  /** The body of the lock: reuse, or fetch, and whether the refresh stamp is written. */
  function Decide<V>(cache: Cache<V>, lastForced: map<Uri, real>, cooldown: real,
                     uri: Uri, forced: bool, readAt: real, clockAt: real): Decision<V>
  {
    match Live(cache, uri, readAt)
    case None => IssueFetch(Fill)
    case Some(value) =>
      if !forced then UseCached(value, false)
      else if uri in lastForced && clockAt - lastForced[uri] < cooldown then UseCached(value, true)
      else IssueFetch(Refresh)
  }

  function Stamped<V>(lastForced: map<Uri, real>, uri: Uri, d: Decision<V>, clockAt: real): map<Uri, real> {
    if d == IssueFetch(Refresh) then lastForced[uri := clockAt] else lastForced
  }

  /** A store may push other entries out, but only when the cache would overflow. */
  predicate MayEvict<V>(cache: Cache<V>, uri: Uri, evicted: set<Uri>, cacheSize: nat) {
    uri !in evicted && (evicted != {} ==> |cache.Keys + {uri}| > cacheSize)
  }

  function Stored<V>(cache: Cache<V>, uri: Uri, value: V, at: real, ttl: real, evicted: set<Uri>): Cache<V> {
    (cache - evicted)[uri := Entry(value, at + ttl)]
  }

  // ---------------------------------------------------------------- steps

  ghost function Init<V, R>(clock: real): State<V, R> {
    State(clock, map[], map[], None, map[], [], map[], map[])
  }

  ghost function Latest<V>(history: map<Uri, Fetch<V>>, uri: Uri): Option<Fetch<V>> {
    if uri in history then Some(history[uri]) else None
  }

  /** What a caller does with the document a lookup handed to it. */
  ghost function Settle<V(!new), R(!new)>(cfg: Config<V, R>, task: Task<V, R>, forced: bool, value: V,
                              origin: Option<Fetch<V>>, throttledBy: Option<Fetch<V>>, at: real): Phase<V>
  {
    if cfg.accepts(task.req, value) then Done(Found(value, origin, at))
    else if forced then Done(NotFound(origin, throttledBy, at))
    else Waiting(true)
  }

  ghost predicate Enabled<V(!new), R(!new)>(cfg: Config<V, R>, s: State<V, R>, e: Event<R>) {
    match e
    case Start(t, uri, req, at) =>
      s.clock <= at && t !in s.tasks
    case Grant(t, readAt, clockAt) =>
      s.clock <= readAt <= clockAt && s.holder == None && t in s.tasks && s.tasks[t].phase.Waiting?
    case FetchOk(t, served, at, evicted) =>
      && s.clock <= at && s.holder == Some(t) && t in s.tasks && s.tasks[t].phase.Fetching?
      && s.tasks[t].phase.began <= served <= at
      && cfg.source(s.tasks[t].uri, served).Some?
      && MayEvict(s.cache, s.tasks[t].uri, evicted, cfg.cacheSize)
    case FetchErr(t, at) =>
      s.clock <= at && s.holder == Some(t) && t in s.tasks && s.tasks[t].phase.Fetching?
    case Cancel(t, at) =>
      s.clock <= at && t in s.tasks && !s.tasks[t].phase.Done?
  }

  /** The record of the fetch that task `t` has in flight, had it ended at `at` with `result`. */
  ghost function Attempt<V, R>(task: Task<V, R>, served: real, at: real, result: Option<V>): Fetch<V>
    requires task.phase.Fetching?
  {
    Fetch(task.uri, task.phase.kind, task.phase.began, served, at, result)
  }

  ghost function Recorded<V, R>(s: State<V, R>, f: Fetch<V>): State<V, R> {
    s.(log := s.log + [f],
       lastOk := if f.result.Some? then s.lastOk[f.uri := f] else s.lastOk,
       lastRefresh := if f.kind.Refresh? then s.lastRefresh[f.uri := f] else s.lastRefresh)
  }

  ghost function StartStep<V(!new), R(!new)>(cfg: Config<V, R>, s: State<V, R>, t: TaskId, uri: Uri, req: R,
          at: real): State<V, R>
  {
    var task := Task(uri, req, at, Waiting(false), 0);
    var hit := Live(s.cache, uri, at);
    var phase := if hit.Some? then Settle(cfg, task, false, hit.value, Latest(s.lastOk, uri), None, at)
                 else Waiting(false);
    s.(clock := at, tasks := s.tasks[t := task.(phase := phase)])
  }

  ghost function GrantStep<V(!new), R(!new)>(cfg: Config<V, R>, s: State<V, R>, t: TaskId, readAt: real,
          clockAt: real): State<V, R>
    requires t in s.tasks && s.tasks[t].phase.Waiting?
  {
    var task := s.tasks[t];
    var d := Decide(s.cache, s.lastForced, cfg.cooldown, task.uri, task.phase.forced, readAt, clockAt);
    match d
    case UseCached(value, throttled) =>
      var blocker := if throttled then Latest(s.lastRefresh, task.uri) else None;
      var phase := Settle(cfg, task, task.phase.forced, value, Latest(s.lastOk, task.uri), blocker, readAt);
      s.(clock := clockAt, tasks := s.tasks[t := task.(phase := phase)])
    case IssueFetch(kind) =>
      s.(clock := clockAt,
         lastForced := Stamped(s.lastForced, task.uri, d, clockAt),
         holder := Some(t),
         tasks := s.tasks[t := task.(phase := Fetching(task.phase.forced, kind, clockAt), issued := task.issued + 1)])
  }

  ghost function FetchOkStep<V(!new), R(!new)>(cfg: Config<V, R>, s: State<V, R>, t: TaskId, served: real,
          at: real, evicted: set<Uri>): State<V, R>
    requires t in s.tasks && s.tasks[t].phase.Fetching? && cfg.source(s.tasks[t].uri, served).Some?
  {
    var task := s.tasks[t];
    var value := cfg.source(task.uri, served).value;
    var f := Attempt(task, served, at, Some(value));
    Recorded(s, f).(
      clock := at,
      cache := Stored(s.cache, task.uri, value, at, cfg.ttl, evicted),
      holder := None,
      tasks := s.tasks[t := task.(phase := Settle(cfg, task, task.phase.forced, value, Some(f), None, at))])
  }

  ghost function FetchErrStep<V, R>(s: State<V, R>, t: TaskId, at: real): State<V, R>
    requires t in s.tasks && s.tasks[t].phase.Fetching?
  {
    var task := s.tasks[t];
    var f := Attempt(task, task.phase.began, at, None);
    Recorded(s, f).(clock := at, holder := None, tasks := s.tasks[t := task.(phase := Done(FetchFailed(f)))])
  }

  /** Cancelling a task that holds the lock abandons its fetch and releases the lock. */
  ghost function CancelStep<V, R>(s: State<V, R>, t: TaskId, at: real): State<V, R>
    requires t in s.tasks
  {
    var task := s.tasks[t];
    var base := if task.phase.Fetching?
                then Recorded(s, Attempt(task, task.phase.began, at, None)).(holder := None)
                else s;
    base.(clock := at, tasks := s.tasks[t := task.(phase := Done(Cancelled))])
  }

  ghost function Apply<V(!new), R(!new)>(cfg: Config<V, R>, s: State<V, R>, e: Event<R>): State<V, R>
    requires Enabled(cfg, s, e)
  {
    match e
    case Start(t, uri, req, at) => StartStep(cfg, s, t, uri, req, at)
    case Grant(t, readAt, clockAt) => GrantStep(cfg, s, t, readAt, clockAt)
    case FetchOk(t, served, at, evicted) => FetchOkStep(cfg, s, t, served, at, evicted)
    case FetchErr(t, at) => FetchErrStep(s, t, at)
    case Cancel(t, at) => CancelStep(s, t, at)
  }

  /** The state after a run, None when some event was not possible where it occurs. */
  ghost function Exec<V(!new), R(!new)>(cfg: Config<V, R>, clock: real, run: seq<Event<R>>): Option<State<V, R>> {
    if run == [] then Some(Init(clock))
    else
      var before := Exec(cfg, clock, run[..|run| - 1]);
      var e := run[|run| - 1];
      if before.Some? && Enabled(cfg, before.value, e) then Some(Apply(cfg, before.value, e)) else None
  }

  ghost predicate Reachable<V(!new), R(!new)>(cfg: Config<V, R>, s: State<V, R>) {
    exists clock: real, run: seq<Event<R>> :: Exec(cfg, clock, run) == Some(s)
  }
}

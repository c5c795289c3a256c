/**
 Concurrent requests through the middleware. The context variable is a binding per
 asyncio task, copied when a task starts another one; contexts are shared objects.
 The verifier finds its context through the binding of the task it runs in, the send
 wrapper through its closure. Requests interleave arbitrarily at every step.
 */
module RequestIsolation {
  import opened ChallengeHeader
  import opened Common
  import opened McpPrincipal
  import opened McpToolAuthorization
  import opened ProgressiveHttp
  import opened SortedScopes
  import opened TokenVerifier

  type TaskId = nat
  type RequestId = nat
  type ContextId = nat

  datatype Context = Context(isMcpRequest: bool, target: Option<string>, required: seq<string>)

  /**
   One activation of the middleware: its closure, and the binding it will restore.
   `outerWork` is history like `worksFor`: the request that binding belongs to.
   */
  datatype Activation = Activation(
    task: TaskId, context: ContextId, outer: Option<ContextId>, outerWork: Option<RequestId>,
    replaced: bool, out: seq<Message>, running: bool)

  /** `worksFor` is history: the request that a task's current code was entered or started for. */
  datatype Machine = Machine(
    contexts: map<ContextId, Context>,
    binding: map<TaskId, ContextId>,
    requests: map<RequestId, Activation>,
    worksFor: map<TaskId, RequestId>)

  datatype Event =
    | Enter(r: RequestId, t: TaskId, c: ContextId, isMcpRequest: bool, target: Option<string>)
    | Fork(t: TaskId, child: TaskId)
    | Verify(t: TaskId, delegated: Option<AccessToken>)
    | Send(r: RequestId, m: Message)
    | Exit(r: RequestId)

  ghost const START := Machine(map[], map[], map[], map[])

  /** `ContextVar.get()` with its default. */
  function Current(s: Machine, t: TaskId): Option<ContextId> {
    if t in s.binding then Some(s.binding[t]) else None
  }

  /** The request a task works for. */
  function Serving(s: Machine, t: TaskId): Option<RequestId> {
    if t in s.worksFor then Some(s.worksFor[t]) else None
  }

  function Bind<T>(binding: map<TaskId, T>, t: TaskId, c: Option<T>): map<TaskId, T> {
    if c.Some? then binding[t := c.value] else binding - {t}
  }

  /**
   A request enters in any task, also one that carries the binding of another request, with a
   context object of its own; a started task is new; calls return innermost first. Nothing else
   is asked: wrappers may send, and tasks may verify, long after their request has left.
   */
  ghost predicate Enabled(s: Machine, e: Event) {
    match e
    case Enter(r, t, c, _, _) => r !in s.requests && c !in s.contexts
    case Fork(t, child) => child !in s.worksFor && child !in s.binding && child != t
    case Verify(t, _) => Current(s, t).Some? ==> Current(s, t).value in s.contexts
    case Send(r, _) => r in s.requests && s.requests[r].context in s.contexts
    case Exit(r) => r in s.requests && s.requests[r].running && Serving(s, s.requests[r].task) == Some(r)
  }

  ghost function Apply(v: Settings, metadataUrl: string, s: Machine, e: Event): Machine
    requires Enabled(s, e)
  {
    match e
    case Enter(r, t, c, isMcp, target) =>
      s.(contexts := s.contexts[c := Context(isMcp, target, [])],
         binding := Bind(s.binding, t, Some(c)),
         requests := s.requests[r := Activation(t, c, Current(s, t), Serving(s, t), false, [], true)],
         worksFor := Bind(s.worksFor, t, Some(r)))
    case Fork(t, child) =>
      s.(binding := Bind(s.binding, child, Current(s, t)),
         worksFor := Bind(s.worksFor, child, Serving(s, t)))
    case Verify(t, delegated) =>
      if Current(s, t).None? then s
      else
        var c := Current(s, t).value;
        var context := s.contexts[c];
        s.(contexts := s.contexts[c := context.(
           required := Judged(v, context.isMcpRequest, context.target, context.required, delegated))])
    case Send(r, m) =>
      var a := s.requests[r];
      var (replaced, out) := Forward(s.contexts[a.context].required, a.replaced, metadataUrl, m);
      s.(requests := s.requests[r := a.(replaced := replaced, out := a.out + out)])
    case Exit(r) =>
      var a := s.requests[r];
      s.(binding := Bind(s.binding, a.task, a.outer),
         requests := s.requests[r := a.(running := false)],
         worksFor := Bind(s.worksFor, a.task, a.outerWork))
  }

  ghost function Exec(v: Settings, metadataUrl: string, run: seq<Event>): Option<Machine> {
    if run == [] then Some(START)
    else
      var before := Exec(v, metadataUrl, run[..|run| - 1]);
      var e := run[|run| - 1];
      if before.Some? && Enabled(before.value, e) then Some(Apply(v, metadataUrl, before.value, e)) else None
  }

  // ---------------------------------------------------------------- one request's share of a run

  /** What an event means to request `r`: verifications count for the request their task works for. */
  ghost function ShareOf(s: Machine, e: Event, r: RequestId): seq<Own> {
    match e
    case Enter(r', _, _, isMcp, target) => if r' == r then [Entered(isMcp, target)] else []
    case Fork(_, _) => []
    case Verify(t, delegated) => if Serving(s, t) == Some(r) then [Verified(delegated)] else []
    case Send(r', m) => if r' == r then [Sent(m)] else []
    case Exit(_) => []
  }

  ghost function Share(v: Settings, metadataUrl: string, run: seq<Event>, r: RequestId): seq<Own>
    requires Exec(v, metadataUrl, run).Some?
  {
    if run == [] then []
    else
      var front := run[..|run| - 1];
      Share(v, metadataUrl, front, r) + ShareOf(Exec(v, metadataUrl, front).value, run[|run| - 1], r)
  }

  // ---------------------------------------------------------------- invariant

  ghost predicate OwnContexts(s: Machine) {
    && (forall r :: r in s.requests ==> s.requests[r].context in s.contexts)
    && (forall q, r :: q in s.requests && r in s.requests && q != r ==> s.requests[q].context != s.requests[r].context)
  }

  /** The context of the request, if there is one. */
  ghost function ContextOf(s: Machine, r: Option<RequestId>): Option<ContextId>
    requires r.Some? ==> r.value in s.requests
  {
    if r.Some? then Some(s.requests[r.value].context) else None
  }

  /** A task sees a context exactly when it works for a request, and then that request's. */
  ghost predicate BindingsFollowRequests(s: Machine) {
    && (forall t :: t in s.worksFor ==> s.worksFor[t] in s.requests)
    && (forall t :: Current(s, t) == ContextOf(s, Serving(s, t)))
  }

  /** What an activation will restore belongs to the request it interrupted. */
  ghost predicate OuterFollows(s: Machine) {
    forall r :: r in s.requests ==> RestoresWork(s, s.requests[r])
  }

  ghost predicate RestoresWork(s: Machine, a: Activation) {
    && (a.outerWork.Some? ==> a.outerWork.value in s.requests)
    && a.outer == ContextOf(s, a.outerWork)
  }

  ghost predicate Inv(s: Machine) {
    OwnContexts(s) && BindingsFollowRequests(s) && OuterFollows(s)
  }

  /** The state of a request as it would be had it run alone. */
  ghost function ViewOf(s: Machine, r: RequestId): Local
    requires r in s.requests && s.requests[r].context in s.contexts
  {
    var a := s.requests[r];
    var c := s.contexts[a.context];
    Local(c.isMcpRequest, c.target, c.required, a.replaced, a.out)
  }

  lemma EnterKeeps(v: Settings, metadataUrl: string, s: Machine, e: Event)
    requires Inv(s) && Enabled(s, e) && e.Enter?
    ensures Inv(Apply(v, metadataUrl, s, e))
  {
    hide OwnContexts, BindingsFollowRequests, OuterFollows;
    EnterContexts(v, metadataUrl, s, e);
    EnterBindings(v, metadataUrl, s, e);
    EnterOuter(v, metadataUrl, s, e);
  }

  lemma EnterContexts(v: Settings, metadataUrl: string, s: Machine, e: Event)
    requires Inv(s) && Enabled(s, e) && e.Enter?
    ensures OwnContexts(Apply(v, metadataUrl, s, e))
  {
    hide BindingsFollowRequests, OuterFollows;
  }

  lemma EnterBindings(v: Settings, metadataUrl: string, s: Machine, e: Event)
    requires Inv(s) && Enabled(s, e) && e.Enter?
    ensures BindingsFollowRequests(Apply(v, metadataUrl, s, e))
  {
    hide OwnContexts, OuterFollows;
    var s' := Apply(v, metadataUrl, s, e);
    forall t ensures Current(s', t) == ContextOf(s', Serving(s', t)) {
      assert t != e.t ==> Current(s', t) == Current(s, t) && Serving(s', t) == Serving(s, t);
    }
  }

  lemma EnterOuter(v: Settings, metadataUrl: string, s: Machine, e: Event)
    requires Inv(s) && Enabled(s, e) && e.Enter?
    ensures OuterFollows(Apply(v, metadataUrl, s, e))
  {
    hide OwnContexts;
    var s' := Apply(v, metadataUrl, s, e);
    forall r | r in s'.requests ensures RestoresWork(s', s'.requests[r]) {
      assert r != e.r ==> RestoresWork(s, s.requests[r]);
    }
  }

  lemma ForkKeeps(v: Settings, metadataUrl: string, s: Machine, e: Event)
    requires Inv(s) && Enabled(s, e) && e.Fork?
    ensures Inv(Apply(v, metadataUrl, s, e))
  {
    hide OwnContexts;
    var s' := Apply(v, metadataUrl, s, e);
    assert OwnContexts(s') by { SameContexts(s, s'); }
    assert forall t :: Current(s', t) == Current(s, if t == e.child then e.t else t);
    assert forall t :: Serving(s', t) == Serving(s, if t == e.child then e.t else t);
    assert forall r :: r in s.requests ==> RestoresWork(s, s.requests[r]);
  }

  lemma SameContexts(s: Machine, s': Machine)
    requires OwnContexts(s) && s'.contexts.Keys == s.contexts.Keys && s'.requests.Keys == s.requests.Keys
    requires forall r :: r in s.requests ==> s'.requests[r].context == s.requests[r].context
    ensures OwnContexts(s')
  {
  }

  lemma ExitKeeps(v: Settings, metadataUrl: string, s: Machine, e: Event)
    requires Inv(s) && Enabled(s, e) && e.Exit?
    ensures Inv(Apply(v, metadataUrl, s, e))
  {
    hide OwnContexts;
    var s' := Apply(v, metadataUrl, s, e);
    var a := s.requests[e.r];
    assert OwnContexts(s') by { SameContexts(s, s'); }
    assert RestoresWork(s, a);
    forall t ensures Current(s', t) == ContextOf(s', Serving(s', t)) {
      assert Current(s', t) == if t == a.task then a.outer else Current(s, t);
      assert Serving(s', t) == if t == a.task then a.outerWork else Serving(s, t);
    }
    forall r | r in s'.requests ensures RestoresWork(s', s'.requests[r]) {
      assert RestoresWork(s, s.requests[r]);
    }
  }

  ghost predicate SameActivation(a: Activation, b: Activation) {
    a.task == b.task && a.context == b.context && a.outer == b.outer && a.outerWork == b.outerWork
  }

  /** A step that changes neither bindings, nor who works for whom, nor what will be restored. */
  lemma QuietKeeps(s: Machine, s': Machine)
    requires Inv(s) && s'.binding == s.binding && s'.worksFor == s.worksFor
    requires s'.contexts.Keys == s.contexts.Keys && s'.requests.Keys == s.requests.Keys
    requires forall r :: r in s.requests ==> SameActivation(s.requests[r], s'.requests[r])
    ensures Inv(s')
  {
    SameContexts(s, s');
    hide OwnContexts;
    forall t ensures Current(s', t) == ContextOf(s', Serving(s', t)) {
      assert Current(s, t) == ContextOf(s, Serving(s, t));
    }
    forall r | r in s'.requests ensures RestoresWork(s', s'.requests[r]) {
      assert RestoresWork(s, s.requests[r]);
    }
  }

  lemma VerifyKeeps(v: Settings, metadataUrl: string, s: Machine, e: Event)
    requires Inv(s) && Enabled(s, e) && e.Verify?
    ensures Inv(Apply(v, metadataUrl, s, e))
  {
    hide Judged, Inv;
    QuietKeeps(s, Apply(v, metadataUrl, s, e));
  }

  lemma SendKeeps(v: Settings, metadataUrl: string, s: Machine, e: Event)
    requires Inv(s) && Enabled(s, e) && e.Send?
    ensures Inv(Apply(v, metadataUrl, s, e))
  {
    hide Forward, Inv;
    QuietKeeps(s, Apply(v, metadataUrl, s, e));
  }

  lemma InvStep(v: Settings, metadataUrl: string, s: Machine, e: Event)
    requires Inv(s) && Enabled(s, e)
    ensures Inv(Apply(v, metadataUrl, s, e))
  {
    hide Inv, Apply;
    match e
    case Enter(_, _, _, _, _) => EnterKeeps(v, metadataUrl, s, e);
    case Fork(_, _) => ForkKeeps(v, metadataUrl, s, e);
    case Exit(_) => ExitKeeps(v, metadataUrl, s, e);
    case Verify(_, _) => VerifyKeeps(v, metadataUrl, s, e);
    case Send(_, _) => SendKeeps(v, metadataUrl, s, e);
  }

  /** One event changes the view of a request as its own share of the event says, and no other view. */
  lemma ViewStep(v: Settings, metadataUrl: string, s: Machine, e: Event, r: RequestId)
    requires Inv(s) && Enabled(s, e) && Inv(Apply(v, metadataUrl, s, e)) && r in Apply(v, metadataUrl, s, e).requests
    ensures var s' := Apply(v, metadataUrl, s, e); var share := ShareOf(s, e, r);
      && |share| <= 1
      && (share == [] ==> r in s.requests && ViewOf(s', r) == ViewOf(s, r))
      && (share == [] || ViewOf(s', r) ==
          Step(v, metadataUrl, if r in s.requests then ViewOf(s, r) else FRESH, share[0]))
      && (r !in s.requests <==> share != [] && share[0].Entered?)
  {
    hide Judged, Forward;
  }

  // ---------------------------------------------------------------- theorems over every run

  lemma {:induction false} RunInv(v: Settings, metadataUrl: string, run: seq<Event>)
    requires Exec(v, metadataUrl, run).Some?
    ensures Inv(Exec(v, metadataUrl, run).value)
  {
    if run != [] {
      var front := run[..|run| - 1];
      RunInv(v, metadataUrl, front);
      InvStep(v, metadataUrl, Exec(v, metadataUrl, front).value, run[|run| - 1]);
    }
  }

  /** Isolation: in every interleaving, a request is where its own share of the run alone would take it. */
  lemma {:induction false} RequestsAreIsolated(v: Settings, metadataUrl: string, run: seq<Event>, r: RequestId)
    requires Exec(v, metadataUrl, run).Some?
    ensures var s := Exec(v, metadataUrl, run).value; var share := Share(v, metadataUrl, run, r);
      && Inv(s)
      && (r !in s.requests ==> share == [])
      && (r in s.requests ==> EntersFirst(share) && ViewOf(s, r) == Alone(v, metadataUrl, share))
  {
    RunInv(v, metadataUrl, run);
    if run != [] {
      var front, e := run[..|run| - 1], run[|run| - 1];
      RequestsAreIsolated(v, metadataUrl, front, r);
      var before, after := Exec(v, metadataUrl, front).value, Exec(v, metadataUrl, run).value;
      var share, own := Share(v, metadataUrl, front, r), ShareOf(before, e, r);
      if r in after.requests {
        ViewStep(v, metadataUrl, before, e, r);
        ShareGrows(v, metadataUrl, share, own);
      } else {
        NoShareBeforeEntry(v, metadataUrl, before, e, r);
      }
    }
  }

  lemma ShareGrows(v: Settings, metadataUrl: string, share: seq<Own>, own: seq<Own>)
    requires |own| <= 1
    ensures own == [] ==> share + own == share
    ensures own != [] ==>
      Alone(v, metadataUrl, share + own) == Step(v, metadataUrl, Alone(v, metadataUrl, share), own[0])
  {
    if own != [] {
      assert (share + own)[..|share + own| - 1] == share;
    } else {
      assert share + own == share;
    }
  }

  lemma NoShareBeforeEntry(v: Settings, metadataUrl: string, s: Machine, e: Event, r: RequestId)
    requires Inv(s) && Enabled(s, e) && r !in Apply(v, metadataUrl, s, e).requests
    ensures r !in s.requests && ShareOf(s, e, r) == []
  {
    hide Judged, Forward;
  }

  /** So what other requests do, and when, cannot be seen in a response. */
  lemma SameShareSameOutput(v: Settings, metadataUrl: string, a: seq<Event>, b: seq<Event>, r: RequestId)
    requires Exec(v, metadataUrl, a).Some? && Exec(v, metadataUrl, b).Some?
    requires Share(v, metadataUrl, a, r) == Share(v, metadataUrl, b, r)
    ensures var s, t := Exec(v, metadataUrl, a).value, Exec(v, metadataUrl, b).value;
      (r in s.requests <==> r in t.requests) && (r in s.requests ==> s.requests[r].out == t.requests[r].out)
  {
    hide Alone, Share, Exec;
    RequestsAreIsolated(v, metadataUrl, a, r);
    RequestsAreIsolated(v, metadataUrl, b, r);
  }

  /**
   What a client of any run sees of a request whose application answers it with a start and
   bodies: those messages, or one challenge for scopes that a verification of this request
   recorded; or, when that challenge is not ASCII, no start at all.
   */
  lemma ClientSees(v: Settings, metadataUrl: string, run: seq<Event>, r: RequestId)
    requires Exec(v, metadataUrl, run).Some? && r in Exec(v, metadataUrl, run).value.requests
    requires IsResponse(Messages(Share(v, metadataUrl, run, r)))
    ensures var share := Share(v, metadataUrl, run, r); var out := Exec(v, metadataUrl, run).value.requests[r].out;
      || out == Messages(share)
      || exists scopes :: RecordedIn(v, share, scopes) && IsReplacementOf(Messages(share), out, scopes, metadataUrl)
  {
    hide Exec, Share;
    var share := Share(v, metadataUrl, run, r);
    RequestsAreIsolated(v, metadataUrl, run, r);
    if Messages(share) == [] {
      NothingSent(v, metadataUrl, share);
    } else {
      var k := StartOf(share);
      StreamIsRewritten(v, metadataUrl, share, k);
      var scopes := Alone(v, metadataUrl, share[..k]).required;
      if scopes != [] {
        if CanEncode(scopes, metadataUrl) {
          ChallengeIsWholeResponse(v, metadataUrl, share, k);
        }
        assert EntersFirst(share[..k]);
        ScopesAreOwn(v, metadataUrl, share[..k]);
        RecordedEarlier(v, share, k, scopes);
      }
    }
  }

  /** A response replaced for `scopes`: the challenge alone, or what follows a start that could not be sent. */
  predicate IsReplacementOf(ms: seq<Message>, out: seq<Message>, scopes: seq<string>, metadataUrl: string) {
    if CanEncode(scopes, metadataUrl) then out == ChallengeResponse(scopes, metadataUrl)
    else ms != [] && out == ms[1..]
  }

  /** A request whose one verification precedes its response. */
  ghost predicate VerifiedThenSent(own: seq<Own>, isMcp: bool, target: Option<string>, delegated: Option<AccessToken>) {
    && |own| >= 2 && own[0] == Entered(isMcp, target) && own[1] == Verified(delegated)
    && forall i :: 2 <= i < |own| ==> own[i].Sent?
  }

  lemma VerdictIsRecorded(v: Settings, metadataUrl: string, own: seq<Own>,
                          isMcp: bool, target: Option<string>, delegated: Option<AccessToken>, k: nat)
    requires VerifiedThenSent(own, isMcp, target, delegated) && 2 <= k <= |own|
    ensures Alone(v, metadataUrl, own[..k]).required == Judged(v, isMcp, target, [], delegated)
    decreases k
  {
    hide Forward, Judged;
    var last := own[..k][..k - 1];
    if k == 2 {
      assert last == [own[0]] && last[..0] == [];
      assert Alone(v, metadataUrl, last) == Step(v, metadataUrl, FRESH, own[0]);
    } else {
      assert last == own[..k - 1];
      VerdictIsRecorded(v, metadataUrl, own, isMcp, target, delegated, k - 1);
    }
  }

  lemma StartComesThird(own: seq<Own>, k: nat, isMcp: bool, target: Option<string>, delegated: Option<AccessToken>)
    requires VerifiedThenSent(own, isMcp, target, delegated) && StartedAt(own, k)
    ensures 2 <= k && forall i :: k < i < |own| ==> !own[i].Entered?
  {
  }

  /**
   The verdict reaches the client: in every run, a request that is verified once and then
   answered with a start and bodies gets that answer exactly when it is not challenged, and
   otherwise the challenge for exactly the scopes the verifier found missing.
   */
  lemma ClientSeesVerdict(v: Settings, metadataUrl: string, run: seq<Event>, r: RequestId, isMcp: bool,
                          target: Option<string>, delegated: Option<AccessToken>,
                          verb: string, params: Option<map<string, Json>>)
    requires Exec(v, metadataUrl, run).Some? && r in Exec(v, metadataUrl, run).value.requests
    requires VerifiedThenSent(Share(v, metadataUrl, run, r), isMcp, target, delegated)
    requires Messages(Share(v, metadataUrl, run, r)) != [] && IsResponse(Messages(Share(v, metadataUrl, run, r)))
    ensures var ms := Messages(Share(v, metadataUrl, run, r));
      var out := Exec(v, metadataUrl, run).value.requests[r].out;
      match Serve(v, isMcp, target, delegated, verb, params)
      case Challenged(scopes) =>
        && IsReplacementOf(ms, out, scopes, metadataUrl)
        && (CanEncode(scopes, metadataUrl) ==> exists header :: IsRefusal(out, header))
        && (CanEncode(scopes, metadataUrl) && IsPlain(metadataUrl) && (forall s :: s in scopes ==> IsScope(s)) ==>
            RefusesFor(out, scopes, metadataUrl))
      case Unauthorized => out == ms
      case Dispatched(_) => out == ms
  {
    hide Exec, Share, Alone, Missing, React, VerifiedThenSent, IsRefusal, RefusesFor, IsScope, IsPlain;
    var share := Share(v, metadataUrl, run, r);
    RequestsAreIsolated(v, metadataUrl, run, r);
    var k := StartOf(share);
    StartComesThird(share, k, isMcp, target, delegated);
    StreamIsRewritten(v, metadataUrl, share, k);
    VerdictIsRecorded(v, metadataUrl, share, isMcp, target, delegated, k);
    var scopes := Judged(v, isMcp, target, [], delegated);
    if Replaces(scopes, metadataUrl) {
      ChallengeIsWholeResponse(v, metadataUrl, share, k);
    }
    if delegated.Some? && isMcp && Missing(v, target, delegated.value) != {} {
      SortedIsNotEmpty(Missing(v, target, delegated.value));
      ReplacementRefuses(scopes, metadataUrl);
      if IsPlain(metadataUrl) && forall s :: s in scopes ==> IsScope(s) {
        ReplacementRefusesFor(scopes, metadataUrl);
      }
    }
  }

  lemma SortedIsNotEmpty(xs: set<string>)
    requires xs != {}
    ensures Sorted(xs) != []
  {
    assert Members([]) == {};
  }

  lemma RecordedEarlier(v: Settings, own: seq<Own>, k: nat, scopes: seq<string>)
    requires k <= |own| && RecordedIn(v, own[..k], scopes)
    ensures RecordedIn(v, own, scopes)
  {
    var i :| 0 < i < |own[..k]| && RecordedBy(v, own[..k][0], own[..k][i], scopes);
    assert RecordedBy(v, own[0], own[i], scopes);
  }

  lemma {:induction false} StartOf(own: seq<Own>) returns (k: nat)
    requires Messages(own) != [] && IsResponse(Messages(own))
    ensures StartedAt(own, k)
  {
    var front, e := own[..|own| - 1], own[|own| - 1];
    if Messages(front) == [] {
      k := |front|;
      assert Messages(own)[0] == e.message;
    } else {
      assert forall i :: 0 <= i < |Messages(front)| ==> Messages(front)[i] == Messages(own)[i];
      k := StartOf(front);
    }
  }

  /** What an activation will restore is fixed when it enters. */
  lemma {:induction false} ActivationKept(v: Settings, metadataUrl: string, run: seq<Event>, more: seq<Event>,
          r: RequestId)
    requires Exec(v, metadataUrl, run + more).Some?
    ensures Exec(v, metadataUrl, run).Some?
    ensures var s, s' := Exec(v, metadataUrl, run).value, Exec(v, metadataUrl, run + more).value;
      r in s.requests ==> r in s'.requests && SameActivation(s.requests[r], s'.requests[r])
    decreases |more|
  {
    hide Forward, Judged;
    if more == [] {
      assert run + more == run;
    } else {
      assert (run + more)[..|run + more| - 1] == run + more[..|more| - 1];
      ActivationKept(v, metadataUrl, run, more[..|more| - 1], r);
    }
  }

  /**
   Restoration across a whole stay: whatever happened between entering and leaving, nested
   requests included, leaving puts the task back under the binding that entering found there,
   and touches no other task's.
   */
  lemma ContextIsRestored(v: Settings, metadataUrl: string, before: seq<Event>, entry: Event, stay: seq<Event>)
    requires entry.Enter? && Exec(v, metadataUrl, before + [entry] + stay + [Exit(entry.r)]).Some?
    ensures Exec(v, metadataUrl, before).Some? && Exec(v, metadataUrl, before + [entry] + stay).Some?
    ensures var first, last := Exec(v, metadataUrl, before).value, Exec(v, metadataUrl, before + [entry] + stay).value;
      var end := Exec(v, metadataUrl, before + [entry] + stay + [Exit(entry.r)]).value;
      && Current(end, entry.t) == Current(first, entry.t) && Serving(end, entry.t) == Serving(first, entry.t)
      && forall t :: t != entry.t ==> Current(end, t) == Current(last, t) && Serving(end, t) == Serving(last, t)
  {
    var entered, stayed := before + [entry], before + [entry] + stay;
    assert (stayed + [Exit(entry.r)])[..|stayed + [Exit(entry.r)]| - 1] == stayed;
    ActivationKept(v, metadataUrl, entered, stay, entry.r);
    assert entered[..|entered| - 1] == before;
  }
}

/**
 The concurrency limit of the HTTP surface: a counter changed only under a lock,
 by requests that may be interleaved at every single read and write.
 */
module HttpAdmission {
  import opened Common
  import opened HttpEnvelope

  // ---------------------------------------------------------------- what happens to one request

  /** `hostAllowed` is the verdict of the SDK's Host and Origin check. */
  datatype Request = Request(
    isHttp: bool, headers: seq<Header>, operational: bool, hostAllowed: bool, isMcpPath: bool, isPost: bool)

  datatype Route =
    | PassedThrough                   // not HTTP: handed on uncounted
    | EnvelopeRejected(r: Rejection)
    | OperationalProbe                // handed on uncounted
    | HostRejected
    | MethodNotAllowed
    | Contends                        // competes for one of the slots

  datatype Limits = Limits(maxHeaderCount: nat, maxHeaderBytes: nat, maxConcurrent: nat)

  ghost function RouteOf(q: Request, limits: Limits): Route {
    if !q.isHttp then PassedThrough
    else
      var rejection := Verdict(q.headers, limits.maxHeaderCount, limits.maxHeaderBytes);
      if rejection.Some? then EnvelopeRejected(rejection.value)
      else if q.operational then OperationalProbe
      else if !q.hostAllowed then HostRejected
      else if q.isMcpPath && !q.isPost then MethodNotAllowed
      else Contends
  }

  type ReqId = nat

  /**
   The object: each method is one critical section. `occupants` are the requests that have
   been admitted and not released.
   */
  class Admission {
    const limits: Limits
    var inFlight: int
    ghost var occupants: set<ReqId>

    /** The counter is the number of occupied slots, and never exceeds the limit. */
    ghost predicate Valid()
      reads this
    {
      inFlight == |occupants| <= limits.maxConcurrent
    }

    constructor (limits: Limits)
      ensures Valid() && this.limits == limits && occupants == {}
    {
      this.limits := limits;
      inFlight, occupants := 0, {};
    }

    method TryAdmit(r: ReqId) returns (admitted: bool)
      requires Valid() && r !in occupants
      modifies this`inFlight, this`occupants
      ensures Valid()
      ensures admitted <==> |old(occupants)| < limits.maxConcurrent
      ensures occupants == if admitted then old(occupants) + {r} else old(occupants)
    {
      if inFlight >= limits.maxConcurrent {
        return false;
      }
      inFlight, occupants := inFlight + 1, occupants + {r};
      return true;
    }

    /** Gives the slot back: no other request loses its own, and the next one finds room. */
    method Release(r: ReqId)
      requires Valid() && r in occupants
      modifies this`inFlight, this`occupants
      ensures Valid()
      ensures occupants == old(occupants) - {r} && |occupants| < limits.maxConcurrent
    {
      inFlight, occupants := inFlight - 1, occupants - {r};
    }

    /** The decisions of the call, up to the point where the wrapped app runs or a response is sent. */
    method Dispatch(r: ReqId, q: Request) returns (route: Route, admitted: bool)
      requires Valid() && r !in occupants
      modifies this`inFlight, this`occupants
      ensures Valid()
      ensures route == RouteOf(q, limits)
      ensures route == PassedThrough <==> !q.isHttp
      ensures forall x :: route == EnvelopeRejected(x) <==>
        q.isHttp && Verdict(q.headers, limits.maxHeaderCount, limits.maxHeaderBytes) == Some(x)
      ensures var clean := q.isHttp && Verdict(q.headers, limits.maxHeaderCount, limits.maxHeaderBytes) == None;
        && (route == OperationalProbe <==> clean && q.operational)
        && (route == HostRejected <==> clean && !q.operational && !q.hostAllowed)
        && (route == MethodNotAllowed <==> clean && !q.operational && q.hostAllowed && q.isMcpPath && !q.isPost)
        && (route == Contends <==> clean && !q.operational && q.hostAllowed && (q.isMcpPath ==> q.isPost))
      ensures admitted <==> route == Contends && |old(occupants)| < limits.maxConcurrent
      ensures occupants == if admitted then old(occupants) + {r} else old(occupants)
    {
      admitted := false;
      if !q.isHttp {
        return PassedThrough, false;
      }
      var rejection := ValidateEnvelope(q.headers, limits.maxHeaderCount, limits.maxHeaderBytes);
      if rejection.Some? {
        return EnvelopeRejected(rejection.value), false;
      }
      if q.operational {
        return OperationalProbe, false;
      }
      if !q.hostAllowed {
        return HostRejected, false;
      }
      if q.isMcpPath && !q.isPost {
        return MethodNotAllowed, false;
      }
      admitted := TryAdmit(r);
      route := Contends;
    }
  }

  // ---------------------------------------------------------------- the interleaving

  datatype Phase =
    | Served                          // never competed for a slot
    | Contending                      // before the lock of the admission section
    | Checking                        // holds the lock, about to compare
    | Loading                         // holds the lock, below the limit, about to read
    | Storing(register: int)          // holds the lock, about to write register + 1
    | Unlocking(admitted: bool)       // holds the lock, about to leave the section
    | Running                         // the wrapped app is running
    | Leaving                         // the app returned, raised or was cancelled: before the lock again
    | Unloading                       // holds the lock, about to read
    | Unstoring(register: int)        // holds the lock, about to write register - 1
    | Unlocked                        // holds the lock, about to leave the release section
    | Refused                         // answered 503
    | Finished

  /** The phases in which the request occupies a slot. */
  predicate Occupies(p: Phase) {
    p == Unlocking(true) || p == Running || p == Leaving || p == Unloading || p.Unstoring?
  }

  predicate HoldsLock(p: Phase) {
    p == Checking || p == Loading || p.Storing? || p.Unlocking? || p == Unloading || p.Unstoring? || p == Unlocked
  }

  datatype State = State(inFlight: int, holder: Option<ReqId>, phases: map<ReqId, Phase>)

  datatype Ending = Returns | Raises | IsCancelled

  datatype Event =
    | Arrive(r: ReqId, q: Request)
    | Lock(r: ReqId)
    | Act(r: ReqId)                   // the next instruction inside the critical section
    | AppEnds(r: ReqId, how: Ending)

  ghost function Init(): State {
    State(0, None, map[])
  }

  ghost predicate Enabled(s: State, e: Event) {
    match e
    case Arrive(r, q) => r !in s.phases
    case Lock(r) => s.holder == None && r in s.phases && (s.phases[r] == Contending || s.phases[r] == Leaving)
    case Act(r) => s.holder == Some(r) && r in s.phases && HoldsLock(s.phases[r])
    case AppEnds(r, _) => r in s.phases && s.phases[r] == Running
  }

  ghost function Moved(s: State, r: ReqId, p: Phase): State {
    s.(phases := s.phases[r := p])
  }

  ghost function ActStep(limits: Limits, s: State, r: ReqId): State
    requires r in s.phases && HoldsLock(s.phases[r])
  {
    match s.phases[r]
    case Checking => Moved(s, r, if s.inFlight >= limits.maxConcurrent then Unlocking(false) else Loading)
    case Loading => Moved(s, r, Storing(s.inFlight))
    case Storing(register) => Moved(s, r, Unlocking(true)).(inFlight := register + 1)
    case Unlocking(admitted) => Moved(s, r, if admitted then Running else Refused).(holder := None)
    case Unloading => Moved(s, r, Unstoring(s.inFlight))
    case Unstoring(register) => Moved(s, r, Unlocked).(inFlight := register - 1)
    case Unlocked => Moved(s, r, Finished).(holder := None)
  }

  ghost function Apply(limits: Limits, s: State, e: Event): State
    requires Enabled(s, e)
  {
    match e
    case Arrive(r, q) => Moved(s, r, if RouteOf(q, limits) == Contends then Contending else Served)
    case Lock(r) => Moved(s, r, if s.phases[r] == Contending then Checking else Unloading).(holder := Some(r))
    case Act(r) => ActStep(limits, s, r)
    case AppEnds(r, _) => Moved(s, r, Leaving)
  }

  ghost function Exec(limits: Limits, run: seq<Event>): Option<State> {
    if run == [] then Some(Init())
    else
      var before := Exec(limits, run[..|run| - 1]);
      var e := run[|run| - 1];
      if before.Some? && Enabled(before.value, e) then Some(Apply(limits, before.value, e)) else None
  }

  ghost predicate Reachable(limits: Limits, s: State) {
    exists run :: Exec(limits, run) == Some(s)
  }

  /** The requests that have been admitted and not yet released. */
  ghost function Admitted(s: State): set<ReqId> {
    set r | r in s.phases && Occupies(s.phases[r])
  }

  /** The requests whose wrapped app is running. */
  ghost function InApp(s: State): set<ReqId> {
    set r | r in s.phases && s.phases[r] == Running
  }

  ghost predicate CountInv(limits: Limits, s: State) {
    s.inFlight == |Admitted(s)| <= limits.maxConcurrent
  }

  /** One request at a time is in a critical section, and what it has read is still true. */
  ghost predicate LockInv(limits: Limits, s: State) {
    && (s.holder.Some? ==> s.holder.value in s.phases && HoldsLock(s.phases[s.holder.value]))
    && (forall r :: r in s.phases && HoldsLock(s.phases[r]) ==> s.holder == Some(r))
    && (forall r :: r in s.phases && s.phases[r].Storing? ==> s.phases[r].register == s.inFlight)
    && (forall r :: r in s.phases && s.phases[r].Unstoring? ==> s.phases[r].register == s.inFlight)
    && (forall r :: r in s.phases && (s.phases[r] == Loading || s.phases[r].Storing?) ==>
          s.inFlight < limits.maxConcurrent)
  }

  ghost predicate Inv(limits: Limits, s: State) {
    CountInv(limits, s) && LockInv(limits, s)
  }

  /** One request changes phase: the number of occupied slots follows. */
  lemma AdmittedMoves(s: State, r: ReqId, p: Phase)
    ensures Admitted(Moved(s, r, p)) == if Occupies(p) then Admitted(s) + {r} else Admitted(s) - {r}
    ensures |Admitted(Moved(s, r, p))| == |Admitted(s)|
      + (if Occupies(p) then 1 else 0) - (if r in s.phases && Occupies(s.phases[r]) then 1 else 0)
  {
    var before, after := Admitted(s), Admitted(Moved(s, r, p));
    assert after == if Occupies(p) then before + {r} else before - {r};
    assert before - {r} == if r in before then before - {r} else before;
  }

  lemma ActKeepsCount(limits: Limits, s: State, r: ReqId)
    requires CountInv(limits, s) && Enabled(s, Act(r))
    requires s.phases[r].Storing? ==> s.phases[r].register == s.inFlight < limits.maxConcurrent
    requires s.phases[r].Unstoring? ==> s.phases[r].register == s.inFlight
    ensures CountInv(limits, ActStep(limits, s, r))
  {
    var s' := ActStep(limits, s, r);
    hide Admitted;
    AdmittedCount(s, r, s'.phases[r]);
    AdmittedByPhases(s', Moved(s, r, s'.phases[r]));
  }

  lemma AdmittedCount(s: State, r: ReqId, p: Phase)
    ensures |Admitted(Moved(s, r, p))| == |Admitted(s)|
      + (if Occupies(p) then 1 else 0) - (if r in s.phases && Occupies(s.phases[r]) then 1 else 0)
  {
    AdmittedMoves(s, r, p);
  }

  lemma AdmittedByPhases(s: State, t: State)
    requires s.phases == t.phases
    ensures Admitted(s) == Admitted(t)
  {
  }

  lemma ActKeepsLock(limits: Limits, s: State, r: ReqId)
    requires LockInv(limits, s) && Enabled(s, Act(r))
    ensures LockInv(limits, ActStep(limits, s, r))
  {
  }

  /** Outside the critical sections the counter is not touched, and no slot is taken or freed. */
  lemma MoveKeepsCount(limits: Limits, s: State, r: ReqId, p: Phase)
    requires CountInv(limits, s) && (Occupies(p) <==> r in s.phases && Occupies(s.phases[r]))
    ensures CountInv(limits, Moved(s, r, p))
  {
    AdmittedMoves(s, r, p);
  }

  lemma MoveKeepsLock(limits: Limits, s: State, r: ReqId, p: Phase)
    requires LockInv(limits, s) && !HoldsLock(p) && (r in s.phases ==> !HoldsLock(s.phases[r]))
    ensures LockInv(limits, Moved(s, r, p))
  {
  }

  lemma LockKeepsInv(limits: Limits, s: State, r: ReqId)
    requires Inv(limits, s) && Enabled(s, Lock(r))
    ensures Inv(limits, Apply(limits, s, Lock(r)))
  {
    var s' := Apply(limits, s, Lock(r));
    MoveKeepsCount(limits, s, r, s'.phases[r]);
    assert Admitted(s') == Admitted(Moved(s, r, s'.phases[r]));
  }

  lemma InvStep(limits: Limits, s: State, e: Event)
    requires Inv(limits, s) && Enabled(s, e)
    ensures Inv(limits, Apply(limits, s, e))
  {
    hide RouteOf;
    match e
    case Arrive(r, q) =>
      var p := if RouteOf(q, limits) == Contends then Contending else Served;
      MoveKeepsCount(limits, s, r, p);
      MoveKeepsLock(limits, s, r, p);
    case Lock(r) => LockKeepsInv(limits, s, r);
    case Act(r) =>
      ActKeepsCount(limits, s, r);
      ActKeepsLock(limits, s, r);
    case AppEnds(r, _) =>
      MoveKeepsCount(limits, s, r, Leaving);
      MoveKeepsLock(limits, s, r, Leaving);
  }

  lemma {:induction false} RunInv(limits: Limits, run: seq<Event>)
    requires Exec(limits, run).Some?
    ensures Inv(limits, Exec(limits, run).value)
  {
    if run != [] {
      var before := run[..|run| - 1];
      RunInv(limits, before);
      InvStep(limits, Exec(limits, before).value, run[|run| - 1]);
    }
  }

  // ---------------------------------------------------------------- theorems

  /** In every interleaving the counter is the number of occupied slots, and within bounds. */
  lemma CounterIsExact(limits: Limits, s: State)
    requires Reachable(limits, s)
    ensures s.inFlight == |Admitted(s)|
    ensures 0 <= s.inFlight <= limits.maxConcurrent
    ensures |InApp(s)| <= limits.maxConcurrent
  {
    var run :| Exec(limits, run) == Some(s);
    RunInv(limits, run);
    assert Admitted(s) == InApp(s) + (Admitted(s) - InApp(s));
  }

  /** When no request is on its way, however the apps ended, every slot is free again. */
  lemma DrainsToZero(limits: Limits, s: State)
    requires Reachable(limits, s)
    requires forall r :: r in s.phases ==> s.phases[r] == Served || s.phases[r] == Refused || s.phases[r] == Finished
    ensures s.inFlight == 0 && s.holder == None
  {
    var run :| Exec(limits, run) == Some(s);
    RunInv(limits, run);
    assert Admitted(s) == {};
  }

  lemma ServedStep(limits: Limits, s: State, e: Event, r: ReqId)
    requires Enabled(s, e) && r in s.phases && s.phases[r] == Served
    ensures e.r != r && var s' := Apply(limits, s, e); r in s'.phases && s'.phases[r] == Served
  {
    hide RouteOf;
  }

  /** A request that never competed stays where it is, takes no further step, and occupies nothing. */
  lemma {:induction false} ServedStaysServed(limits: Limits, run: seq<Event>, more: seq<Event>, r: ReqId)
    requires Exec(limits, run).Some?
    requires r in Exec(limits, run).value.phases && Exec(limits, run).value.phases[r] == Served
    requires Exec(limits, run + more).Some?
    ensures var s := Exec(limits, run + more).value; r in s.phases && s.phases[r] == Served && r !in Admitted(s)
    ensures forall k :: 0 <= k < |more| ==> more[k].r != r
    decreases |more|
  {
    hide Exec, Enabled, Apply;
    if more == [] {
      assert run + more == run;
    } else {
      var front := more[..|more| - 1];
      LastStep(limits, run, more);
      ServedStaysServed(limits, run, front, r);
      ServedStep(limits, Exec(limits, run + front).value, more[|more| - 1], r);
    }
  }

  /** The state without one request. */
  ghost function Without(s: State, r: ReqId): State {
    s.(phases := s.phases - {r})
  }

  /** Events of other requests do not see a request that holds nothing. */
  lemma StepWithout(limits: Limits, s: State, e: Event, r: ReqId)
    requires Enabled(s, e) && e.r != r
    ensures Enabled(Without(s, r), e)
    ensures Apply(limits, Without(s, r), e) == Without(Apply(limits, s, e), r)
  {
    hide RouteOf;
    var p := Apply(limits, s, e).phases[e.r];
    assert s.phases[e.r := p] - {r} == (s.phases - {r})[e.r := p];
  }

  /**
   Rejected, operational and non-HTTP requests are invisible, then and ever after: take the
   arrival out of any run and the same run is possible, with the same counter, the same lock
   and every other request in the same phase.
   */
  lemma {:induction false} UncountedRequestsStayOut(limits: Limits, run: seq<Event>, q: Request, r: ReqId,
          more: seq<Event>)
    requires RouteOf(q, limits) != Contends && Exec(limits, run + [Arrive(r, q)] + more).Some?
    ensures Exec(limits, run + more).Some?
    ensures var with, without := Exec(limits, run + [Arrive(r, q)] + more).value, Exec(limits, run + more).value;
      && without == Without(with, r) && without.inFlight == with.inFlight && r !in Admitted(with)
    ensures forall k :: 0 <= k < |more| ==> more[k].r != r
    decreases |more|
  {
    hide Exec, Without, Admitted, RouteOf;
    var arrived := run + [Arrive(r, q)];
    PrefixRuns(limits, arrived, more);
    ArrivalIsServed(limits, run, q, r);
    ServedStaysServed(limits, arrived, more, r);
    if more == [] {
      assert arrived + more == arrived && run + more == run;
      WithoutIsAligned(Exec(limits, arrived).value, r);
    } else {
      var front := more[..|more| - 1];
      LastStep(limits, arrived, more);
      UncountedRequestsStayOut(limits, run, q, r, front);
      StepWithout(limits, Exec(limits, arrived + front).value, more[|more| - 1], r);
      LastStepBack(limits, run, more);
      WithoutIsAligned(Exec(limits, arrived + more).value, r);
    }
  }

  lemma WithoutIsAligned(s: State, r: ReqId)
    ensures Without(s, r).inFlight == s.inFlight
  {
  }

  lemma LastStep(limits: Limits, run: seq<Event>, more: seq<Event>)
    requires more != [] && Exec(limits, run + more).Some?
    ensures var before, e := Exec(limits, run + more[..|more| - 1]), more[|more| - 1];
      before.Some? && Enabled(before.value, e) && Exec(limits, run + more) == Some(Apply(limits, before.value, e))
  {
    hide Enabled, Apply;
    assert (run + more)[..|run + more| - 1] == run + more[..|more| - 1];
  }

  lemma LastStepBack(limits: Limits, run: seq<Event>, more: seq<Event>)
    requires more != [] && Exec(limits, run + more[..|more| - 1]).Some?
    requires Enabled(Exec(limits, run + more[..|more| - 1]).value, more[|more| - 1])
    ensures var before := Exec(limits, run + more[..|more| - 1]).value;
      Exec(limits, run + more) == Some(Apply(limits, before, more[|more| - 1]))
  {
    hide Enabled, Apply;
    assert (run + more)[..|run + more| - 1] == run + more[..|more| - 1];
  }

  lemma {:induction false} PrefixRuns(limits: Limits, run: seq<Event>, more: seq<Event>)
    requires Exec(limits, run + more).Some?
    ensures Exec(limits, run).Some?
    decreases |more|
  {
    if more == [] {
      assert run + more == run;
    } else {
      assert (run + more)[..|run + more| - 1] == run + more[..|more| - 1];
      PrefixRuns(limits, run, more[..|more| - 1]);
    }
  }

  lemma ArrivalIsServed(limits: Limits, run: seq<Event>, q: Request, r: ReqId)
    requires RouteOf(q, limits) != Contends && Exec(limits, run + [Arrive(r, q)]).Some?
    ensures var s := Exec(limits, run + [Arrive(r, q)]).value; r in s.phases && s.phases[r] == Served
    ensures Exec(limits, run) == Some(Without(Exec(limits, run + [Arrive(r, q)]).value, r))
  {
    hide RouteOf;
    LastStep(limits, run, [Arrive(r, q)]);
    assert [Arrive(r, q)][..0] == [] && run + [] == run;
    var s := Exec(limits, run).value;
    assert s.phases[r := Served] - {r} == s.phases;
  }

  /** A contender is refused exactly when, at its comparison, every slot is occupied by another request. */
  lemma RefusedOnlyWhenFull(limits: Limits, s: State, r: ReqId)
    requires Reachable(limits, s) && Enabled(s, Act(r)) && s.phases[r] == Checking
    ensures Apply(limits, s, Act(r)).phases[r] == Unlocking(false) <==> |Admitted(s)| == limits.maxConcurrent
    ensures r !in Admitted(s)
  {
    CounterIsExact(limits, s);
  }

  /** How many of its own instructions a contender below the limit still has before its app. */
  function Remaining(p: Phase): nat {
    match p
    case Loading => 3
    case Storing(_) => 2
    case Unlocking(_) => 1
    case _ => 0
  }

  /** On the way to the app, in it, or back from it: never towards a refusal. */
  predicate IsAdmitted(p: Phase) {
    p == Loading || p.Storing? || Occupies(p) || p == Unlocked || p == Finished
  }

  ghost function ActsOf(run: seq<Event>, r: ReqId): nat {
    if run == [] then 0 else ActsOf(run[..|run| - 1], r) + if run[|run| - 1] == Act(r) then 1 else 0
  }

  /** No event turns an admitted request away; its own instructions bring it to its app, each one less to go. */
  lemma AdmittedStep(limits: Limits, s: State, e: Event, r: ReqId)
    requires Inv(limits, s) && Enabled(s, e) && r in s.phases && IsAdmitted(s.phases[r])
    ensures var s' := Apply(limits, s, e);
      && r in s'.phases && IsAdmitted(s'.phases[r])
      && var n := Remaining(s.phases[r]);
         Remaining(s'.phases[r]) == if e == Act(r) && n > 0 then n - 1 else n
  {
    hide RouteOf;
  }

  /**
   A contender that compares below the limit is admitted, on every schedule of everyone else:
   it is never refused, it can always take its next instruction, and after four of them it has
   reached its app.
   */
  lemma {:induction false} BelowLimitIsAdmitted(limits: Limits, run: seq<Event>, r: ReqId, more: seq<Event>)
    requires Exec(limits, run).Some? && Enabled(Exec(limits, run).value, Act(r))
    requires Exec(limits, run).value.phases[r] == Checking && Exec(limits, run).value.inFlight < limits.maxConcurrent
    requires Exec(limits, run + [Act(r)] + more).Some?
    ensures var s := Exec(limits, run + [Act(r)] + more).value;
      && r in s.phases && IsAdmitted(s.phases[r])
      && (Remaining(s.phases[r]) > 0 ==> Enabled(s, Act(r)) && Remaining(s.phases[r]) + ActsOf(more, r) == 3)
      && (ActsOf(more, r) >= 3 ==> Remaining(s.phases[r]) == 0)
    decreases |more|
  {
    hide RouteOf, Inv;
    var checked := run + [Act(r)];
    assert checked[..|checked| - 1] == run;
    RunInv(limits, checked + more);
    if more == [] {
      assert checked + more == checked;
      CheckedBelow(limits, Exec(limits, run).value, r);
    } else {
      var front, e := more[..|more| - 1], more[|more| - 1];
      assert (checked + more)[..|checked + more| - 1] == checked + front;
      BelowLimitIsAdmitted(limits, run, r, front);
      RunInv(limits, checked + front);
      AdmittedStep(limits, Exec(limits, checked + front).value, e, r);
    }
    if Remaining(Exec(limits, checked + more).value.phases[r]) > 0 {
      MayProceed(limits, Exec(limits, checked + more).value, r);
    }
  }

  lemma CheckedBelow(limits: Limits, s: State, r: ReqId)
    requires Enabled(s, Act(r)) && s.phases[r] == Checking && s.inFlight < limits.maxConcurrent
    ensures Apply(limits, s, Act(r)).phases[r] == Loading
  {
  }

  lemma MayProceed(limits: Limits, s: State, r: ReqId)
    requires Inv(limits, s) && r in s.phases && Remaining(s.phases[r]) > 0
    ensures Enabled(s, Act(r))
  {
  }
}

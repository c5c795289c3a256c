/**
 The per-origin pool of outbound transports: a read without the lock, a second read
 under it, a host budget, and a close that empties the pool.
 */
module TransportPool {
  import opened Common
  import opened OidcNetworkPolicy

  type TaskId = nat
  type ChildId = nat

  // ---------------------------------------------------------------- the object

  class Transport {
    const maxHosts: nat
    var transports: map<Origin, ChildId>
    var nextChild: ChildId

    constructor (maxHosts: nat)
      requires maxHosts > 0
      ensures this.maxHosts == maxHosts && transports == map[] && nextChild == 0
    {
      this.maxHosts := maxHosts;
      transports, nextChild := map[], 0;
    }

    /** Every child was made by the factory, for one origin. */
    ghost predicate Valid()
      reads this
    {
      && |transports| <= maxHosts
      && (forall o :: o in transports ==> transports[o] < nextChild)
      && (forall o, o' :: o in transports && o' in transports && o != o' ==> transports[o] != transports[o'])
    }

    /** `_transport_for`; None is the exhausted budget. */
    method TransportFor(key: Origin) returns (child: Option<ChildId>)
      requires Valid()
      modifies this`transports, this`nextChild
      ensures Valid()
      ensures child.None? <==> key !in old(transports) && |old(transports)| >= maxHosts
      ensures child.Some? ==> key in transports && transports[key] == child.value
      ensures forall o :: o in old(transports) ==> o in transports && transports[o] == old(transports)[o]
      ensures transports.Keys == if child.Some? then old(transports).Keys + {key} else old(transports).Keys
    {
      if key in transports {
        return Some(transports[key]);
      }
      if |transports| >= maxHosts {
        return None;
      }
      transports := transports[key := nextChild];
      child := Some(nextChild);
      nextChild := nextChild + 1;
    }
  }

  // ---------------------------------------------------------------- the protocol

  datatype Phase = Missed | Creating | Got(child: ChildId, generation: nat) | Refused
  datatype Task = Task(origin: Origin, phase: Phase)

  /** A child the factory made: for which origin, between which closes. */
  datatype Creation = Creation(origin: Origin, child: ChildId, generation: nat)

  /** `generation` counts closes and `made` lists the factory's products: both are history. */
  datatype State = State(
    transports: map<Origin, ChildId>,
    holder: Option<TaskId>,
    tasks: map<TaskId, Task>,
    nextChild: ChildId,
    generation: nat,
    made: seq<Creation>)

  datatype Event =
    | Lookup(t: TaskId, origin: Origin)
    | Acquire(t: TaskId)
    | Create(t: TaskId)
    | Close

  ghost function Init(): State {
    State(map[], None, map[], 0, 0, [])
  }

  /** Tasks reach the pool with origins of the policy's trust set only. */
  ghost predicate Enabled(trusted: set<Origin>, s: State, e: Event) {
    match e
    case Lookup(t, o) => t !in s.tasks && o in trusted
    case Acquire(t) => s.holder == None && t in s.tasks && s.tasks[t].phase == Missed
    case Create(t) => s.holder == Some(t) && t in s.tasks && s.tasks[t].phase == Creating
    case Close => s.holder == None
  }

  ghost function Apply(maxHosts: nat, s: State, e: Event): State
    requires (e.Acquire? || e.Create?) ==> e.t in s.tasks
  {
    match e
    case Lookup(t, o) =>
      var phase := if o in s.transports then Got(s.transports[o], s.generation) else Missed;
      s.(tasks := s.tasks[t := Task(o, phase)])
    case Acquire(t) =>
      var o := s.tasks[t].origin;
      if o in s.transports then s.(tasks := s.tasks[t := Task(o, Got(s.transports[o], s.generation))])
      else if |s.transports| >= maxHosts then s.(tasks := s.tasks[t := Task(o, Refused)])
      else s.(holder := Some(t), tasks := s.tasks[t := Task(o, Creating)])
    case Create(t) =>
      var o := s.tasks[t].origin;
      s.(transports := s.transports[o := s.nextChild],
         holder := None,
         tasks := s.tasks[t := Task(o, Got(s.nextChild, s.generation))],
         nextChild := s.nextChild + 1,
         made := s.made + [Creation(o, s.nextChild, s.generation)])
    case Close =>
      s.(transports := map[], generation := s.generation + 1)
  }

  ghost function Exec(trusted: set<Origin>, maxHosts: nat, run: seq<Event>): Option<State> {
    if run == [] then Some(Init())
    else
      var before := Exec(trusted, maxHosts, run[..|run| - 1]);
      var e := run[|run| - 1];
      if before.Some? && Enabled(trusted, before.value, e) then Some(Apply(maxHosts, before.value, e)) else None
  }

  ghost predicate Reachable(trusted: set<Origin>, maxHosts: nat, s: State) {
    exists run :: Exec(trusted, maxHosts, run) == Some(s)
  }

  // ---------------------------------------------------------------- invariants

  ghost predicate PoolInv(trusted: set<Origin>, maxHosts: nat, s: State) {
    && s.transports.Keys <= trusted && |s.transports| <= maxHosts
    && (forall t :: t in s.tasks ==> s.tasks[t].origin in trusted)
    && (forall t :: t in s.tasks && s.tasks[t].phase == Creating ==>
          s.holder == Some(t) && s.tasks[t].origin !in s.transports && |s.transports| < maxHosts)
    && (s.holder.Some? ==> s.holder.value in s.tasks && s.tasks[s.holder.value].phase == Creating)
  }

  /** The pool holds exactly the current generation's creations, and no generation creates twice for an origin. */
  ghost predicate Ledger(made: seq<Creation>, transports: map<Origin, ChildId>, generation: nat) {
    && (forall i :: 0 <= i < |made| ==> made[i].child == i && made[i].generation <= generation)
    && (forall i :: 0 <= i < |made| && made[i].generation == generation ==>
          made[i].origin in transports && transports[made[i].origin] == i)
    && (forall o :: o in transports ==>
          transports[o] < |made| && made[transports[o]] == Creation(o, transports[o], generation))
    && (forall i, j :: 0 <= i < j < |made| && made[i].generation == made[j].generation ==>
          made[i].origin != made[j].origin)
  }

  /** Callers got creations of the origin they asked for. */
  ghost predicate ChildInv(s: State) {
    && s.nextChild == |s.made|
    && Ledger(s.made, s.transports, s.generation)
    && (forall t :: t in s.tasks && s.tasks[t].phase.Got? ==>
          var p := s.tasks[t].phase;
          p.child < |s.made| && s.made[p.child] == Creation(s.tasks[t].origin, p.child, p.generation))
  }

  lemma LedgerGrows(made: seq<Creation>, transports: map<Origin, ChildId>, generation: nat, o: Origin)
    requires Ledger(made, transports, generation) && o !in transports
    ensures Ledger(made + [Creation(o, |made|, generation)], transports[o := |made|], generation)
  {
  }

  lemma LedgerCloses(made: seq<Creation>, transports: map<Origin, ChildId>, generation: nat)
    requires Ledger(made, transports, generation)
    ensures Ledger(made, map[], generation + 1)
  {
  }

  lemma PoolStep(trusted: set<Origin>, maxHosts: nat, s: State, e: Event)
    requires PoolInv(trusted, maxHosts, s) && Enabled(trusted, s, e)
    ensures PoolInv(trusted, maxHosts, Apply(maxHosts, s, e))
  {
  }

  lemma PooledChild(made: seq<Creation>, transports: map<Origin, ChildId>, generation: nat, o: Origin)
    requires Ledger(made, transports, generation) && o in transports
    ensures transports[o] < |made| && made[transports[o]] == Creation(o, transports[o], generation)
  {
  }

  lemma ChildStep(trusted: set<Origin>, maxHosts: nat, s: State, e: Event)
    requires PoolInv(trusted, maxHosts, s) && ChildInv(s) && Enabled(trusted, s, e)
    ensures ChildInv(Apply(maxHosts, s, e))
  {
    hide Ledger;
    match e {
      case Lookup(_, o) => if o in s.transports { PooledChild(s.made, s.transports, s.generation, o); }
      case Acquire(t) =>
        var o := s.tasks[t].origin;
        if o in s.transports { PooledChild(s.made, s.transports, s.generation, o); }
      case Create(t) => LedgerGrows(s.made, s.transports, s.generation, s.tasks[t].origin);
      case Close => LedgerCloses(s.made, s.transports, s.generation);
    }
  }

  lemma {:induction false} RunInv(trusted: set<Origin>, maxHosts: nat, run: seq<Event>)
    requires Exec(trusted, maxHosts, run).Some?
    ensures PoolInv(trusted, maxHosts, Exec(trusted, maxHosts, run).value)
    ensures ChildInv(Exec(trusted, maxHosts, run).value)
  {
    if run != [] {
      var before := run[..|run| - 1];
      RunInv(trusted, maxHosts, before);
      PoolStep(trusted, maxHosts, Exec(trusted, maxHosts, before).value, run[|run| - 1]);
      ChildStep(trusted, maxHosts, Exec(trusted, maxHosts, before).value, run[|run| - 1]);
    }
  }

  // ---------------------------------------------------------------- theorems

  /** The pool never outgrows the budget or the trust set. */
  lemma PoolIsBounded(trusted: set<Origin>, maxHosts: nat, s: State)
    requires Reachable(trusted, maxHosts, s)
    ensures |s.transports| <= maxHosts && |s.transports| <= |trusted| && s.transports.Keys <= trusted
  {
    var run :| Exec(trusted, maxHosts, run) == Some(s);
    RunInv(trusted, maxHosts, run);
    SubsetSize(s.transports.Keys, trusted);
  }

  /** Between two closes an origin has one child, made once, returned to every caller, and to no other origin's. */
  lemma OneChildPerOrigin(trusted: set<Origin>, maxHosts: nat, s: State, t: TaskId, t': TaskId)
    requires Reachable(trusted, maxHosts, s)
    requires t in s.tasks && t' in s.tasks && s.tasks[t].phase.Got? && s.tasks[t'].phase.Got?
    requires s.tasks[t].phase.generation == s.tasks[t'].phase.generation
    ensures s.tasks[t].origin == s.tasks[t'].origin <==> s.tasks[t].phase.child == s.tasks[t'].phase.child
    ensures forall i, j :: 0 <= i < j < |s.made| && s.made[i].generation == s.made[j].generation ==>
      s.made[i].origin != s.made[j].origin
  {
    var run :| Exec(trusted, maxHosts, run) == Some(s);
    RunInv(trusted, maxHosts, run);
  }

  lemma BudgetStep(trusted: set<Origin>, maxHosts: nat, s: State, e: Event)
    requires PoolInv(trusted, maxHosts, s) && Enabled(trusted, s, e) && |trusted| <= maxHosts
    requires forall t :: t in s.tasks ==> s.tasks[t].phase != Refused
    ensures var s' := Apply(maxHosts, s, e); forall t :: t in s'.tasks ==> s'.tasks[t].phase != Refused
  {
    if e.Acquire? && s.tasks[e.t].origin !in s.transports {
      SubsetSize(s.transports.Keys + {s.tasks[e.t].origin}, trusted);
    }
  }

  lemma {:induction false} RunWithinBudget(trusted: set<Origin>, maxHosts: nat, run: seq<Event>)
    requires Exec(trusted, maxHosts, run).Some? && |trusted| <= maxHosts
    ensures var s := Exec(trusted, maxHosts, run).value; forall t :: t in s.tasks ==> s.tasks[t].phase != Refused
  {
    if run != [] {
      var before := run[..|run| - 1];
      RunWithinBudget(trusted, maxHosts, before);
      RunInv(trusted, maxHosts, before);
      BudgetStep(trusted, maxHosts, Exec(trusted, maxHosts, before).value, run[|run| - 1]);
    }
  }

  lemma RunExtends(trusted: set<Origin>, maxHosts: nat, run: seq<Event>, s: State, e: Event)
    requires Exec(trusted, maxHosts, run) == Some(s) && Enabled(trusted, s, e)
    ensures Exec(trusted, maxHosts, run + [e]) == Some(Apply(maxHosts, s, e))
  {
    assert (run + [e])[..|run + [e]| - 1] == run;
  }

  /** Any set of trusted origins within the budget can be in the pool at once. */
  lemma {:induction false} PoolCanHold(trusted: set<Origin>, maxHosts: nat, origins: set<Origin>)
    returns (run: seq<Event>, s: State)
    requires origins <= trusted && |origins| <= maxHosts
    ensures Exec(trusted, maxHosts, run) == Some(s)
    ensures s.transports.Keys == origins && s.holder == None && (forall t :: t in s.tasks ==> t < |origins|)
    decreases origins
  {
    if origins == {} {
      run, s := [], Init();
    } else {
      var o :| o in origins;
      var smaller := origins - {o};
      var run0, s0 := PoolCanHold(trusted, maxHosts, smaller);
      var t := |smaller|;
      assert |origins| == |smaller| + 1;
      assert |s0.transports| == |s0.transports.Keys|;
      var s1 := Apply(maxHosts, s0, Lookup(t, o));
      RunExtends(trusted, maxHosts, run0, s0, Lookup(t, o));
      var s2 := Apply(maxHosts, s1, Acquire(t));
      RunExtends(trusted, maxHosts, run0 + [Lookup(t, o)], s1, Acquire(t));
      s := Apply(maxHosts, s2, Create(t));
      run := run0 + [Lookup(t, o)] + [Acquire(t)] + [Create(t)];
      RunExtends(trusted, maxHosts, run0 + [Lookup(t, o)] + [Acquire(t)], s2, Create(t));
    }
  }

  lemma {:induction false} SubsetOfSize<T>(s: set<T>, n: nat) returns (r: set<T>)
    requires n <= |s|
    ensures r <= s && |r| == n
  {
    if n == |s| {
      r := s;
    } else {
      var x :| x in s;
      r := SubsetOfSize(s - {x}, n);
    }
  }

  /** The budget error can occur exactly when there are more trusted origins than the budget allows. */
  lemma BudgetErrorReachable(trusted: set<Origin>, maxHosts: nat)
    ensures (exists s, t :: Reachable(trusted, maxHosts, s) && t in s.tasks && s.tasks[t].phase == Refused)
      <==> |trusted| > maxHosts
  {
    if |trusted| > maxHosts {
      var full := SubsetOfSize(trusted, maxHosts);
      assert trusted == full + (trusted - full);
      var o :| o in trusted - full;
      var run, s0 := PoolCanHold(trusted, maxHosts, full);
      var t := maxHosts;
      assert |s0.transports| == |s0.transports.Keys|;
      var s1 := Apply(maxHosts, s0, Lookup(t, o));
      RunExtends(trusted, maxHosts, run, s0, Lookup(t, o));
      var s2 := Apply(maxHosts, s1, Acquire(t));
      RunExtends(trusted, maxHosts, run + [Lookup(t, o)], s1, Acquire(t));
      assert Reachable(trusted, maxHosts, s2) && t in s2.tasks && s2.tasks[t].phase == Refused;
    } else {
      forall s, t | Reachable(trusted, maxHosts, s) && t in s.tasks ensures s.tasks[t].phase != Refused {
        var run :| Exec(trusted, maxHosts, run) == Some(s);
        RunWithinBudget(trusted, maxHosts, run);
      }
    }
  }
}

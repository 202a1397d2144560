/**
 * The reusable barrier as a protocol of atomic steps: a call of wait() enters under the
 * lock and either completes the generation, waking everybody, or goes to sleep; a sleeper
 * may wake spuriously; whoever is awake re-checks its generation and leaves or sleeps
 * again. Any number of threads may take steps in any order.
 */
module ThreadBarrier {

  type Tid = nat

  datatype Event =
    | Arrived(tid: Tid, gen: nat)
    | Returned(tid: Tid, gen: nat, last: bool)

  /** A thread inside wait(): the generation it entered, and whether it sleeps on the condition. */
  datatype Waiter = Waiter(gen: nat, asleep: bool)

  /** The shared fields, the threads inside wait() and the past. */
  datatype State = State(numWaiting: nat, numLeft: nat, generation: nat, waiting: map<Tid, Waiter>, trace: seq<Event>)

  datatype Action = Enter(tid: Tid) | Wake(tid: Tid) | Recheck(tid: Tid)

  function Init(n: nat): State
  {
    State(n, n, 0, map[], [])
  }

  /** A thread outside wait() may enter, a sleeper may wake, a thread awake inside may re-check. */
  predicate Enabled(s: State, a: Action)
  {
    match a
    case Enter(t) => t !in s.waiting
    case Wake(t) => t in s.waiting && s.waiting[t].asleep
    case Recheck(t) => t in s.waiting && !s.waiting[t].asleep
  }

  /** notify_all. */
  function AllAwake(waiting: map<Tid, Waiter>): map<Tid, Waiter>
  {
    map t | t in waiting :: waiting[t].(asleep := false)
  }

  function Step(s: State, a: Action): State
    requires Enabled(s, a) && s.numLeft >= 1
  {
    match a
    case Enter(t) =>
      var gen, left := s.generation, s.numLeft - 1;
      if left == 0 then
        s.(generation := gen + 1, numLeft := s.numWaiting, waiting := AllAwake(s.waiting),
           trace := s.trace + [Arrived(t, gen), Returned(t, gen, true)])
      else
        s.(numLeft := left, waiting := s.waiting[t := Waiter(gen, true)], trace := s.trace + [Arrived(t, gen)])
    case Wake(t) => s.(waiting := s.waiting[t := s.waiting[t].(asleep := false)])
    case Recheck(t) =>
      var gen := s.waiting[t].gen;
      if gen == s.generation then s.(waiting := s.waiting[t := Waiter(gen, true)])
      else s.(waiting := s.waiting - {t}, trace := s.trace + [Returned(t, gen, false)])
  }

  // ----- counting the past -----

  predicate Is(e: Event, gen: nat, kind: Kind)
  {
    match kind
    case Arrival => e.Arrived? && e.gen == gen
    case ReturnTrue => e.Returned? && e.gen == gen && e.last
    case ReturnFalse => e.Returned? && e.gen == gen && !e.last
  }

  datatype Kind = Arrival | ReturnTrue | ReturnFalse

  function Count(trace: seq<Event>, gen: nat, kind: Kind): nat
  {
    if trace == [] then 0
    else Count(trace[..|trace| - 1], gen, kind) + if Is(trace[|trace| - 1], gen, kind) then 1 else 0
  }

  function Arrivals(trace: seq<Event>): nat
  {
    if trace == [] then 0 else Arrivals(trace[..|trace| - 1]) + if trace[|trace| - 1].Arrived? then 1 else 0
  }

  lemma CountNext(trace: seq<Event>, e: Event, gen: nat, kind: Kind)
    ensures Count(trace + [e], gen, kind) == Count(trace, gen, kind) + if Is(e, gen, kind) then 1 else 0
    ensures Arrivals(trace + [e]) == Arrivals(trace) + if e.Arrived? then 1 else 0
  {
    assert (trace + [e])[..|trace|] == trace;
  }

  ghost function Waiters(s: State, gen: nat): set<Tid>
  {
    set t | t in s.waiting && s.waiting[t].gen == gen
  }

  // ----- the invariant -----

  /** The books of one generation. */
  ghost predicate Balanced(s: State, g: nat)
  {
    if g < s.generation then
      && Count(s.trace, g, Arrival) == s.numWaiting
      && Count(s.trace, g, ReturnTrue) == 1
      && Count(s.trace, g, ReturnFalse) + |Waiters(s, g)| == s.numWaiting - 1
    else
      && Count(s.trace, g, Arrival) == |Waiters(s, g)| == (if g == s.generation then s.numWaiting - s.numLeft else 0)
      && Count(s.trace, g, ReturnTrue) == 0
      && Count(s.trace, g, ReturnFalse) == 0
  }

  /** Nobody has left generation g before all its arrivals. */
  ghost predicate NoEarlyReturn(trace: seq<Event>, n: nat)
  {
    forall k :: 0 <= k < |trace| && trace[k].Returned? ==> Count(trace[..k], trace[k].gen, Arrival) == n
  }

  /** Whoever sleeps, sleeps for the current generation. */
  ghost predicate NobodyForgotten(s: State)
  {
    forall t :: t in s.waiting && s.waiting[t].asleep ==> s.waiting[t].gen == s.generation
  }

  /** The arrivals that g full generations of n threads make. */
  function Rounds(g: nat, n: nat): nat
  {
    if g == 0 then 0 else Rounds(g - 1, n) + n
  }

  lemma {:induction false} RoundsIsProduct(g: nat, n: nat)
    ensures Rounds(g, n) == g * n
  {
    if g > 0 { RoundsIsProduct(g - 1, n); }
  }

  ghost predicate Inv(s: State)
  {
    && 1 <= s.numLeft <= s.numWaiting
    && Arrivals(s.trace) == Rounds(s.generation, s.numWaiting) + (s.numWaiting - s.numLeft)
    && (forall g: nat :: Balanced(s, g))
    && NoEarlyReturn(s.trace, s.numWaiting)
    && NobodyForgotten(s)
  }

  lemma InitInv(n: nat)
    requires n >= 1
    ensures Inv(Init(n))
  {
    forall g: nat ensures Balanced(Init(n), g) { assert Waiters(Init(n), g) == {}; }
  }

  lemma NoEarlyReturnNext(trace: seq<Event>, n: nat, e: Event)
    requires NoEarlyReturn(trace, n)
    requires e.Returned? ==> Count(trace, e.gen, Arrival) == n
    ensures NoEarlyReturn(trace + [e], n)
  {
    var tr := trace + [e];
    forall k | 0 <= k < |tr| && tr[k].Returned? ensures Count(tr[..k], tr[k].gen, Arrival) == n {
      if k < |trace| { assert tr[..k] == trace[..k]; } else { assert tr[..k] == trace; }
    }
  }

  lemma EnterInv(s: State, t: Tid)
    requires Inv(s) && t !in s.waiting
    ensures Inv(Step(s, Enter(t)))
  {
    assert Balanced(s, s.generation);
    EnterTrace(s, t);
    forall g: nat ensures Balanced(Step(s, Enter(t)), g) {
      assert Balanced(s, g);
      EnterBalanced(s, t, g);
    }
  }

  /** Entering is counted, and the thread that completes a generation leaves after its last arrival. */
  lemma EnterTrace(s: State, t: Tid)
    requires 1 <= s.numLeft <= s.numWaiting && NoEarlyReturn(s.trace, s.numWaiting) && Balanced(s, s.generation)
    requires t !in s.waiting
    ensures NoEarlyReturn(Step(s, Enter(t)).trace, s.numWaiting)
    ensures Arrivals(Step(s, Enter(t)).trace) == Arrivals(s.trace) + 1
  {
    var s', gen := Step(s, Enter(t)), s.generation;
    var tr1 := s.trace + [Arrived(t, gen)];
    NoEarlyReturnNext(s.trace, s.numWaiting, Arrived(t, gen));
    CountNext(s.trace, Arrived(t, gen), gen, Arrival);
    if s.numLeft == 1 {
      assert s'.trace == tr1 + [Returned(t, gen, true)];
      NoEarlyReturnNext(tr1, s.numWaiting, Returned(t, gen, true));
      CountNext(tr1, Returned(t, gen, true), gen, Arrival);
    }
  }

  lemma AllCountsNext(trace: seq<Event>, e: Event, g: nat)
    ensures forall kind :: Count(trace + [e], g, kind) == Count(trace, g, kind) + if Is(e, g, kind) then 1 else 0
  {
    forall kind ensures Count(trace + [e], g, kind) == Count(trace, g, kind) + if Is(e, g, kind) then 1 else 0 {
      CountNext(trace, e, g, kind);
    }
  }

  /** One more thread waits for gen. */
  lemma WaitersGrow(s: State, s': State, t: Tid, gen: nat, g: nat)
    requires s'.waiting == s.waiting[t := Waiter(gen, true)] && t !in s.waiting
    ensures |Waiters(s', g)| == |Waiters(s, g)| + if g == gen then 1 else 0
  {
    assert Waiters(s', g) == if g == gen then Waiters(s, g) + {t} else Waiters(s, g);
  }

  lemma EnterBalanced(s: State, t: Tid, g: nat)
    requires 1 <= s.numLeft <= s.numWaiting && Balanced(s, g) && t !in s.waiting
    ensures Balanced(Step(s, Enter(t)), g)
  {
    if s.numLeft == 1 { CompletesBalanced(s, t, g); } else { JoinsBalanced(s, t, g); }
  }

  /** What the two events of the last arrival add to the books of generation g. */
  lemma CompletedCounts(trace: seq<Event>, t: Tid, gen: nat, g: nat)
    ensures var tr := trace + [Arrived(t, gen), Returned(t, gen, true)];
            var one := if g == gen then 1 else 0;
            && Count(tr, g, Arrival) == Count(trace, g, Arrival) + one
            && Count(tr, g, ReturnTrue) == Count(trace, g, ReturnTrue) + one
            && Count(tr, g, ReturnFalse) == Count(trace, g, ReturnFalse)
  {
    var tr1 := trace + [Arrived(t, gen)];
    AllCountsNext(trace, Arrived(t, gen), g);
    AllCountsNext(tr1, Returned(t, gen, true), g);
    assert trace + [Arrived(t, gen), Returned(t, gen, true)] == tr1 + [Returned(t, gen, true)];
  }

  lemma CompletesBalanced(s: State, t: Tid, g: nat)
    requires 1 == s.numLeft <= s.numWaiting && Balanced(s, g) && t !in s.waiting
    ensures Balanced(Step(s, Enter(t)), g)
  {
    CompletedCounts(s.trace, t, s.generation, g);
    assert Waiters(Step(s, Enter(t)), g) == Waiters(s, g);
  }

  lemma JoinsBalanced(s: State, t: Tid, g: nat)
    requires 1 < s.numLeft <= s.numWaiting && Balanced(s, g) && t !in s.waiting
    ensures Balanced(Step(s, Enter(t)), g)
  {
    AllCountsNext(s.trace, Arrived(t, s.generation), g);
    WaitersGrow(s, Step(s, Enter(t)), t, s.generation, g);
  }

  lemma RecheckInv(s: State, t: Tid)
    requires Inv(s) && Enabled(s, Recheck(t))
    ensures Inv(Step(s, Recheck(t)))
  {
    if s.waiting[t].gen == s.generation { SleepsAgain(s, t); } else { Leaves(s, t); }
  }

  lemma SleepsAgain(s: State, t: Tid)
    requires Inv(s) && Enabled(s, Recheck(t)) && s.waiting[t].gen == s.generation
    ensures Inv(Step(s, Recheck(t)))
  {
    var s' := Step(s, Recheck(t));
    forall g: nat ensures Balanced(s', g) {
      assert Balanced(s, g);
      assert Waiters(s', g) == Waiters(s, g);
    }
  }

  lemma Leaves(s: State, t: Tid)
    requires Inv(s) && Enabled(s, Recheck(t)) && s.waiting[t].gen != s.generation
    ensures Inv(Step(s, Recheck(t)))
  {
    var s', gen := Step(s, Recheck(t)), s.waiting[t].gen;
    WaiterIsOld(s, t);
    assert Balanced(s, gen);
    NoEarlyReturnNext(s.trace, s.numWaiting, Returned(t, gen, false));
    CountNext(s.trace, Returned(t, gen, false), gen, Arrival);
    forall g: nat ensures Balanced(s', g) {
      assert Balanced(s, g);
      RecheckBalanced(s, t, g);
    }
  }

  lemma WakeInv(s: State, t: Tid)
    requires Inv(s) && Enabled(s, Wake(t))
    ensures Inv(Step(s, Wake(t)))
  {
    var s' := Step(s, Wake(t));
    forall g: nat ensures Balanced(s', g) {
      assert Balanced(s, g);
      assert Waiters(s', g) == Waiters(s, g);
    }
  }

  lemma RecheckBalanced(s: State, t: Tid, g: nat)
    requires s.numLeft >= 1 && Balanced(s, g) && Enabled(s, Recheck(t)) && s.waiting[t].gen < s.generation
    ensures Balanced(Step(s, Recheck(t)), g)
  {
    var s', gen := Step(s, Recheck(t)), s.waiting[t].gen;
    AllCountsNext(s.trace, Returned(t, gen, false), g);
    assert Waiters(s', g) == if g == gen then Waiters(s, g) - {t} else Waiters(s, g);
  }

  /** Nobody waits for a generation that has not begun. */
  lemma WaiterIsOld(s: State, t: Tid)
    requires Inv(s) && t in s.waiting
    ensures s.waiting[t].gen <= s.generation
  {
    var g := s.waiting[t].gen;
    assert Balanced(s, g) && t in Waiters(s, g);
  }

  // ----- all interleavings -----

  /** The state after a schedule, or nothing if some action was not enabled. */
  ghost predicate Reaches(n: nat, schedule: seq<Action>, s: State)
  {
    if schedule == [] then s == Init(n)
    else
      var k := |schedule| - 1;
      exists p :: Reaches(n, schedule[..k], p) && Enabled(p, schedule[k]) && p.numLeft >= 1 && s == Step(p, schedule[k])
  }

  lemma {:induction false} AlwaysInv(n: nat, schedule: seq<Action>, s: State)
    requires n >= 1 && Reaches(n, schedule, s)
    ensures Inv(s) && s.numWaiting == n
    decreases |schedule|
  {
    if schedule == [] {
      InitInv(n);
    } else {
      var k := |schedule| - 1;
      var p :| Reaches(n, schedule[..k], p) && Enabled(p, schedule[k]) && p.numLeft >= 1 && s == Step(p, schedule[k]);
      AlwaysInv(n, schedule[..k], p);
      match schedule[k] {
        case Enter(t) => EnterInv(p, t);
        case Wake(t) => WakeInv(p, t);
        case Recheck(t) => RecheckInv(p, t);
      }
    }
  }

  /** The lock-protected fields count the arrivals of every interleaving. */
  lemma ArrivalsCounted(n: nat, schedule: seq<Action>, s: State)
    requires n >= 1 && Reaches(n, schedule, s)
    ensures 1 <= s.numLeft <= n && Arrivals(s.trace) == s.generation * n + (n - s.numLeft)
  {
    AlwaysInv(n, schedule, s);
    RoundsIsProduct(s.generation, n);
  }

  /** No call returns from generation g before the n-th arrival of g. */
  lemma NobodyLeavesEarly(n: nat, schedule: seq<Action>, s: State, k: nat)
    requires n >= 1 && Reaches(n, schedule, s) && k < |s.trace| && s.trace[k].Returned?
    ensures Count(s.trace[..k], s.trace[k].gen, Arrival) == n
  {
    AlwaysInv(n, schedule, s);
  }

  /**
   * A completed generation had n arrivals, exactly one of which returned true; the others return
   * false or may do so now.
   */
  lemma OneTruePerGeneration(n: nat, schedule: seq<Action>, s: State, g: nat)
    requires n >= 1 && Reaches(n, schedule, s) && g < s.generation
    ensures Count(s.trace, g, Arrival) == n && Count(s.trace, g, ReturnTrue) == 1
    ensures Count(s.trace, g, ReturnFalse) == n - 1 - |Waiters(s, g)|
  {
    AlwaysInv(n, schedule, s);
    assert Balanced(s, g);
  }

  /** No wake-up is lost: a waiter of a complete generation is awake and its next check returns; nobody else's does. */
  lemma OldWaitersProceed(n: nat, schedule: seq<Action>, s: State, t: Tid)
    requires n >= 1 && Reaches(n, schedule, s) && t in s.waiting
    ensures s.numLeft >= 1 && s.waiting[t].gen <= s.generation
    ensures Enabled(s, Recheck(t)) && t !in Step(s, Recheck(t)).waiting <==>
              Count(s.trace, s.waiting[t].gen, Arrival) == n
  {
    AlwaysInv(n, schedule, s);
    WaiterIsOld(s, t);
    assert Balanced(s, s.waiting[t].gen);
  }

  // ----- the class whose critical sections these steps are -----

  class Barrier {
    const numWaiting: nat
    var generation: nat
    var numLeft: nat

    constructor (n: nat)
      ensures numWaiting == n && generation == Init(n).generation && numLeft == Init(n).numLeft
    {
      numWaiting, generation, numLeft := n, 0, n;
    }

    /** wait() up to its return or its first wait on the condition, under the lock. */
    method EnterWait(ghost s: State, ghost t: Tid) returns (gen: nat, last: bool)
      requires s.numWaiting == numWaiting && s.generation == generation && s.numLeft == numLeft >= 1 && t !in s.waiting
      modifies this
      ensures var s' := Step(s, Enter(t)); generation == s'.generation && numLeft == s'.numLeft
      ensures gen == s.generation && (last <==> t !in Step(s, Enter(t)).waiting)
    {
      gen := generation;
      numLeft := numLeft - 1;
      if numLeft == 0 {
        generation := generation + 1;
        numLeft := numWaiting;
        return gen, true;
      }
      return gen, false;
    }

    /** One pass of the wait loop's test, after any wake-up. */
    method RecheckWait(gen: nat, ghost s: State, ghost t: Tid) returns (leave: bool)
      requires s.generation == generation && s.numLeft == numLeft >= 1 && Enabled(s, Recheck(t)) &&
               s.waiting[t].gen == gen
      ensures leave <==> t !in Step(s, Recheck(t)).waiting
    {
      leave := gen != generation;
    }
  }
}

/**
 * The bulkhead: callers of one service share a counter in an external store. Each increments it, is
 * turned away if the count it got exceeds its limit, runs its command otherwise, and decrements it
 * either way. The steps of different callers interleave freely.
 */
module Bulkhead {
  import opened Options

  // ---- The counters of the store ----

  class CounterStore {
    var counters: map<string, int>

    function Count(key: string): int reads this { if key in counters then counters[key] else 0 }

    constructor ()
      ensures counters == map[]
    {
      counters := map[];
    }

    method IncrementCounter(key: string) returns (count: int)
      modifies this
      ensures count == old(Count(key)) + 1 && counters == old(counters)[key := count]
    {
      count := Count(key) + 1;
      counters := counters[key := count];
    }

    // A count that went below zero is set back to zero.
    method DecrementCounter(key: string) returns (count: int)
      modifies this
      ensures count == if old(Count(key)) >= 1 then old(Count(key)) - 1 else 0
      ensures counters == old(counters)[key := count]
    {
      count := Count(key) - 1;
      counters := counters[key := count];
      if count < 0 {
        counters := counters[key := 0];
        return 0;
      }
    }

    // One call with no other in between; what the command brings is a parameter.
    method ExecuteWithBulkhead(key: string, concurrencyLimit: int, outcome: Result<string, string>)
      returns (r: Result<string, string>)
      modifies this
      ensures r == if old(Count(key)) >= concurrencyLimit then Err("Bulkhead limit reached") else outcome
      ensures Count(key) == if old(Count(key)) >= 0 then old(Count(key)) else 0
      ensures forall k :: k != key ==> Count(k) == old(Count(k))
    {
      var currentConcurrency := IncrementCounter(key);
      if currentConcurrency > concurrencyLimit {
        r := Err("Bulkhead limit reached");
      } else {
        r := outcome;
      }
      var count := DecrementCounter(key);
    }
  }

  // ---- The protocol ----

  // Counted: incremented, not yet checked. Clamping: about to set a negative count back to zero.
  datatype Phase = Counted | Running | Leaving | Clamping

  datatype Caller = Caller(limit: int, seen: int, phase: Phase)

  /** The shared counter, and the callers in flight in the order in which they incremented it. */
  datatype System = System(counter: int, callers: seq<Caller>)

  // A step of the k-th caller in flight, or of a new one.
  datatype Step = Arrive(limit: int) | Check(k: nat) | Finish(k: nat) | Decrement(k: nat) | Clamp(k: nat)

  function Without(callers: seq<Caller>, k: nat): seq<Caller>
    requires k < |callers|
  {
    callers[..k] + callers[k + 1..]
  }

  predicate Enabled(s: System, step: Step) {
    match step
    case Arrive(_) => true
    case Check(k) => k < |s.callers| && s.callers[k].phase.Counted?
    case Finish(k) => k < |s.callers| && s.callers[k].phase.Running?
    case Decrement(k) => k < |s.callers| && s.callers[k].phase.Leaving?
    case Clamp(k) => k < |s.callers| && s.callers[k].phase.Clamping?
  }

  function Next(s: System, step: Step): System
    requires Enabled(s, step)
  {
    match step
    case Arrive(limit) => System(s.counter + 1, s.callers + [Caller(limit, s.counter + 1, Counted)])
    case Check(k) =>
      var c := s.callers[k];
      s.(callers := s.callers[k := c.(phase := if c.seen > c.limit then Leaving else Running)])
    case Finish(k) => s.(callers := s.callers[k := s.callers[k].(phase := Leaving)])
    case Decrement(k) =>
      if s.counter - 1 < 0 then System(s.counter - 1, s.callers[k := s.callers[k].(phase := Clamping)])
      else System(s.counter - 1, Without(s.callers, k))
    case Clamp(k) => System(0, Without(s.callers, k))
  }

  // The k-th caller in flight got a count above k, since those before it were counted when it arrived.
  ghost predicate Invariant(s: System) {
    && s.counter == |s.callers|
    && forall k :: 0 <= k < |s.callers| ==>
         && !s.callers[k].phase.Clamping? && s.callers[k].seen > k
         && (s.callers[k].phase.Running? ==> s.callers[k].seen <= s.callers[k].limit)
  }

  // No other caller is touched, and this one keeps its limit and the count it got.
  ghost predicate Moves(s: System, s': System, k: nat, phase: Phase) {
    && k < |s.callers| && s'.counter == s.counter
    && s'.callers == s.callers[k := Caller(s.callers[k].limit, s.callers[k].seen, phase)]
  }

  /**
   * A caller's course: it is counted behind all in flight, then runs or is turned away, leaves either way,
   * and is no longer counted when it has left.
   */
  lemma {:induction false} StepLeads(s: System, step: Step)
    requires Invariant(s) && Enabled(s, step)
    ensures var s' := Next(s, step);
            && (step.Arrive? ==>
                  s' == System(|s.callers| + 1, s.callers + [Caller(step.limit, |s.callers| + 1, Counted)]))
            && (step.Check? ==> Moves(s, s', step.k, Running) || Moves(s, s', step.k, Leaving))
            && (step.Finish? ==> Moves(s, s', step.k, Leaving))
            && (step.Decrement? ==>
                  s' == System(|s.callers| - 1, s.callers[..step.k] + s.callers[step.k + 1..]))
            && !step.Clamp?
  {
  }

  lemma {:induction false} StepKeeps(s: System, step: Step)
    requires Invariant(s) && Enabled(s, step)
    ensures Invariant(Next(s, step))
  {
    if step.Decrement? {
      var callers' := Without(s.callers, step.k);
      forall i | 0 <= i < |callers'|
        ensures callers'[i] == s.callers[if i < step.k then i else i + 1]
      {
      }
    }
  }

  ghost predicate IsRun(states: seq<System>, steps: seq<Step>) {
    && |states| == |steps| + 1 && states[0] == System(0, [])
    && forall i :: 0 <= i < |steps| ==> Enabled(states[i], steps[i]) && states[i + 1] == Next(states[i], steps[i])
  }

  // How many of the callers run under a limit of at most l.
  function RunningUnder(callers: seq<Caller>, l: int): nat {
    if callers == [] then 0
    else
      var c := callers[|callers| - 1];
      RunningUnder(callers[..|callers| - 1], l) + if c.phase.Running? && c.limit <= l then 1 else 0
  }

  lemma {:induction false} RunningBounded(callers: seq<Caller>, l: int)
    requires forall k :: 0 <= k < |callers| && callers[k].phase.Running? ==> k < callers[k].seen <= callers[k].limit
    ensures RunningUnder(callers, l) <= |callers|
    ensures RunningUnder(callers, l) <= if l < 0 then 0 else l
    decreases |callers|
  {
    if callers != [] {
      RunningBounded(callers[..|callers| - 1], l);
    }
  }

  /**
   * In every state of every interleaving: the counter is the number of callers in flight, so it is zero
   * once all have left; no more than l callers run under limits of at most l, whatever l; and no
   * decrement takes the counter below zero, so the clamp never acts.
   */
  lemma {:induction false} BulkheadHolds(states: seq<System>, steps: seq<Step>, i: nat, l: int)
    requires IsRun(states, steps) && i < |states|
    ensures Invariant(states[i])
    ensures states[i].counter == |states[i].callers|
    ensures RunningUnder(states[i].callers, l) <= if l < 0 then 0 else l
    ensures i < |steps| ==> !steps[i].Clamp? && (steps[i].Decrement? ==> states[i].counter - 1 >= 0)
    decreases i
  {
    if i > 0 {
      BulkheadHolds(states, steps, i - 1, l);
      StepKeeps(states[i - 1], steps[i - 1]);
      assert states[i - 1 + 1] == Next(states[i - 1], steps[i - 1]);
    }
    RunningBounded(states[i].callers, l);
  }

  // ---- Who is turned away ----

  // Where the k-th caller after a step was before it.
  function PlaceBefore(s: System, step: Step, k: nat): nat {
    match step
    case Decrement(j) => if s.counter - 1 >= 0 && k >= j then k + 1 else k
    case Clamp(j) => if k >= j then k + 1 else k
    case _ => k
  }

  // The step with which the k-th caller of the i-th state arrived.
  function ArrivalOf(states: seq<System>, steps: seq<Step>, i: nat, k: nat): (a: int)
    requires i < |states| == |steps| + 1
    ensures -1 <= a < i
  {
    if i == 0 then -1
    else if steps[i - 1].Arrive? && k == |states[i - 1].callers| then i - 1
    else ArrivalOf(states, steps, i - 1, PlaceBefore(states[i - 1], steps[i - 1], k))
  }

  // What a caller keeps from its arrival on.
  ghost predicate ArrivedAt(s: System, step: Step, c: Caller) {
    step.Arrive? && c.limit == step.limit && c.seen == |s.callers| + 1
  }

  lemma {:induction false} StepTraces(s: System, step: Step, k: nat)
    requires Invariant(s) && Enabled(s, step) && k < |Next(s, step).callers|
    requires !(step.Arrive? && k == |s.callers|)
    ensures var j := PlaceBefore(s, step, k);
            j < |s.callers| && Next(s, step).callers[k].limit == s.callers[j].limit &&
            Next(s, step).callers[k].seen == s.callers[j].seen
  {
  }

  lemma {:induction false} CallersArrived(states: seq<System>, steps: seq<Step>, i: nat, k: nat)
    requires IsRun(states, steps) && i < |states| && k < |states[i].callers|
    ensures var a := ArrivalOf(states, steps, i, k);
            a >= 0 && ArrivedAt(states[a], steps[a], states[i].callers[k])
    decreases i
  {
    if i > 0 {
      var s, step := states[i - 1], steps[i - 1];
      BulkheadHolds(states, steps, i - 1, 0);
      assert Enabled(s, step) && states[i - 1 + 1] == Next(s, step);
      if !(step.Arrive? && k == |s.callers|) {
        StepTraces(s, step, k);
        CallersArrived(states, steps, i - 1, PlaceBefore(s, step, k));
      }
    }
  }

  /**
   * Whenever a caller comes to its check, it is turned away exactly when as many callers as its limit,
   * or more, were in flight when it arrived.
   */
  lemma {:induction false} TurnedAwayIff(states: seq<System>, steps: seq<Step>, i: nat, k: nat)
    requires IsRun(states, steps) && i < |steps| && steps[i] == Check(k)
    ensures var a := ArrivalOf(states, steps, i, k);
            && a >= 0 && steps[a].Arrive? && k < |states[i + 1].callers|
            && (states[i + 1].callers[k].phase == Leaving <==> |states[a].callers| >= steps[a].limit)
  {
    assert Enabled(states[i], steps[i]) && states[i + 1] == Next(states[i], steps[i]);
    CallersArrived(states, steps, i, k);
  }

  /** Callers turned away count until they have decremented, so one can be turned away while nobody runs. */
  lemma {:induction false} TurnedAwayWhileNoneRuns(states: seq<System>, steps: seq<Step>)
    requires steps == [Arrive(1), Check(0), Arrive(1), Finish(0), Decrement(0), Arrive(1), Check(1)]
    requires states == [
               System(0, []),
               System(1, [Caller(1, 1, Counted)]),
               System(1, [Caller(1, 1, Running)]),
               System(2, [Caller(1, 1, Running), Caller(1, 2, Counted)]),
               System(2, [Caller(1, 1, Leaving), Caller(1, 2, Counted)]),
               System(1, [Caller(1, 2, Counted)]),
               System(2, [Caller(1, 2, Counted), Caller(1, 2, Counted)]),
               System(2, [Caller(1, 2, Counted), Caller(1, 2, Leaving)])]
    ensures IsRun(states, steps)
    ensures RunningUnder(states[6].callers, 1) == 0
  {
    assert Next(states[4], steps[4]).callers == [Caller(1, 2, Counted)];
    var callers := states[6].callers;
    assert callers[..1] == [Caller(1, 2, Counted)] && callers[..1][..0] == [];
    assert RunningUnder(callers[..1], 1) == 0;
  }
}

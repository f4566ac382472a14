/** Hybrid logical clocks over whole runs that share one physical time. */
module HybridClockCausality {
  import opened Causality
  import opened HybridLogicalClocks

  // Action i happens at times[i]. A node's clock is created at some time up to the node's first action, with
  // a wall time start(node) that is not ahead of it; it may be created long after the run began.
  ghost predicate TimedRun(trace: seq<Action>, times: seq<nat>, start: string -> nat) {
    && Run(trace) && |times| == |trace|
    && (forall i, j :: 0 <= i < j < |times| ==> times[i] <= times[j])
    && (forall i :: 0 <= i < |trace| ==> start(trace[i].node) <= times[i])
  }

  // The clock of the acting node before and after an action; a reception carries the sender's stamp.
  function Before(trace: seq<Action>, times: seq<nat>, start: string -> nat, i: nat): Stamp
    requires Run(trace) && |times| == |trace| && i < |trace|
    decreases i, 0
  {
    var p := Previous(trace, trace[i].node, i);
    if p < 0 then Stamp(start(trace[i].node), 0) else After(trace, times, start, p)
  }

  function After(trace: seq<Action>, times: seq<nat>, start: string -> nat, i: nat): Stamp
    requires Run(trace) && |times| == |trace| && i < |trace|
    decreases i, 1
  {
    match trace[i]
    case Local(_) => Ticked(Before(trace, times, start, i), times[i])
    case Receive(_, from) => Updated(Before(trace, times, start, i), After(trace, times, start, from), times[i])
  }

  /** No clock ever runs ahead of physical time, so the counter is never reset on reception. */
  lemma {:induction false} WallNeverAhead(trace: seq<Action>, times: seq<nat>, start: string -> nat, i: nat)
    requires TimedRun(trace, times, start) && i < |trace|
    ensures Before(trace, times, start, i).wall <= times[i] && After(trace, times, start, i).wall <= times[i]
    ensures trace[i].Receive? ==>
              var c, remote := Before(trace, times, start, i), After(trace, times, start, trace[i].from);
              !(c.wall > remote.wall && c.wall > times[i])
    decreases i
  {
    var p := Previous(trace, trace[i].node, i);
    if p >= 0 { WallNeverAhead(trace, times, start, p); }
    if trace[i].Receive? { WallNeverAhead(trace, times, start, trace[i].from); }
  }

  lemma {:induction false} StepAdvances(trace: seq<Action>, times: seq<nat>, start: string -> nat, i: nat)
    requires TimedRun(trace, times, start) && i < |trace|
    ensures Less(Before(trace, times, start, i), After(trace, times, start, i))
    ensures trace[i].Receive? ==> Less(After(trace, times, start, trace[i].from), After(trace, times, start, i))
  {
    WallNeverAhead(trace, times, start, i);
    if trace[i].Receive? {
      UpdateAdvances(Before(trace, times, start, i), After(trace, times, start, trace[i].from), times[i]);
    } else {
      TickAdvances(Before(trace, times, start, i), times[i]);
    }
  }

  lemma {:induction false} SameNodeAdvances(trace: seq<Action>, times: seq<nat>, start: string -> nat, i: nat, j: nat)
    requires TimedRun(trace, times, start) && i < j < |trace| && trace[i].node == trace[j].node
    ensures Less(After(trace, times, start, i), After(trace, times, start, j))
    decreases j
  {
    var p := Previous(trace, trace[j].node, j);
    StepAdvances(trace, times, start, j);
    if i < p {
      SameNodeAdvances(trace, times, start, i, p);
    }
  }

  /** Stamps strictly increase along every causal chain. */
  lemma {:induction false} StampsFollowCausality(trace: seq<Action>, times: seq<nat>, start: string -> nat, i: nat,
                                                 j: nat)
    requires TimedRun(trace, times, start) && j < |trace| && HappenedBefore(trace, i, j)
    ensures i < j && Less(After(trace, times, start, i), After(trace, times, start, j))
    decreases j
  {
    ReachesForward(trace, i, j);
    var k: nat :| Edge(trace, k, j) && Reaches(trace, i, k);
    if trace[k].node == trace[j].node {
      SameNodeAdvances(trace, times, start, k, j);
    } else {
      StepAdvances(trace, times, start, j);
    }
    if i != k {
      StampsFollowCausality(trace, times, start, i, k);
    }
  }

  // When physical time goes back, a reception can reset the counter and fall behind its own node's last stamp.
  lemma {:induction false} TimeGoingBackFallsBehind()
    ensures var last := Ticked(Ticked(Stamp(0, 0), 5), 5);
            !Less(last, Updated(last, Stamp(1, 0), 2))
  {
  }

  /**
   * A clock's next reception is sure to advance it, whatever stamp not ahead of the current time it
   * brings, exactly when the clock itself is not ahead of the current time.
   */
  lemma {:induction false} AdvancesForAllIff(c: Stamp, now: nat)
    ensures c.wall <= now <==> forall remote: Stamp :: remote.wall <= now ==> Less(c, Updated(c, remote, now))
  {
    if c.wall <= now {
      forall remote: Stamp | remote.wall <= now ensures Less(c, Updated(c, remote, now)) {
        UpdateAdvances(c, remote, now);
      }
    } else {
      UpdateAdvances(c, Stamp(now, 0), now);
    }
  }
}

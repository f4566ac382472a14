/** Vector clocks over whole runs: the comparison of two events' clocks is their causal order. */
module VectorClockCausality {
  import opened Bounds
  import opened Causality
  import opened VectorClocks

  // The clock a node holds before and after an action: it counts its own events and merges what it receives.
  function Before(trace: seq<Action>, i: nat): Clock
    requires Run(trace) && i < |trace|
    decreases i, 0
  {
    var p := Previous(trace, trace[i].node, i);
    if p < 0 then map[] else After(trace, p)
  }

  function After(trace: seq<Action>, i: nat): Clock
    requires Run(trace) && i < |trace|
    decreases i, 1
  {
    match trace[i]
    case Local(node) => Incremented(Before(trace, i), node)
    case Receive(_, from) => Merged(Before(trace, i), After(trace, from))
  }

  lemma {:induction false} AfterPositive(trace: seq<Action>, i: nat)
    requires Run(trace) && i < |trace|
    ensures Positive(After(trace, i)) && Positive(Before(trace, i))
    decreases i
  {
    var p := Previous(trace, trace[i].node, i);
    if p >= 0 { AfterPositive(trace, p); }
    match trace[i]
    case Local(node) => PositiveKept(Before(trace, i), map[], node);
    case Receive(node, from) =>
      AfterPositive(trace, from);
      PositiveKept(Before(trace, i), After(trace, from), node);
  }

  // One action only adds to what its node and its sender knew.
  lemma {:induction false} AfterGet(trace: seq<Action>, i: nat, u: string)
    requires Run(trace) && i < |trace|
    ensures Get(After(trace, i), u) ==
              match trace[i]
              case Local(node) => Get(Before(trace, i), u) + (if u == node then 1 else 0)
              case Receive(_, from) => Max(Get(Before(trace, i), u), Get(After(trace, from), u))
    ensures Get(Before(trace, i), u) >= 0
  {
    AfterPositive(trace, i);
    if trace[i].Receive? {
      AfterPositive(trace, trace[i].from);
      MergedGet(Before(trace, i), After(trace, trace[i].from), u);
    }
  }

  // Along one node's actions no count falls, and its own count rises with each of its events.
  lemma {:induction false} SameNodeGrows(trace: seq<Action>, i: nat, j: nat, u: string)
    requires Run(trace) && i < j < |trace| && trace[i].node == trace[j].node
    ensures Get(After(trace, i), u) <= Get(Before(trace, j), u) <= Get(After(trace, j), u)
    decreases j
  {
    var p := Previous(trace, trace[j].node, j);
    AfterGet(trace, j, u);
    if i < p {
      SameNodeGrows(trace, i, p, u);
    }
  }

  lemma {:induction false} ReachesGrows(trace: seq<Action>, i: nat, j: nat, u: string)
    requires Run(trace) && j < |trace| && Reaches(trace, i, j)
    ensures i < |trace| && Get(After(trace, i), u) <= Get(After(trace, j), u)
    decreases j
  {
    if i != j {
      var k: nat :| Edge(trace, k, j) && Reaches(trace, i, k);
      ReachesGrows(trace, i, k, u);
      if trace[k].node == trace[j].node {
        SameNodeGrows(trace, k, j, u);
      } else {
        AfterGet(trace, j, u);
      }
    }
  }

  // Whoever holds a count for u as high as u's own after its event i knows of that event.
  lemma {:induction false} CountReaches(trace: seq<Action>, i: nat, j: nat)
    requires Run(trace) && i < |trace| && j < |trace| && trace[i].Local?
    requires Get(After(trace, j), trace[i].node) >= Get(After(trace, i), trace[i].node)
    ensures Reaches(trace, i, j)
    decreases j
  {
    var u := trace[i].node;
    AfterGet(trace, i, u);
    AfterGet(trace, j, u);
    if trace[j].node == u {
      if i < j {
        assert Edge(trace, i, j) && Reaches(trace, i, i);
      } else if j < i {
        SameNodeGrows(trace, j, i, u);
      }
    } else {
      var p := Previous(trace, trace[j].node, j);
      if Get(Before(trace, j), u) >= Get(After(trace, i), u) {
        CountReaches(trace, i, p);
        StepReaches(trace, i, p, j);
      } else {
        CountReaches(trace, i, trace[j].from);
        StepReaches(trace, i, trace[j].from, j);
      }
    }
  }

  /**
   * Vector clocks characterise causality: in every run, the clock of one event compares as before
   * the clock of another exactly when the one happened before the other.
   */
  lemma {:induction false} ClocksCharacteriseCausality(trace: seq<Action>, i: nat, j: nat)
    requires Run(trace) && i < |trace| && j < |trace| && trace[i].Local? && trace[j].Local?
    ensures Compared(After(trace, i), After(trace, j)) == -1 <==> HappenedBefore(trace, i, j)
    ensures Compared(After(trace, i), After(trace, j)) == 1 <==> HappenedBefore(trace, j, i)
  {
    AfterPositive(trace, i);
    AfterPositive(trace, j);
    ComparedMeans(After(trace, i), After(trace, j));
    LeqIsReaches(trace, i, j);
    LeqIsReaches(trace, j, i);
    if Reaches(trace, i, j) { ReachesForward(trace, i, j); }
    if Reaches(trace, j, i) { ReachesForward(trace, j, i); }
  }

  lemma {:induction false} LeqIsReaches(trace: seq<Action>, i: nat, j: nat)
    requires Run(trace) && i < |trace| && j < |trace| && trace[i].Local?
    ensures Leq(After(trace, i), After(trace, j)) <==> Reaches(trace, i, j)
  {
    if Leq(After(trace, i), After(trace, j)) {
      assert Get(After(trace, i), trace[i].node) <= Get(After(trace, j), trace[i].node);
      CountReaches(trace, i, j);
    } else if Reaches(trace, i, j) {
      forall u ensures Get(After(trace, i), u) <= Get(After(trace, j), u) {
        ReachesGrows(trace, i, j, u);
      }
    }
  }

  // ---- What a count counts ----

  // How many of u's events among the first n actions are in the causal past of action j.
  ghost function KnownEvents(trace: seq<Action>, u: string, j: nat, n: nat): nat
    requires j < |trace| && n <= |trace|
  {
    if n == 0 then 0
    else KnownEvents(trace, u, j, n - 1) + (if trace[n - 1] == Local(u) && Reaches(trace, n - 1, j) then 1 else 0)
  }

  function Events(trace: seq<Action>, u: string, n: nat): nat
    requires n <= |trace|
  {
    if n == 0 then 0 else Events(trace, u, n - 1) + (if trace[n - 1] == Local(u) then 1 else 0)
  }

  // No count is above the number of events there were, and a node's own count is that number.
  lemma {:induction false} CountBounded(trace: seq<Action>, u: string, j: nat)
    requires Run(trace) && j < |trace|
    ensures 0 <= Get(After(trace, j), u) <= Events(trace, u, j + 1)
    ensures trace[j].node == u ==> Get(After(trace, j), u) == Events(trace, u, j + 1)
    decreases j
  {
    AfterGet(trace, j, u);
    var p := Previous(trace, trace[j].node, j);
    if p >= 0 {
      CountBounded(trace, u, p);
      EventsGrow(trace, u, p + 1, j);
    }
    if trace[j].Receive? {
      CountBounded(trace, u, trace[j].from);
      EventsGrow(trace, u, trace[j].from + 1, j);
    }
    if trace[j].node == u {
      EventsOnlyAt(trace, u, p + 1, j);
    }
  }

  lemma {:induction false} EventsGrow(trace: seq<Action>, u: string, m: nat, n: nat)
    requires m <= n <= |trace|
    ensures Events(trace, u, m) <= Events(trace, u, n)
  {
    if m < n { EventsGrow(trace, u, m, n - 1); }
  }

  lemma {:induction false} EventsOnlyAt(trace: seq<Action>, u: string, m: nat, n: nat)
    requires m <= n <= |trace| && forall k :: m <= k < n ==> trace[k].node != u
    ensures Events(trace, u, n) == Events(trace, u, m)
  {
    if m < n { EventsOnlyAt(trace, u, m, n - 1); }
  }

  // u's events that j knows of are its first ones, as many as j's count says.
  lemma {:induction false} KnownAreFirst(trace: seq<Action>, u: string, j: nat, n: nat)
    requires Run(trace) && j < |trace| && n <= |trace|
    ensures var c := Get(After(trace, j), u);
            KnownEvents(trace, u, j, n) == if Events(trace, u, n) <= c then Events(trace, u, n) else c
  {
    CountBounded(trace, u, j);
    if n > 0 {
      KnownAreFirst(trace, u, j, n - 1);
      if trace[n - 1] == Local(u) {
        CountBounded(trace, u, n - 1);
        if Get(After(trace, j), u) >= Get(After(trace, n - 1), u) {
          CountReaches(trace, n - 1, j);
        } else if Reaches(trace, n - 1, j) {
          ReachesGrows(trace, n - 1, j, u);
        }
      }
    }
  }

  /** A node's count for u is the number of u's events in its causal past, and never above u's own count. */
  lemma {:induction false} CountIsCausalPast(trace: seq<Action>, u: string, j: nat)
    requires Run(trace) && j < |trace|
    ensures Get(After(trace, j), u) == KnownEvents(trace, u, j, |trace|) <= Events(trace, u, j + 1)
  {
    CountBounded(trace, u, j);
    EventsGrow(trace, u, j + 1, |trace|);
    KnownAreFirst(trace, u, j, |trace|);
  }
}

/**
 * Runs of a distributed system, and the happened-before relation on their actions. A node acts on
 * its own or receives what some earlier action sent; messages may be lost, repeated and reordered,
 * since any later action may receive any earlier one.
 */
module Causality {

  datatype Action = Local(node: string) | Receive(node: string, from: nat)

  ghost predicate Run(trace: seq<Action>) {
    forall i :: 0 <= i < |trace| && trace[i].Receive? ==> trace[i].from < i
  }

  // One node's successive actions, or a sending and a reception of it.
  predicate Edge(trace: seq<Action>, i: nat, j: nat)
    requires j < |trace|
  {
    i < j && (trace[i].node == trace[j].node || (trace[j].Receive? && trace[j].from == i))
  }

  /** Action i is action j or happened before it. */
  ghost predicate Reaches(trace: seq<Action>, i: nat, j: nat)
    requires j < |trace|
    decreases j
  {
    i == j || exists k: nat :: Edge(trace, k, j) && Reaches(trace, i, k)
  }

  ghost predicate HappenedBefore(trace: seq<Action>, i: nat, j: nat)
    requires j < |trace|
  {
    i != j && Reaches(trace, i, j)
  }

  // The node's latest action before action i, if it had one.
  function Previous(trace: seq<Action>, node: string, i: nat): (p: int)
    requires i <= |trace|
    ensures -1 <= p < i
    ensures p >= 0 ==> trace[p].node == node
    ensures forall k :: p < k < i ==> trace[k].node != node
  {
    if i == 0 then -1 else if trace[i - 1].node == node then i - 1 else Previous(trace, node, i - 1)
  }

  lemma {:induction false} ReachesForward(trace: seq<Action>, i: nat, j: nat)
    requires j < |trace| && Reaches(trace, i, j)
    ensures i <= j
    decreases j
  {
    if i != j {
      var k: nat :| Edge(trace, k, j) && Reaches(trace, i, k);
      ReachesForward(trace, i, k);
    }
  }

  lemma {:induction false} StepReaches(trace: seq<Action>, i: nat, k: nat, j: nat)
    requires j < |trace| && Edge(trace, k, j) && Reaches(trace, i, k)
    ensures Reaches(trace, i, j)
  {
  }
}

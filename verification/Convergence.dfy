/**
 * Any number of concurrent edits, integrated in any order: when every two of them are either
 * disjoint by the detector's overlap test or both deletions, every order produces one document,
 * and that document is the one a direct reading of the batch describes.
 */
module Convergence {
  import opened Joins
  import opened OperationalTransform

  // The width the overlap test gives an operation.
  function Width(op: Operation): nat { if op.Insert? then |op.text| else op.length }

  // The overlap test itself: neither region reaches into the other.
  predicate Disjoint(a: Operation, b: Operation) {
    a.position + Width(a) <= b.position || b.position + Width(b) <= a.position
  }

  predicate Compatible(a: Operation, b: Operation) {
    Disjoint(a, b) || (a.Delete? && b.Delete?)
  }

  // An insertion carries text, a replacement replaces something; a deletion may be empty.
  predicate Effective(op: Operation) {
    op.Delete? || Width(op) > 0
  }

  predicate Member(op: Operation, n: nat) { InBounds(op, n) && Effective(op) }

  ghost predicate Batch(ops: seq<Operation>, n: nat) {
    && (forall i :: 0 <= i < |ops| ==> Member(ops[i], n))
    && (forall i, j :: 0 <= i < j < |ops| ==> Compatible(ops[i], ops[j]))
  }

  /** An operation brought up to date against operations executed one after the other. */
  function TransformThrough(op: Operation, executed: seq<Operation>): Operation
    decreases |executed|
  {
    if executed == [] then op else TransformThrough(Transform(op, executed[0]), executed[1..])
  }

  /** A replica: each incoming operation is transformed against all it has executed, in turn, then executed. */
  function Replica(doc: string, executed: seq<Operation>, incoming: seq<Operation>): string
    decreases |incoming|
  {
    if incoming == [] then doc
    else
      var op := TransformThrough(incoming[0], executed);
      Replica(Apply(doc, op), executed + [op], incoming[1..])
  }

  // ---- What the batch means, without any transformation ----

  predicate Removes(op: Operation, i: nat) { op.position <= i < op.position + Cut(op) }

  predicate Types(op: Operation, i: nat) { !op.Delete? && op.position == i }

  predicate Removed(ops: seq<Operation>, i: nat) {
    ops != [] && (Removes(ops[0], i) || Removed(ops[1..], i))
  }

  function TypedAt(ops: seq<Operation>, i: nat): string {
    if ops == [] then "" else (if Types(ops[0], i) then ops[0].text else "") + TypedAt(ops[1..], i)
  }

  // What the batch leaves at position i: the text typed there, then the character unless it is removed.
  function Cell(doc: string, ops: seq<Operation>, i: nat): string {
    TypedAt(ops, i) + (if i < |doc| && !Removed(ops, i) then [doc[i]] else "")
  }

  function Reading(doc: string, ops: seq<Operation>): nat -> string {
    (i: nat) => Cell(doc, ops, i)
  }

  // Everything the batch leaves from one position on; position |doc| is the end, where only typing can happen.
  function Cells(doc: string, ops: seq<Operation>, from: nat): (r: seq<string>)
    requires from <= |doc| + 1
    ensures |r| == |doc| + 1 - from
  {
    Tabulated(Reading(doc, ops), from, |doc| + 1)
  }

  lemma {:induction false} CellsAt(doc: string, ops: seq<Operation>, i: nat)
    requires i <= |doc|
    ensures Cells(doc, ops, 0)[i] == Cell(doc, ops, i)
  {
    TabulatedAt(Reading(doc, ops), 0, |doc| + 1, i);
  }

  /** The document the batch describes. */
  function Rendered(doc: string, ops: seq<Operation>): string {
    Joined(Cells(doc, ops, 0))
  }

  // ---- One executed operation ----

  function TransformAll(ops: seq<Operation>, b: Operation): (r: seq<Operation>)
    ensures |r| == |ops|
  {
    if ops == [] then [] else [Transform(ops[0], b)] + TransformAll(ops[1..], b)
  }

  lemma {:induction false} TransformAllAt(ops: seq<Operation>, b: Operation, k: nat)
    requires k < |ops|
    ensures TransformAll(ops, b)[k] == Transform(ops[k], b)
  {
    if k > 0 {
      TransformAllAt(ops[1..], b, k - 1);
    }
  }

  function Length(n: nat, op: Operation): nat
    requires InBounds(op, n)
  {
    n - Cut(op) + |Text(op)|
  }

  // Where a position left of b, or right of what b cut, lies once b is executed.
  function Moved(i: nat, b: Operation): nat {
    if i >= b.position + Cut(b) then i - Cut(b) + |Text(b)| else i
  }

  // The closed form of the transformation on compatible operations: leave alone, shift, or, between
  // two deletions, keep what the other one leaves.
  function Adjusted(a: Operation, b: Operation): Operation {
    if a.Delete? && b.Delete? then
      var start := PastDeletion(a.position, b.position, b.length);
      var end := PastDeletion(a.position + a.length, b.position, b.length);
      Delete(start, end - start)
    else if a.position < b.position then a
    else match a
      case Insert(p, s) => Insert(Moved(p, b), s)
      case Replace(p, n, s) => Replace(Moved(p, b), n, s)
      case Delete(p, n) => if n > 0 || p > b.position then Delete(Moved(p, b), n) else Delete(b.position + |Text(b)|, 0)
  }

  lemma {:induction false} AgainstInsertAdjusts(a: Operation, b: Operation)
    requires b.Insert? && Effective(a) && Effective(b) && Disjoint(a, b)
    ensures TransformAgainstInsert(a, b) == Adjusted(a, b)
  {
  }

  lemma {:induction false} AgainstDeleteAdjusts(a: Operation, b: Operation)
    requires b.Delete? && Effective(a) && Compatible(a, b)
    ensures TransformAgainstDelete(a, b) == Adjusted(a, b)
  {
  }

  lemma {:induction false} AgainstReplaceAdjusts(a: Operation, b: Operation)
    requires b.Replace? && Effective(a) && Effective(b) && Disjoint(a, b)
    ensures Transform(a, b) == Adjusted(a, b)
  {
  }

  lemma {:induction false} TransformAdjusts(a: Operation, b: Operation)
    requires Effective(a) && Effective(b) && Compatible(a, b)
    ensures Transform(a, b) == Adjusted(a, b)
  {
    match b
    case Insert(_, _) => AgainstInsertAdjusts(a, b);
    case Delete(_, _) => AgainstDeleteAdjusts(a, b);
    case Replace(_, _, _) => AgainstReplaceAdjusts(a, b);
  }

  lemma {:induction false} AdjustedDeletionReads(a: Operation, b: Operation, i: nat)
    requires a.Delete? && b.Delete?
    requires i < b.position || i >= b.position + Cut(b)
    ensures Removes(Adjusted(a, b), Moved(i, b)) == Removes(a, i)
  {
  }

  lemma {:induction false} AdjustedReads(a: Operation, b: Operation, i: nat)
    requires Effective(a) && Effective(b) && Disjoint(a, b) && !(a.Delete? && b.Delete?)
    ensures i < b.position || i >= b.position + Cut(b) ==>
              && Removes(Adjusted(a, b), Moved(i, b)) == Removes(a, i)
              && Types(Adjusted(a, b), Moved(i, b)) == Types(a, i)
    ensures b.position <= i < b.position + |Text(b)| ==>
              !Removes(Adjusted(a, b), i) && !Types(Adjusted(a, b), i)
  {
  }

  // How an operation reads, position by position, after another one has been executed.
  lemma {:induction false} TransformReads(a: Operation, b: Operation, i: nat)
    requires Effective(a) && Effective(b) && Compatible(a, b)
    ensures i < b.position || i >= b.position + Cut(b) ==>
              && Removes(Transform(a, b), Moved(i, b)) == Removes(a, i)
              && Types(Transform(a, b), Moved(i, b)) == Types(a, i)
    ensures b.position <= i < b.position + |Text(b)| ==>
              !Removes(Transform(a, b), i) && !Types(Transform(a, b), i)
    ensures Text(Transform(a, b)) == Text(a)
  {
    TransformAdjusts(a, b);
    if !(a.Delete? && b.Delete?) {
      AdjustedReads(a, b, i);
    } else if i < b.position || i >= b.position + Cut(b) {
      AdjustedDeletionReads(a, b, i);
    }
  }

  lemma {:induction false} AdjustedKeepsOrder(a: Operation, c: Operation, b: Operation)
    requires Effective(a) && Effective(b) && Effective(c)
    requires Compatible(a, b) && Compatible(c, b) && a.position + Width(a) <= c.position
    ensures Disjoint(Adjusted(a, b), Adjusted(c, b))
  {
    if b.Delete? {
      AdjustedEnds(a, b);
      AdjustedEnds(c, b);
    }
  }

  // Against a deletion, an operation's region runs between the images of its two ends.
  lemma {:induction false} AdjustedEnds(a: Operation, b: Operation)
    requires Effective(a) && b.Delete? && Compatible(a, b)
    ensures Adjusted(a, b).position == PastDeletion(a.position, b.position, b.length)
    ensures a.Delete? ==>
            Adjusted(a, b).position + Width(Adjusted(a, b)) == PastDeletion(a.position + Width(a), b.position, b.length)
    ensures !a.Delete? ==> Width(Adjusted(a, b)) == Width(a)
  {
  }

  lemma {:induction false} TransformKeepsMember(a: Operation, b: Operation, n: nat)
    requires Member(a, n) && Member(b, n) && Compatible(a, b)
    ensures Member(Transform(a, b), Length(n, b))
  {
    TransformAdjusts(a, b);
  }

  lemma {:induction false} TransformKeepsCompatible(a: Operation, c: Operation, b: Operation)
    requires Effective(a) && Effective(b) && Effective(c)
    requires Compatible(a, b) && Compatible(c, b) && Compatible(a, c)
    ensures Compatible(Transform(a, b), Transform(c, b))
  {
    TransformAdjusts(a, b);
    TransformAdjusts(c, b);
    if a.position + Width(a) <= c.position {
      AdjustedKeepsOrder(a, c, b);
    } else if c.position + Width(c) <= a.position {
      AdjustedKeepsOrder(c, a, b);
    }
  }

  lemma {:induction false} TailIsBatch(ops: seq<Operation>, n: nat)
    requires Batch(ops, n) && ops != []
    ensures Batch(TransformAll(ops[1..], ops[0]), Length(n, ops[0]))
  {
    var rest := TransformAll(ops[1..], ops[0]);
    forall i, j | 0 <= i <= j < |rest|
      ensures Member(rest[i], Length(n, ops[0])) && (i < j ==> Compatible(rest[i], rest[j]))
    {
      assert Compatible(ops[0], ops[i + 1]) && Compatible(ops[0], ops[j + 1]);
      TransformAllAt(ops[1..], ops[0], i);
      TransformAllAt(ops[1..], ops[0], j);
      if i < j {
        assert Compatible(ops[i + 1], ops[j + 1]);
        TransformKeepsCompatible(ops[i + 1], ops[j + 1], ops[0]);
      }
      TransformKeepsMember(ops[i + 1], ops[0], n);
    }
  }

  // ---- What executing one operation does to the description of the others ----

  predicate AllCompatible(ops: seq<Operation>, b: Operation)
    decreases |ops|
  {
    Effective(b) && (ops == [] || (Effective(ops[0]) && Compatible(ops[0], b) && AllCompatible(ops[1..], b)))
  }

  lemma {:induction false} EachCompatible(ops: seq<Operation>, b: Operation)
    requires Effective(b) && forall k :: 0 <= k < |ops| ==> Effective(ops[k]) && Compatible(ops[k], b)
    ensures AllCompatible(ops, b)
    decreases |ops|
  {
    if ops != [] {
      EachCompatible(ops[1..], b);
    }
  }

  lemma {:induction false} ReadAfter(ops: seq<Operation>, b: Operation, i: nat)
    requires AllCompatible(ops, b)
    ensures i < b.position || i >= b.position + Cut(b) ==>
              && TypedAt(TransformAll(ops, b), Moved(i, b)) == TypedAt(ops, i)
              && Removed(TransformAll(ops, b), Moved(i, b)) == Removed(ops, i)
    ensures b.position <= i < b.position + |Text(b)| ==>
              TypedAt(TransformAll(ops, b), i) == "" && !Removed(TransformAll(ops, b), i)
  {
    if ops != [] {
      TransformReads(ops[0], b, i);
      ReadAfter(ops[1..], b, i);
    }
  }

  // How a batch reads once t has been put in place of p..q, and after is what is left of the batch.
  ghost predicate ReadsAfter(ops: seq<Operation>, p: nat, q: nat, n: nat, after: seq<Operation>) {
    && (forall i: nat :: i < p ==> TypedAt(after, i) == TypedAt(ops, i) && Removed(after, i) == Removed(ops, i))
    && (forall i: nat :: p <= i < p + n ==> TypedAt(after, i) == "" && !Removed(after, i))
    && (forall i: nat :: q <= i ==> TypedAt(after, i - q + (p + n)) == TypedAt(ops, i) &&
                                    Removed(after, i - q + (p + n)) == Removed(ops, i))
  }

  lemma {:induction false} TransformAllReads(ops: seq<Operation>, b: Operation, p: nat, q: nat, n: nat,
                                             after: seq<Operation>)
    requires AllCompatible(ops, b) && after == TransformAll(ops, b)
    requires p == b.position && q == p + Cut(b) && n == |Text(b)|
    ensures p <= q && ReadsAfter(ops, p, q, n, after)
  {
    forall i: nat ensures i < p ==> TypedAt(after, i) == TypedAt(ops, i) && Removed(after, i) == Removed(ops, i) {
      ReadAfter(ops, b, i);
    }
    forall i: nat ensures p <= i < p + n ==> TypedAt(after, i) == "" && !Removed(after, i) {
      ReadAfter(ops, b, i);
    }
    forall i: nat | q <= i
      ensures TypedAt(after, i - q + (p + n)) == TypedAt(ops, i) && Removed(after, i - q + (p + n)) == Removed(ops, i)
    {
      ReadAfter(ops, b, i);
      assert Moved(i, b) == i - q + (p + n);
    }
  }

  // Text is typed neither inside what a compatible operation cuts nor where it types.
  lemma {:induction false} NothingTyped(ops: seq<Operation>, b: Operation, i: nat)
    requires AllCompatible(ops, b) && (b.position <= i < b.position + Cut(b) || Types(b, i))
    ensures TypedAt(ops, i) == ""
  {
    if ops != [] {
      NothingTyped(ops[1..], b, i);
    }
  }

  // The document after an edit: the edit's text in place of what it cuts.
  lemma {:induction false} ApplyIs(doc: string, b: Operation)
    requires InBounds(b, |doc|)
    ensures Apply(doc, b) == doc[..b.position] + Text(b) + doc[b.position + Cut(b)..]
  {
  }

  lemma {:induction false} SameCell(doc: string, ops: seq<Operation>, i: nat, doc': string, after: seq<Operation>,
                                    j: nat)
    requires TypedAt(after, j) == TypedAt(ops, i) && Removed(after, j) == Removed(ops, i)
    requires (i < |doc| <==> j < |doc'|) && (i < |doc| ==> doc[i] == doc'[j])
    ensures Cell(doc', after, j) == Cell(doc, ops, i)
  {
  }

  lemma {:induction false} PlainCell(doc: string, after: seq<Operation>, i: nat)
    requires i < |doc| && TypedAt(after, i) == "" && !Removed(after, i)
    ensures Cell(doc, after, i) == [doc[i]]
  {
  }

  // Equal cells before and after t has been put where p..q was, and t between.
  lemma {:induction false} CellsAfter(doc: string, ops: seq<Operation>, doc': string, after: seq<Operation>,
                                      h: seq<string>, g: seq<string>, p: nat, q: nat, t: string)
    requires ReadsAfter(ops, p, q, |t|, after) && p <= q <= |doc| && doc' == doc[..p] + t + doc[q..]
    requires h == Cells(doc, ops, 0) && g == Cells(doc', after, 0)
    ensures |g| == p + |t| + (|h| - q)
    ensures h[..p] == g[..p] && h[q..] == g[p + |t|..]
    ensures forall i :: p <= i < p + |t| ==> g[i] == [t[i - p]]
  {
    forall i: nat | i < p ensures h[i] == g[i] {
      CellsAt(doc, ops, i);
      CellsAt(doc', after, i);
      SameCell(doc, ops, i, doc', after, i);
    }
    forall i: nat | p <= i < p + |t| ensures g[i] == [t[i - p]] {
      CellsAt(doc', after, i);
      PlainCell(doc', after, i);
    }
    forall i: nat | q <= i <= |doc| ensures h[i] == g[i - q + (p + |t|)] {
      var j := i - q + (p + |t|);
      CellsAt(doc, ops, i);
      CellsAt(doc', after, j);
      SameCell(doc, ops, i, doc', after, j);
    }
  }

  // The first operation's own contribution: its text, in place of what it cuts.
  lemma {:induction false} CellFirst(doc: string, ops: seq<Operation>, i: nat)
    requires ops != [] && AllCompatible(ops[1..], ops[0])
    ensures var p, q := ops[0].position, ops[0].position + Cut(ops[0]);
            && (i < p || (p < i && q <= i) ==> Cell(doc, ops, i) == Cell(doc, ops[1..], i))
            && (i == p ==> Cell(doc, ops, i) == Text(ops[0]) + if p == q then Cell(doc, ops[1..], i) else "")
            && (p < i < q ==> Cell(doc, ops, i) == "")
  {
    var b, rest := ops[0], ops[1..];
    if b.position <= i < b.position + Cut(b) || Types(b, i) {
      NothingTyped(rest, b, i);
    }
    assert TypedAt(ops, i) == (if Types(b, i) then b.text else "") + TypedAt(rest, i);
    assert Removed(ops, i) == (Removes(b, i) || Removed(rest, i));
  }

  // Before p the batch reads as the rest of it does; from p on as t in place of p..q, then as the rest.
  lemma {:induction false} FirstLeads(doc: string, ops: seq<Operation>, b: Operation, rest: seq<Operation>,
                                      f: seq<string>, h: seq<string>, p: nat, q: nat, t: string)
    requires ops == [b] + rest && AllCompatible(rest, b) && InBounds(b, |doc|)
    requires f == Cells(doc, ops, 0) && h == Cells(doc, rest, 0)
    requires p == b.position && q == p + Cut(b) && t == Text(b)
    ensures p <= q < |f| && f[..p] == h[..p] && f[p] == t + (if p == q then h[p] else "")
    ensures forall i :: p < i < q ==> f[i] == ""
    ensures forall i :: p < i < |f| && q <= i ==> f[i] == h[i]
  {
    assert ops[0] == b && ops[1..] == rest;
    forall i: nat | i < p ensures f[i] == h[i] {
      CellsAt(doc, ops, i);
      CellsAt(doc, rest, i);
      CellFirst(doc, ops, i);
    }
    CellsAt(doc, ops, p);
    CellsAt(doc, rest, p);
    CellFirst(doc, ops, p);
    forall i: nat | p < i < q ensures f[i] == "" {
      CellsAt(doc, ops, i);
      CellFirst(doc, ops, i);
    }
    forall i: nat | p < i <= |doc| && q <= i ensures f[i] == h[i] {
      CellsAt(doc, ops, i);
      CellsAt(doc, rest, i);
      CellFirst(doc, ops, i);
    }
  }

  /** Executing the first operation and transforming the others keeps the document the batch describes. */
  lemma {:induction false} ExecuteKeepsRendered(doc: string, ops: seq<Operation>, b: Operation, rest: seq<Operation>,
                                                doc': string, after: seq<Operation>)
    requires ops == [b] + rest && AllCompatible(rest, b) && InBounds(b, |doc|)
    requires doc' == Apply(doc, b) && after == TransformAll(rest, b)
    ensures Rendered(doc', after) == Rendered(doc, ops)
  {
    var p, q, t := b.position, b.position + Cut(b), Text(b);
    var f, h, g := Cells(doc, ops, 0), Cells(doc, rest, 0), Cells(doc', after, 0);
    ApplyIs(doc, b);
    TransformAllReads(rest, b, p, q, |t|, after);
    CellsAfter(doc, rest, doc', after, h, g, p, q, t);
    FirstLeads(doc, ops, b, rest, f, h, p, q, t);
    PiecesSplice(f, h, g, p, q, t);
  }

  // ---- A replica executes the whole batch ----

  function ThroughAll(ops: seq<Operation>, executed: seq<Operation>): (r: seq<Operation>)
    ensures |r| == |ops|
    decreases |executed|
  {
    if executed == [] then ops else ThroughAll(TransformAll(ops, executed[0]), executed[1..])
  }

  lemma {:induction false} ThroughAllHead(ops: seq<Operation>, executed: seq<Operation>)
    requires ops != []
    ensures ThroughAll(ops, executed) == [TransformThrough(ops[0], executed)] + ThroughAll(ops[1..], executed)
    decreases |executed|
  {
    if executed != [] {
      ThroughAllHead(TransformAll(ops, executed[0]), executed[1..]);
    }
  }

  lemma {:induction false} ThroughAllSnoc(ops: seq<Operation>, executed: seq<Operation>, op: Operation)
    ensures ThroughAll(ops, executed + [op]) == TransformAll(ThroughAll(ops, executed), op)
    decreases |executed|
  {
    if executed == [] {
      assert executed + [op] == [op];
      assert [op][1..] == [];
    } else {
      assert (executed + [op])[1..] == executed[1..] + [op];
      ThroughAllSnoc(TransformAll(ops, executed[0]), executed[1..], op);
    }
  }

  lemma {:induction false} RenderedNone(doc: string)
    ensures Rendered(doc, []) == doc
  {
    var f := Cells(doc, [], 0);
    forall i: nat | i <= |doc| ensures f[i] == if i < |doc| then [doc[i]] else "" {
      CellsAt(doc, [], i);
    }
    JoinedText(f[..|doc|], doc);
    JoinedBlank(f[|doc|..]);
    assert f == f[..|doc|] + f[|doc|..];
    JoinedSplit(f[..|doc|], f[|doc|..]);
  }

  lemma {:induction false} BatchAllCompatible(ops: seq<Operation>, n: nat)
    requires Batch(ops, n) && ops != []
    ensures InBounds(ops[0], n) && AllCompatible(ops[1..], ops[0])
  {
    forall k | 0 <= k < |ops[1..]| ensures Effective(ops[1..][k]) && Compatible(ops[1..][k], ops[0]) {
      assert Member(ops[k + 1], n) && Compatible(ops[0], ops[k + 1]);
    }
    EachCompatible(ops[1..], ops[0]);
  }

  // Whatever a replica has executed, what is still to come is rendered on top of it.
  lemma {:induction false} ReplicaRenders(doc: string, executed: seq<Operation>, incoming: seq<Operation>)
    requires Batch(ThroughAll(incoming, executed), |doc|)
    ensures Replica(doc, executed, incoming) == Rendered(doc, ThroughAll(incoming, executed))
    decreases |incoming|
  {
    if incoming == [] {
      RenderedNone(doc);
    } else {
      var ops := ThroughAll(incoming, executed);
      var op, rest := TransformThrough(incoming[0], executed), ThroughAll(incoming[1..], executed);
      ThroughAllHead(incoming, executed);
      assert ops[1..] == rest;
      BatchAllCompatible(ops, |doc|);
      ExecuteKeepsRendered(doc, ops, op, rest, Apply(doc, op), TransformAll(rest, op));
      ThroughAllSnoc(incoming[1..], executed, op);
      TailIsBatch(ops, |doc|);
      ApplyIs(doc, op);
      ReplicaRenders(Apply(doc, op), executed + [op], incoming[1..]);
    }
  }

  // ---- The order of the batch does not matter ----

  lemma {:induction false} RemovedIff(ops: seq<Operation>, i: nat)
    ensures Removed(ops, i) <==> exists k :: 0 <= k < |ops| && Removes(ops[k], i)
  {
    if ops != [] {
      RemovedIff(ops[1..], i);
      if k :| 0 <= k < |ops[1..]| && Removes(ops[1..][k], i) {
        assert Removes(ops[k + 1], i);
      }
    }
  }

  lemma {:induction false} TypedAtNone(ops: seq<Operation>, i: nat)
    requires forall k :: 0 <= k < |ops| ==> !Types(ops[k], i)
    ensures TypedAt(ops, i) == ""
  {
    if ops != [] {
      TypedAtNone(ops[1..], i);
    }
  }

  // At most one operation of a batch types at a position.
  lemma {:induction false} TypedAtOnly(ops: seq<Operation>, i: nat, k: nat)
    requires forall j :: 0 <= j < |ops| ==> Effective(ops[j])
    requires forall a, b :: 0 <= a < b < |ops| ==> Compatible(ops[a], ops[b])
    requires k < |ops| && Types(ops[k], i)
    ensures TypedAt(ops, i) == ops[k].text
  {
    if k == 0 {
      forall j | 0 <= j < |ops[1..]| ensures !Types(ops[1..][j], i) {
        assert Compatible(ops[0], ops[j + 1]);
      }
      TypedAtNone(ops[1..], i);
    } else {
      assert Compatible(ops[0], ops[k]);
      forall a, b | 0 <= a < b < |ops[1..]| ensures Compatible(ops[1..][a], ops[1..][b]) {
        assert Compatible(ops[a + 1], ops[b + 1]);
      }
      TypedAtOnly(ops[1..], i, k - 1);
    }
  }

  lemma {:induction false} SameRemoved(xs: seq<Operation>, ys: seq<Operation>, i: nat)
    requires forall op :: op in xs <==> op in ys
    ensures Removed(xs, i) == Removed(ys, i)
  {
    RemovedIff(xs, i);
    RemovedIff(ys, i);
    if k :| 0 <= k < |xs| && Removes(xs[k], i) {
      assert xs[k] in ys;
    }
    if k :| 0 <= k < |ys| && Removes(ys[k], i) {
      assert ys[k] in xs;
    }
  }

  lemma {:induction false} SameTyped(xs: seq<Operation>, ys: seq<Operation>, n: nat, i: nat)
    requires Batch(xs, n) && Batch(ys, n)
    requires forall op :: op in xs <==> op in ys
    ensures TypedAt(xs, i) == TypedAt(ys, i)
  {
    assert (forall k :: 0 <= k < |xs| ==> Effective(xs[k])) && (forall k :: 0 <= k < |ys| ==> Effective(ys[k])) by {
      assert forall k :: 0 <= k < |xs| ==> Member(xs[k], n);
      assert forall k :: 0 <= k < |ys| ==> Member(ys[k], n);
    }
    if k :| 0 <= k < |xs| && Types(xs[k], i) {
      assert xs[k] in ys;
      var j :| 0 <= j < |ys| && ys[j] == xs[k];
      TypedAtOnly(xs, i, k);
      TypedAtOnly(ys, i, j);
    } else {
      forall j | 0 <= j < |ys| ensures !Types(ys[j], i) {
        assert ys[j] in xs;
      }
      TypedAtNone(xs, i);
      TypedAtNone(ys, i);
    }
  }

  // Two entries of a multiset of a sequence sit at two places of that sequence.
  lemma {:induction false} PairAt(xs: seq<Operation>, a: Operation, b: Operation)
    requires multiset{a, b} <= multiset(xs)
    ensures exists i, j :: 0 <= i < |xs| && 0 <= j < |xs| && i != j && xs[i] == a && xs[j] == b
  {
    assert a in xs;
    var i :| 0 <= i < |xs| && xs[i] == a;
    assert xs == xs[..i] + [a] + xs[i + 1..];
    var others := xs[..i] + xs[i + 1..];
    assert multiset(xs) == multiset(others) + multiset{a};
    assert b in multiset(others);
    assert b in others;
    var k :| 0 <= k < |others| && others[k] == b;
    var j := if k < i then k else k + 1;
    assert xs[j] == b;
  }

  lemma {:induction false} BatchPermutes(xs: seq<Operation>, ys: seq<Operation>, n: nat)
    requires Batch(xs, n) && multiset(xs) == multiset(ys)
    ensures Batch(ys, n)
  {
    forall i | 0 <= i < |ys| ensures Member(ys[i], n) {
      assert ys[i] in multiset(ys);
      assert ys[i] in xs;
    }
    forall i, j | 0 <= i < j < |ys| ensures Compatible(ys[i], ys[j]) {
      assert ys == ys[..i] + [ys[i]] + ys[i + 1..j] + [ys[j]] + ys[j + 1..];
      PairAt(xs, ys[i], ys[j]);
      var k, l :| 0 <= k < |xs| && 0 <= l < |xs| && k != l && xs[k] == ys[i] && xs[l] == ys[j];
      assert if k < l then Compatible(xs[k], xs[l]) else Compatible(xs[l], xs[k]);
    }
  }

  /**
   * Convergence of any number of replicas: whatever the order in which a batch arrives, a replica
   * ends in the document the batch describes.
   */
  lemma {:induction false} ReplicasConverge(doc: string, xs: seq<Operation>, ys: seq<Operation>)
    requires Batch(xs, |doc|) && multiset(xs) == multiset(ys)
    ensures Replica(doc, [], xs) == Replica(doc, [], ys) == Rendered(doc, xs)
  {
    BatchPermutes(xs, ys, |doc|);
    ReplicaRenders(doc, [], xs);
    ReplicaRenders(doc, [], ys);
    forall op ensures op in xs <==> op in ys {
      assert op in xs <==> op in multiset(xs);
      assert op in ys <==> op in multiset(ys);
    }
    RenderedAlike(doc, xs, ys);
  }

  // What a batch describes does not depend on its order.
  lemma {:induction false} RenderedAlike(doc: string, xs: seq<Operation>, ys: seq<Operation>)
    requires Batch(xs, |doc|) && Batch(ys, |doc|)
    requires forall op :: op in xs <==> op in ys
    ensures Rendered(doc, xs) == Rendered(doc, ys)
  {
    var f, g := Cells(doc, xs, 0), Cells(doc, ys, 0);
    forall i: nat | i <= |doc| ensures f[i] == g[i] {
      CellsAt(doc, xs, i);
      CellsAt(doc, ys, i);
      SameRemoved(xs, ys, i);
      SameTyped(xs, ys, |doc|, i);
    }
    assert f == g;
  }

  // ---- Sessions that only delete ----

  ghost predicate Deleted(deletions: seq<Operation>, i: nat) {
    exists k :: 0 <= k < |deletions| && Removes(deletions[k], i)
  }

  ghost function Survivors(doc: string, deletions: seq<Operation>, from: nat): string
    requires from <= |doc|
    decreases |doc| - from
  {
    if from == |doc| then ""
    else
      (if Deleted(deletions, from) then "" else [doc[from]])
      + Survivors(doc, deletions, from + 1)
  }

  lemma {:induction false} SurvivorsJoin(doc: string, deletions: seq<Operation>, piece: nat -> string, from: nat)
    requires from <= |doc|
    requires forall i: nat :: i <= |doc| ==> piece(i) == if i == |doc| || Deleted(deletions, i) then "" else [doc[i]]
    ensures Joined(Tabulated(piece, from, |doc| + 1)) == Survivors(doc, deletions, from)
    decreases |doc| - from
  {
    TabulatedTail(piece, from, |doc| + 1);
    if from < |doc| {
      SurvivorsJoin(doc, deletions, piece, from + 1);
    }
  }

  lemma {:induction false} DeletedCell(doc: string, deletions: seq<Operation>, i: nat)
    requires i <= |doc| && forall k :: 0 <= k < |deletions| ==> deletions[k].Delete?
    ensures Reading(doc, deletions)(i) == if i == |doc| || Deleted(deletions, i) then "" else [doc[i]]
  {
    TypedAtNone(deletions, i);
    RemovedIff(deletions, i);
  }

  /** Deletions may overlap in any way: every replica keeps exactly the characters no deletion covers, in order. */
  lemma {:induction false} DeletionsRemoveTheirUnion(doc: string, deletions: seq<Operation>)
    requires forall k :: 0 <= k < |deletions| ==> deletions[k].Delete? && InBounds(deletions[k], |doc|)
    ensures Replica(doc, [], deletions) == Survivors(doc, deletions, 0)
  {
    ReplicaRenders(doc, [], deletions);
    var piece := Reading(doc, deletions);
    forall i: nat | i <= |doc| ensures piece(i) == if i == |doc| || Deleted(deletions, i) then "" else [doc[i]] {
      DeletedCell(doc, deletions, i);
    }
    SurvivorsJoin(doc, deletions, piece, 0);
  }

  lemma {:induction false} ReplicasOfPair(doc: string, a: Operation, b: Operation)
    requires Member(a, |doc|) && Member(b, |doc|) && Compatible(a, b)
    ensures Replica(doc, [], [a, b]) == Replica(doc, [], [b, a]) == Rendered(doc, [a, b])
  {
    assert multiset([a, b]) == multiset([b, a]);
    ReplicasConverge(doc, [a, b], [b, a]);
  }

  /** Two compatible edits converge, on the document the two describe. */
  lemma {:induction false} PairConverges(doc: string, a: Operation, b: Operation)
    requires Member(a, |doc|) && Member(b, |doc|) && Compatible(a, b)
    ensures Converges(doc, a, b) && Apply(Apply(doc, a), Transform(b, a)) == Rendered(doc, [a, b])
  {
    ReplicaOfPair(doc, a, b);
    ReplicaOfPair(doc, b, a);
    ReplicasOfPair(doc, a, b);
  }

  lemma {:induction false} ReplicaOfPair(doc: string, a: Operation, b: Operation)
    ensures Replica(doc, [], [a, b]) == Apply(Apply(doc, a), Transform(b, a))
  {
    var u := Apply(doc, a);
    assert [a, b][1..] == [b] && [] + [a] == [a] && [a][1..] == [];
    assert TransformThrough(b, [a]) == TransformThrough(Transform(b, a), []) == Transform(b, a);
    assert Replica(u, [a], [b]) == Replica(Apply(u, Transform(b, a)), [a] + [Transform(b, a)], [b][1..]);
  }
}

/**
 * The detection of conflicting operations: authorship, document, time, version and causality are
 * looked at first, then the regions the two operations touch.
 */
module ConflictDetector {
  import opened Bounds
  import opened Options
  import opened VectorClocks

  datatype Kind = InsertKind | DeleteKind | ReplaceKind | FormatKind | MoveKind | StructureKind | CompositeKind

  // The nested form an operation may come in.
  datatype Nested = Nested(kind: Kind, position: nat, length: Option<nat>, content: Option<string>,
                           text: Option<string>, attributes: Option<set<string>>)

  // A time stamp of 0 counts as missing.
  datatype VersionedOperation = VersionedOperation(
    id: Option<string>, documentId: string, userId: string, version: int, timestamp: int,
    position: Option<nat>, length: Option<nat>, text: Option<string>, kind: Option<Kind>,
    vectorClock: Option<Clock>, operation: Option<Nested>)

  datatype Relationship = IsBefore | IsAfter | IsConcurrent | IsIdentical

  datatype Reason =
    | SameAuthorOrId | OtherDocument | OtherTime | OtherVersion | CausallyOrdered
    | Apart | OtherAttributes

  datatype ConflictType = TextEdit | FormatConflict | DeleteModified | Structural | MoveModified

  datatype ConflictResult =
    | NoConflict(relationship: Relationship, reason: Reason)
    | Conflict(conflictType: ConflictType, start: nat, end: nat)

  function GetPosition(op: VersionedOperation): nat {
    if op.position.Some? then op.position.value
    else if op.operation.Some? then op.operation.value.position
    else 0
  }

  // An empty text is passed over, as a missing one is.
  function GetLength(op: VersionedOperation): nat {
    if op.length.Some? then op.length.value
    else if op.operation.Some? && op.operation.value.length.Some? then op.operation.value.length.value
    else if op.text.Some? && op.text.value != "" then |op.text.value|
    else if op.operation.Some? && op.operation.value.text.Some? && op.operation.value.text.value != "" then
      |op.operation.value.text.value|
    else if op.operation.Some? && op.operation.value.content.Some? then |op.operation.value.content.value|
    else 0
  }

  function GetKind(op: VersionedOperation): Kind {
    if op.kind.Some? then op.kind.value
    else if op.operation.Some? then op.operation.value.kind
    else InsertKind
  }

  function GetAttributes(op: VersionedOperation): Option<set<string>> {
    if op.operation.Some? then op.operation.value.attributes else None
  }

  function ConflictTypeOf(k1: Kind, k2: Kind): ConflictType {
    if k1.FormatKind? || k2.FormatKind? then FormatConflict
    else if k1.DeleteKind? || k2.DeleteKind? then DeleteModified
    else if k1.MoveKind? || k2.MoveKind? then MoveModified
    else if k1.StructureKind? || k2.StructureKind? then Structural
    else TextEdit
  }

  // What is settled before the regions are compared.
  ghost function EarlyResult(op1: VersionedOperation, op2: VersionedOperation): Option<ConflictResult> {
    if op1.userId == op2.userId || op1.id == op2.id then Some(NoConflict(IsIdentical, SameAuthorOrId))
    else if op1.documentId != op2.documentId then Some(NoConflict(IsConcurrent, OtherDocument))
    else if op1.timestamp != 0 && op2.timestamp != 0 && op1.timestamp - op2.timestamp < -1000 then
      Some(NoConflict(IsBefore, OtherTime))
    else if op1.timestamp != 0 && op2.timestamp != 0 && op1.timestamp - op2.timestamp > 1000 then
      Some(NoConflict(IsAfter, OtherTime))
    else if (op1.timestamp == 0 || op2.timestamp == 0) && op1.version != op2.version then
      Some(NoConflict(if op1.version < op2.version then IsBefore else IsAfter, OtherVersion))
    else if op1.vectorClock.Some? && op2.vectorClock.Some? then
      var comparison := DetectorCompared(op1.vectorClock.value, op2.vectorClock.value);
      if comparison < 0 then Some(NoConflict(IsBefore, CausallyOrdered))
      else if comparison > 0 then Some(NoConflict(IsAfter, CausallyOrdered))
      else None
    else None
  }

  ghost predicate RegionsApart(op1: VersionedOperation, op2: VersionedOperation) {
    || GetPosition(op1) + GetLength(op1) <= GetPosition(op2)
    || GetPosition(op2) + GetLength(op2) <= GetPosition(op1)
  }

  ghost predicate OnlyOtherAttributes(op1: VersionedOperation, op2: VersionedOperation) {
    && (GetKind(op1).FormatKind? || GetKind(op2).FormatKind?)
    && GetAttributes(op1).Some? && GetAttributes(op2).Some?
    && GetAttributes(op1).value !! GetAttributes(op2).value
  }

  ghost function Detected(op1: VersionedOperation, op2: VersionedOperation): ConflictResult {
    var early := EarlyResult(op1, op2);
    if early.Some? then early.value
    else if RegionsApart(op1, op2) then NoConflict(IsConcurrent, Apart)
    else if OnlyOtherAttributes(op1, op2) then NoConflict(IsConcurrent, OtherAttributes)
    else Conflict(ConflictTypeOf(GetKind(op1), GetKind(op2)),
                  Max(GetPosition(op1), GetPosition(op2)),
                  Min(GetPosition(op1) + GetLength(op1), GetPosition(op2) + GetLength(op2)))
  }

  method DetectConflict(op1: VersionedOperation, op2: VersionedOperation) returns (r: ConflictResult)
    ensures r == Detected(op1, op2)
    ensures r.Conflict? ==> r.start <= r.end
  {
    if op1.userId == op2.userId || op1.id == op2.id {
      return NoConflict(IsIdentical, SameAuthorOrId);
    }
    if op1.documentId != op2.documentId {
      return NoConflict(IsConcurrent, OtherDocument);
    }
    if op1.timestamp != 0 && op2.timestamp != 0 {
      var timeDiff := op1.timestamp - op2.timestamp;
      if timeDiff < -1000 {
        return NoConflict(IsBefore, OtherTime);
      }
      if timeDiff > 1000 {
        return NoConflict(IsAfter, OtherTime);
      }
    } else if op1.version != op2.version {
      return NoConflict(if op1.version < op2.version then IsBefore else IsAfter, OtherVersion);
    }
    if op1.vectorClock.Some? && op2.vectorClock.Some? {
      var comparison := CompareVectorClocks(op1.vectorClock.value, op2.vectorClock.value);
      if comparison < 0 {
        return NoConflict(IsBefore, CausallyOrdered);
      } else if comparison > 0 {
        return NoConflict(IsAfter, CausallyOrdered);
      }
    }
    var pos1, pos2 := GetPosition(op1), GetPosition(op2);
    var end1, end2 := pos1 + GetLength(op1), pos2 + GetLength(op2);
    if end1 <= pos2 || end2 <= pos1 {
      return NoConflict(IsConcurrent, Apart);
    }
    var kind1, kind2 := GetKind(op1), GetKind(op2);
    if kind1.FormatKind? || kind2.FormatKind? {
      var attributes1, attributes2 := GetAttributes(op1), GetAttributes(op2);
      if attributes1.Some? && attributes2.Some? && attributes1.value !! attributes2.value {
        return NoConflict(IsConcurrent, OtherAttributes);
      }
    }
    return Conflict(ConflictTypeOf(kind1, kind2), Max(pos1, pos2), Min(end1, end2));
  }

  // The conflicting pairs, in the order the two nested loops meet them.
  ghost function PairsWith(ops: seq<VersionedOperation>, i: nat, j: nat): seq<(VersionedOperation, VersionedOperation)>
    requires i < j <= |ops|
    decreases |ops| - j
  {
    if j == |ops| then []
    else (if Detected(ops[i], ops[j]).Conflict? then [(ops[i], ops[j])] else []) + PairsWith(ops, i, j + 1)
  }

  ghost function PairsFrom(ops: seq<VersionedOperation>, i: nat): seq<(VersionedOperation, VersionedOperation)>
    requires i <= |ops|
    decreases |ops| - i
  {
    if i == |ops| then [] else PairsWith(ops, i, i + 1) + PairsFrom(ops, i + 1)
  }

  method DetectConflicts(operations: seq<VersionedOperation>)
    returns (conflicts: seq<(VersionedOperation, VersionedOperation)>)
    ensures conflicts == PairsFrom(operations, 0)
  {
    conflicts := [];
    var i := 0;
    while i < |operations|
      invariant i <= |operations|
      invariant conflicts + PairsFrom(operations, i) == PairsFrom(operations, 0)
    {
      ghost var before, later := conflicts, PairsFrom(operations, i + 1);
      var j := i + 1;
      while j < |operations|
        invariant i < j <= |operations|
        invariant conflicts + PairsWith(operations, i, j) == before + PairsWith(operations, i, i + 1)
      {
        var result := DetectConflict(operations[i], operations[j]);
        if result.Conflict? {
          conflicts := conflicts + [(operations[i], operations[j])];
        }
        j := j + 1;
      }
      assert before + (PairsWith(operations, i, i + 1) + later) == before + PairsWith(operations, i, i + 1) + later;
      i := i + 1;
    }
  }

  // Two places in a list of operations, the first before the second.
  datatype Places = Places(first: nat, second: nat)

  predicate Earlier(p: Places, q: Places) { p.first < q.first || (p.first == q.first && p.second < q.second) }

  ghost predicate ConflictAt(ops: seq<VersionedOperation>, p: Places) {
    p.first < p.second < |ops| && Detected(ops[p.first], ops[p.second]).Conflict?
  }

  // The pairs are those at these places, which come in order.
  ghost predicate PairsAt(ops: seq<VersionedOperation>, pairs: seq<(VersionedOperation, VersionedOperation)>,
                          at: seq<Places>) {
    && |at| == |pairs|
    && (forall n :: 0 <= n < |at| ==> ConflictAt(ops, at[n]) && pairs[n] == (ops[at[n].first], ops[at[n].second]))
    && (forall n, m :: 0 <= n < m < |at| ==> Earlier(at[n], at[m]))
  }

  lemma {:induction false} JoinPlaces(ops: seq<VersionedOperation>,
                                      front: seq<(VersionedOperation, VersionedOperation)>, at: seq<Places>,
                                      back: seq<(VersionedOperation, VersionedOperation)>, later: seq<Places>)
    requires PairsAt(ops, front, at) && PairsAt(ops, back, later)
    requires forall p, q :: p in at && q in later ==> Earlier(p, q)
    ensures PairsAt(ops, front + back, at + later)
  {
    assert (forall n :: 0 <= n < |at| ==> at[n] in at) && (forall n :: 0 <= n < |later| ==> later[n] in later);
  }

  lemma {:induction false} PairsWithInOrder(ops: seq<VersionedOperation>, i: nat, j: nat) returns (at: seq<Places>)
    requires i < j <= |ops|
    ensures PairsAt(ops, PairsWith(ops, i, j), at)
    ensures forall p: Places :: p in at <==> p.first == i && j <= p.second && ConflictAt(ops, p)
    decreases |ops| - j
  {
    if j == |ops| {
      at := [];
    } else {
      var later := PairsWithInOrder(ops, i, j + 1);
      var here := Places(i, j);
      var first: seq<(VersionedOperation, VersionedOperation)>;
      first := if ConflictAt(ops, here) then [(ops[i], ops[j])] else [];
      at := if ConflictAt(ops, here) then [here] else [];
      JoinPlaces(ops, first, at, PairsWith(ops, i, j + 1), later);
      assert PairsWith(ops, i, j) == first + PairsWith(ops, i, j + 1);
      forall p: Places ensures p in at + later <==> p.first == i && j <= p.second && ConflictAt(ops, p) {
        assert p.first == i && p.second == j ==> p == here;
      }
      at := at + later;
    }
  }

  /**
   * The pairs returned are those of the places, the earlier before the later, whose operations conflict:
   * each such pair of places once, in order, and no others.
   */
  lemma {:induction false} PairsInOrder(ops: seq<VersionedOperation>, i: nat) returns (at: seq<Places>)
    requires i <= |ops|
    ensures PairsAt(ops, PairsFrom(ops, i), at)
    ensures forall p: Places :: p in at <==> i <= p.first && ConflictAt(ops, p)
    decreases |ops| - i
  {
    if i == |ops| {
      at := [];
    } else {
      var front := PairsWithInOrder(ops, i, i + 1);
      var back := PairsInOrder(ops, i + 1);
      JoinPlaces(ops, PairsWith(ops, i, i + 1), front, PairsFrom(ops, i + 1), back);
      at := front + back;
    }
  }

  /** Two operations are returned as a pair exactly when they conflict and one stands before the other. */
  lemma {:induction false} PairsExactly(ops: seq<VersionedOperation>, a: VersionedOperation, b: VersionedOperation)
    ensures (a, b) in PairsFrom(ops, 0) <==>
              exists k, l :: 0 <= k < l < |ops| && ops[k] == a && ops[l] == b && Detected(a, b).Conflict?
  {
    var at := PairsInOrder(ops, 0);
    var pairs := PairsFrom(ops, 0);
    if (a, b) in pairs {
      var n :| 0 <= n < |pairs| && pairs[n] == (a, b);
      assert ConflictAt(ops, at[n]) && ops[at[n].first] == a && ops[at[n].second] == b;
    }
    forall k, l | 0 <= k < l < |ops| && ops[k] == a && ops[l] == b && Detected(a, b).Conflict? ensures (a, b) in pairs {
      assert ConflictAt(ops, Places(k, l));
      var n :| 0 <= n < |at| && at[n] == Places(k, l);
      assert pairs[n] == (a, b);
    }
  }

  /** The result is empty exactly when no two of the operations conflict. */
  lemma {:induction false} NoPairs(ops: seq<VersionedOperation>)
    ensures PairsFrom(ops, 0) == [] <==> forall k, l :: 0 <= k < l < |ops| ==> !Detected(ops[k], ops[l]).Conflict?
  {
    var at := PairsInOrder(ops, 0);
    if at != [] {
      assert ConflictAt(ops, at[0]);
    }
    forall k, l | 0 <= k < l < |ops| && Detected(ops[k], ops[l]).Conflict? ensures at != [] {
      assert ConflictAt(ops, Places(k, l));
    }
  }

  // ---- The verdict does not depend on which operation comes first ----

  function Mirrored(r: ConflictResult): ConflictResult {
    match r
    case NoConflict(IsBefore, reason) => NoConflict(IsAfter, reason)
    case NoConflict(IsAfter, reason) => NoConflict(IsBefore, reason)
    case _ => r
  }

  ghost predicate Counts(op: VersionedOperation) { op.vectorClock.Some? ==> NonNegative(op.vectorClock.value) }

  lemma {:induction false} ComparisonMirrors(c: Clock, d: Clock)
    requires NonNegative(c) && NonNegative(d)
    ensures DetectorCompared(d, c) == -DetectorCompared(c, d)
  {
    FallsShortIsExceeded(c, d);
    FallsShortIsExceeded(d, c);
  }

  /**
   * Comparing two operations the other way round mirrors the verdict, and finds the same conflict in the same
   * region.
   */
  lemma {:induction false} DetectionMirrors(op1: VersionedOperation, op2: VersionedOperation)
    requires Counts(op1) && Counts(op2)
    ensures Detected(op2, op1) == Mirrored(Detected(op1, op2))
  {
    if op1.vectorClock.Some? && op2.vectorClock.Some? {
      ComparisonMirrors(op1.vectorClock.value, op2.vectorClock.value);
    }
  }
}

/**
 * Merging by transformation, and what the detector's overlap test guarantees for it: operations
 * it finds apart merge to one document, for two replicas and for any number of them.
 */
module ConflictMerge {
  import opened ConflictDetector
  import opened Convergence
  import opened OperationalTransform
  import opened Options
  import opened TransformExactness
  import opened TransformMeaning

  datatype Resolution = Resolution(resolvedContent: string, appliedOperations: seq<Operation>)

  function MergeChanges(localContent: string, local: Operation, remote: Operation): Resolution {
    var transformedRemote := Transform(remote, local);
    Resolution(Apply(localContent, transformedRemote), [local, transformedRemote])
  }

  function ApplyAll(doc: string, ops: seq<Operation>): string
    decreases |ops|
  {
    if ops == [] then doc else ApplyAll(Apply(doc, ops[0]), ops[1..])
  }

  // ---- The two ways an edit reaches the detector ----

  function KindOf(op: Operation): Kind {
    match op
    case Insert(_, _) => InsertKind
    case Delete(_, _) => DeleteKind
    case Replace(_, _, _) => ReplaceKind
  }

  function LengthField(op: Operation): Option<nat> { if op.Insert? then None else Some(op.length) }
  function TextField(op: Operation): Option<string> { if op.Delete? then None else Some(op.text) }

  // The edit's own fields are those of the operation, or sit in its nested part; a nested insertion
  // may carry its text as content.
  predicate Describes(v: VersionedOperation, op: Operation) {
    || (v.position == Some(op.position) && v.length == LengthField(op) && v.text == TextField(op)
        && v.kind == Some(KindOf(op)) && v.operation == None)
    || (v.position == None && v.length == None && v.text == None && v.kind == None && v.operation.Some?
        && var n := v.operation.value;
           n.kind == KindOf(op) && n.position == op.position && n.length == LengthField(op)
           && (n.text == TextField(op) || (n.text == None && n.content == TextField(op))))
  }

  lemma {:induction false} DetectorMeasures(v: VersionedOperation, op: Operation)
    requires Describes(v, op) && (op.Insert? ==> op.text != "")
    ensures GetPosition(v) == op.position && GetLength(v) == Width(op) && GetKind(v) == KindOf(op)
  {
  }

  // The operations a merge reports, executed one by one, give its content.
  lemma {:induction false} MergeReplays(base: string, a: Operation, b: Operation)
    ensures var m := MergeChanges(Apply(base, a), a, b);
            ApplyAll(base, m.appliedOperations) == m.resolvedContent
  {
    var local, remote := Apply(base, a), Transform(b, a);
    assert [a, remote][1..] == [remote] && [remote][1..] == [];
    assert ApplyAll(local, [remote]) == ApplyAll(Apply(local, remote), []);
    assert ApplyAll(base, [a, remote]) == ApplyAll(local, [remote]);
  }

  /**
   * Operations found apart merge to one content whichever of the two is the local one, and that content,
   * which the operations each merge reports reproduce, is what both edits describe on the base document.
   */
  lemma {:induction false} DetectorSoundForMerging(base: string, a: Operation, b: Operation,
                                                   v: VersionedOperation, w: VersionedOperation)
    requires Describes(v, a) && Describes(w, b) && Member(a, |base|) && Member(b, |base|)
    requires Detected(v, w) == NoConflict(IsConcurrent, Apart)
    ensures MergeChanges(Apply(base, a), a, b).resolvedContent == Rendered(base, [a, b])
    ensures MergeChanges(Apply(base, b), b, a).resolvedContent == Rendered(base, [a, b])
    ensures ApplyAll(base, MergeChanges(Apply(base, a), a, b).appliedOperations) == Rendered(base, [a, b])
    ensures ApplyAll(base, MergeChanges(Apply(base, b), b, a).appliedOperations) == Rendered(base, [a, b])
  {
    FoundApart(a, b, v, w);
    ApartMerges(base, a, b);
    MergeReplays(base, a, b);
    MergeReplays(base, b, a);
  }

  lemma {:induction false} FoundApart(a: Operation, b: Operation, v: VersionedOperation, w: VersionedOperation)
    requires Describes(v, a) && Describes(w, b) && Effective(a) && Effective(b)
    requires Detected(v, w) == NoConflict(IsConcurrent, Apart)
    ensures Disjoint(a, b)
  {
    DetectorMeasures(v, a);
    DetectorMeasures(w, b);
  }

  lemma {:induction false} ApartMerges(base: string, a: Operation, b: Operation)
    requires Member(a, |base|) && Member(b, |base|) && Disjoint(a, b)
    ensures MergeChanges(Apply(base, a), a, b).resolvedContent == Rendered(base, [a, b])
    ensures MergeChanges(Apply(base, b), b, a).resolvedContent == Rendered(base, [a, b])
  {
    PairConverges(base, a, b);
  }

  // ---- What a merge computes, overlapping or not ----

  /**
   * Whatever the local content and the two operations: the local operation is reported as it is, the remote
   * one as what is left of it beside the local one, and the content is the local one with that executed.
   */
  lemma {:induction false} MergeMeans(content: string, local: Operation, remote: Operation)
    ensures var m := MergeChanges(content, local, remote);
            && |m.appliedOperations| == 2 && m.appliedOperations[0] == local
            && var left := m.appliedOperations[1];
               && m.resolvedContent == Apply(content, left)
               && SameKind(left, remote) && left.position == Carried(remote.position, local)
               && Text(left) == Kept(remote, local)
               && forall k: nat :: Removes(left, k) <==> CutsAfter(remote, local, k)
  {
    TransformMeans(remote, local);
  }

  /** The merged content itself, for any two operations made on the base document. */
  lemma {:induction false} MergeLeaves(base: string, local: Operation, remote: Operation)
    requires InBounds(local, |base|) && InBounds(remote, |base|)
    ensures MergeChanges(Apply(base, local), local, remote).resolvedContent == Both(base, local, remote)
  {
    TransformedLeaves(base, remote, local);
  }

  /** It does not depend on which of the two is the local one exactly when they agree. */
  lemma {:induction false} MergeSymmetricIff(base: string, a: Operation, b: Operation)
    requires InBounds(a, |base|) && InBounds(b, |base|)
    ensures MergeChanges(Apply(base, a), a, b).resolvedContent == MergeChanges(Apply(base, b), b, a).resolvedContent
       <==> Agree(a, b)
  {
    ConvergesIff(base, a, b);
  }

  /** Of two deletions, however they overlap, the merge leaves the characters neither takes. */
  lemma {:induction false} MergedDeletions(base: string, a: Operation, b: Operation)
    requires a.Delete? && b.Delete? && InBounds(a, |base|) && InBounds(b, |base|)
    ensures MergeChanges(Apply(base, a), a, b).resolvedContent == Survivors(base, [a, b], 0)
  {
    ReplicaOfPair(base, a, b);
    DeletionsRemoveTheirUnion(base, [a, b]);
  }

  /** A text inserted inside what the other operation takes away is lost when it is local, and kept when remote. */
  lemma {:induction false} MergedInside(base: string, a: Operation, b: Operation)
    requires a.Insert? && !b.Insert? && b.position < a.position < EndOf(b) <= |base|
    ensures MergeChanges(Apply(base, a), a, b).resolvedContent == base[..b.position] + Text(b) + base[EndOf(b)..]
    ensures MergeChanges(Apply(base, b), b, a).resolvedContent
         == base[..b.position] + Text(b) + a.text + base[EndOf(b)..]
  {
    MergeApplies(Apply(base, a), a, b);
    MergeApplies(Apply(base, b), b, a);
    TypedInside(base, a, b);
  }

  lemma {:induction false} MergeApplies(content: string, local: Operation, remote: Operation)
    ensures MergeChanges(content, local, remote).resolvedContent == Apply(content, Transform(remote, local))
  {
  }

  // Nothing but the regions decides between two operations.
  ghost predicate ReachTheRegions(v: VersionedOperation, w: VersionedOperation) {
    EarlyResult(v, w).None?
  }

  /**
   * A batch of pairwise concurrent edits in which no conflict is detected converges: every replica,
   * whatever order the edits reach it in, ends with the document the batch describes.
   */
  lemma {:induction false} NoConflictsConverge(base: string, vs: seq<VersionedOperation>, ops: seq<Operation>,
                                               order: seq<Operation>)
    requires |vs| == |ops| && forall i :: 0 <= i < |ops| ==> Describes(vs[i], ops[i]) && Member(ops[i], |base|)
    requires forall i, j :: 0 <= i < j < |ops| ==> ReachTheRegions(vs[i], vs[j])
    requires PairsFrom(vs, 0) == [] && multiset(order) == multiset(ops)
    ensures Replica(base, [], order) == Rendered(base, ops)
  {
    NoPairs(vs);
    forall i, j | 0 <= i < j < |ops| ensures Compatible(ops[i], ops[j]) {
      assert !Detected(vs[i], vs[j]).Conflict? && ReachTheRegions(vs[i], vs[j]);
      DetectorMeasures(vs[i], ops[i]);
      DetectorMeasures(vs[j], ops[j]);
    }
    ReplicasConverge(base, ops, order);
  }

  /**
   * Two edits between which no conflict is detected converge exactly when the detector got as far as
   * their regions, or they agree by themselves.
   */
  lemma {:induction false} UnreportedConvergeIff(base: string, a: Operation, b: Operation,
                                                 v: VersionedOperation, w: VersionedOperation)
    requires Describes(v, a) && Describes(w, b) && Member(a, |base|) && Member(b, |base|)
    requires !Detected(v, w).Conflict?
    ensures Converges(base, a, b) <==> ReachTheRegions(v, w) || Agree(a, b)
  {
    ConvergesIff(base, a, b);
    if ReachTheRegions(v, w) {
      DetectorMeasures(v, a);
      DetectorMeasures(w, b);
      PairConverges(base, a, b);
    }
  }

  // Edits settled before their regions are compared, here by their author, can diverge unreported.
  lemma {:induction false} SameAuthorDiverges(v: VersionedOperation, w: VersionedOperation)
    requires v.userId == w.userId && Describes(v, Insert(0, "x")) && Describes(w, Insert(0, "y"))
    ensures !Detected(v, w).Conflict? && !Converges("", Insert(0, "x"), Insert(0, "y"))
  {
    ConvergesIff("", Insert(0, "x"), Insert(0, "y"));
    assert "x" + "y" == "xy" && "y" + "x" == "yx" && "xy"[0] != "yx"[0];
  }

  // Overlapping replacements are rightly reported: merging them depends on which one is local.
  lemma {:induction false} OverlapDiverges()
    ensures var a, b := Replace(0, 2, "x"), Replace(1, 2, "y");
            !Disjoint(a, b) &&
            MergeChanges(Apply("abc", a), a, b).resolvedContent != MergeChanges(Apply("abc", b), b, a).resolvedContent
  {
    var a, b := Replace(0, 2, "x"), Replace(1, 2, "y");
    assert Transform(b, a) == Replace(1, 1, "");
    assert Transform(a, b) == Replace(0, 1, "x");
    assert Apply("abc", a) == "xc" && Apply("xc", Transform(b, a)) == "x";
    assert Apply("abc", b) == "ay" && Apply("ay", Transform(a, b)) == "xy";
  }
}

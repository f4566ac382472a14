/** What the detector's verdict says of the two operations, every outcome by its own condition. */
module ConflictMeaning {
  import opened Causality
  import opened ConflictDetector
  import opened Options
  import opened VectorClockCausality
  import opened VectorClocks

  // ---- What an operation says of itself ----

  function FirstOf<T>(candidates: seq<Option<T>>, otherwise: T): T {
    if candidates == [] then otherwise
    else if candidates[0].Some? then candidates[0].value
    else FirstOf(candidates[1..], otherwise)
  }

  function NestedPosition(op: VersionedOperation): Option<nat> {
    if op.operation.Some? then Some(op.operation.value.position) else None
  }

  function NestedLength(op: VersionedOperation): Option<nat> {
    if op.operation.Some? then op.operation.value.length else None
  }

  function NestedKind(op: VersionedOperation): Option<Kind> {
    if op.operation.Some? then Some(op.operation.value.kind) else None
  }

  // The length of a text that is there and not empty.
  function TextLength(text: Option<string>): Option<nat> {
    if text.Some? && text.value != "" then Some(|text.value|) else None
  }

  /** Every measure is the first of its sources that is there: the operation's own before the nested one's. */
  lemma {:induction false} FirstSourceCounts(op: VersionedOperation)
    ensures GetPosition(op) == FirstOf([op.position, NestedPosition(op)], 0)
    ensures GetKind(op) == FirstOf([op.kind, NestedKind(op)], InsertKind)
    ensures var text := if op.operation.Some? then TextLength(op.operation.value.text) else None;
            var content := if op.operation.Some? then TextLength(op.operation.value.content) else None;
            GetLength(op) == FirstOf([op.length, NestedLength(op), TextLength(op.text), text, content], 0)
    ensures GetAttributes(op).Some? <==> op.operation.Some? && op.operation.value.attributes.Some?
    ensures GetAttributes(op).Some? ==> GetAttributes(op) == op.operation.value.attributes
  {
    var text := if op.operation.Some? then TextLength(op.operation.value.text) else None;
    var content := if op.operation.Some? then TextLength(op.operation.value.content) else None;
    FirstOfTwo(op.position, NestedPosition(op), 0);
    FirstOfTwo(op.kind, NestedKind(op), InsertKind);
    FirstOfFive(op.length, NestedLength(op), TextLength(op.text), text, content, 0);
  }

  lemma {:induction false} FirstOfTwo<T>(a: Option<T>, b: Option<T>, otherwise: T)
    ensures FirstOf([a, b], otherwise) == if a.Some? then a.value else if b.Some? then b.value else otherwise
  {
    assert [a, b][1..] == [b] && [b][1..] == [];
    assert FirstOf([b], otherwise) == if b.Some? then b.value else otherwise;
  }

  lemma {:induction false} FirstOfFive<T>(a: Option<T>, b: Option<T>, c: Option<T>, d: Option<T>, e: Option<T>,
                                          otherwise: T)
    ensures FirstOf([a, b, c, d, e], otherwise)
         == if a.Some? then a.value else if b.Some? then b.value else if c.Some? then c.value
            else FirstOf([d, e], otherwise)
    ensures FirstOf([d, e], otherwise) == if d.Some? then d.value else if e.Some? then e.value else otherwise
  {
    assert [a, b, c, d, e][1..] == [b, c, d, e] && [b, c, d, e][1..] == [c, d, e] && [c, d, e][1..] == [d, e];
    assert FirstOf([c, d, e], otherwise) == if c.Some? then c.value else FirstOf([d, e], otherwise);
    assert FirstOf([b, c, d, e], otherwise) == if b.Some? then b.value else FirstOf([c, d, e], otherwise);
    FirstOfTwo(d, e, otherwise);
  }

  // ---- What is settled before the regions are compared ----

  predicate Strangers(v: VersionedOperation, w: VersionedOperation) { v.userId != w.userId && v.id != w.id }

  predicate Timed(v: VersionedOperation, w: VersionedOperation) { v.timestamp != 0 && w.timestamp != 0 }

  // The first was made more than a second earlier, or at no known time on an earlier version.
  predicate Older(v: VersionedOperation, w: VersionedOperation) {
    if Timed(v, w) then v.timestamp + 1000 < w.timestamp else v.version < w.version
  }

  // Neither is older, both carry clocks, and these compare as said.
  ghost predicate ClocksSay(v: VersionedOperation, w: VersionedOperation, verdict: int) {
    && !Older(v, w) && !Older(w, v) && v.vectorClock.Some? && w.vectorClock.Some?
    && DetectorCompared(v.vectorClock.value, w.vectorClock.value) == verdict
  }

  /** Each outcome that comes before the regions are compared, by the condition under which it is reported. */
  lemma {:induction false} SettledIff(v: VersionedOperation, w: VersionedOperation)
    ensures Detected(v, w) == NoConflict(IsIdentical, SameAuthorOrId) <==> !Strangers(v, w)
    ensures Detected(v, w) == NoConflict(IsConcurrent, OtherDocument)
       <==> Strangers(v, w) && v.documentId != w.documentId
    ensures var same := Strangers(v, w) && v.documentId == w.documentId;
            && (Detected(v, w) == NoConflict(IsBefore, OtherTime) <==> same && Timed(v, w) && Older(v, w))
            && (Detected(v, w) == NoConflict(IsAfter, OtherTime) <==> same && Timed(v, w) && Older(w, v))
            && (Detected(v, w) == NoConflict(IsBefore, OtherVersion) <==> same && !Timed(v, w) && Older(v, w))
            && (Detected(v, w) == NoConflict(IsAfter, OtherVersion) <==> same && !Timed(v, w) && Older(w, v))
            && (Detected(v, w) == NoConflict(IsBefore, CausallyOrdered) <==> same && ClocksSay(v, w, -1))
            && (Detected(v, w) == NoConflict(IsAfter, CausallyOrdered) <==> same && ClocksSay(v, w, 1))
            && (EarlyResult(v, w).None? <==>
                same && !Older(v, w) && !Older(w, v) && !ClocksSay(v, w, -1) && !ClocksSay(v, w, 1))
  {
  }

  // ---- Regions ----

  predicate Covers(v: VersionedOperation, i: nat) { GetPosition(v) <= i < GetPosition(v) + GetLength(v) }

  // An operation on no characters stands between two characters of the other one's region.
  predicate StandsInside(v: VersionedOperation, w: VersionedOperation) {
    GetLength(v) == 0 && 0 < GetPosition(v) && Covers(w, GetPosition(v) - 1) && Covers(w, GetPosition(v))
  }

  ghost predicate Meet(v: VersionedOperation, w: VersionedOperation) {
    || (exists i: nat :: Covers(v, i) && Covers(w, i))
    || StandsInside(v, w) || StandsInside(w, v)
  }

  lemma {:induction false} MeetIff(v: VersionedOperation, w: VersionedOperation)
    ensures Meet(v, w) <==> !RegionsApart(v, w)
  {
    if !RegionsApart(v, w) {
      if GetLength(v) > 0 && GetLength(w) > 0 {
        var i := if GetPosition(v) <= GetPosition(w) then GetPosition(w) else GetPosition(v);
        assert Covers(v, i) && Covers(w, i);
      } else if GetLength(v) == 0 {
        assert StandsInside(v, w);
      } else {
        assert StandsInside(w, v);
      }
    }
  }

  ghost predicate Formats(v: VersionedOperation, w: VersionedOperation) {
    GetKind(v).FormatKind? || GetKind(w).FormatKind?
  }

  // Both name attributes, and none of them in common.
  ghost predicate DifferentAttributes(v: VersionedOperation, w: VersionedOperation) {
    && GetAttributes(v).Some? && GetAttributes(w).Some?
    && forall a :: a in GetAttributes(v).value ==> a !in GetAttributes(w).value
  }

  /**
   * A conflict is reported exactly when nothing settles the pair earlier, the regions meet, and the two do
   * not format different attributes; apart and differently formatted pairs are told from one another.
   */
  lemma {:induction false} ConflictIff(v: VersionedOperation, w: VersionedOperation)
    ensures Detected(v, w).Conflict? <==>
              && EarlyResult(v, w).None? && Meet(v, w) && !(Formats(v, w) && DifferentAttributes(v, w))
    ensures Detected(v, w) == NoConflict(IsConcurrent, Apart) <==> EarlyResult(v, w).None? && !Meet(v, w)
    ensures Detected(v, w) == NoConflict(IsConcurrent, OtherAttributes) <==>
              EarlyResult(v, w).None? && Meet(v, w) && Formats(v, w) && DifferentAttributes(v, w)
  {
    MeetIff(v, w);
  }

  /** The reported region is what both cover; it is empty only where one of them covers nothing. */
  lemma {:induction false} RegionIsShared(v: VersionedOperation, w: VersionedOperation)
    requires Detected(v, w).Conflict?
    ensures var r := Detected(v, w);
            && (forall i: nat :: r.start <= i < r.end <==> Covers(v, i) && Covers(w, i))
            && (GetLength(v) > 0 && GetLength(w) > 0 <==> r.start < r.end)
            && (GetLength(v) == 0 ==> r.start == r.end == GetPosition(v))
            && (GetLength(w) == 0 ==> r.start == r.end == GetPosition(w))
  {
  }

  // The kinds by what they do to a conflict, the strongest first.
  function Rank(k: Kind): nat {
    match k
    case FormatKind => 4
    case DeleteKind => 3
    case MoveKind => 2
    case StructureKind => 1
    case _ => 0
  }

  /** The conflict is of the type of the stronger of the two kinds. */
  lemma {:induction false} TypeIsOfStronger(v: VersionedOperation, w: VersionedOperation)
    requires Detected(v, w).Conflict?
    ensures var t, a, b := Detected(v, w).conflictType, Rank(GetKind(v)), Rank(GetKind(w));
            && (t.FormatConflict? <==> a == 4 || b == 4)
            && (t.DeleteModified? <==> a < 4 && b < 4 && (a == 3 || b == 3))
            && (t.MoveModified? <==> a < 3 && b < 3 && (a == 2 || b == 2))
            && (t.Structural? <==> a < 2 && b < 2 && (a == 1 || b == 1))
            && (t.TextEdit? <==> a == 0 && b == 0)
  {
  }

  // ---- Detection and causality ----

  /**
   * For operations that carry the clocks of two events of one run, made at about one time: the detector
   * orders them exactly as they happened, and compares their regions exactly when neither knew of the other.
   */
  lemma {:induction false} DetectorOrdersCausally(trace: seq<Action>, i: nat, j: nat, v: VersionedOperation,
                                                  w: VersionedOperation)
    requires Run(trace) && i < |trace| && j < |trace| && trace[i].Local? && trace[j].Local?
    requires v.vectorClock == Some(After(trace, i)) && w.vectorClock == Some(After(trace, j))
    requires Strangers(v, w) && v.documentId == w.documentId && !Older(v, w) && !Older(w, v)
    ensures Detected(v, w) == NoConflict(IsBefore, CausallyOrdered) <==> HappenedBefore(trace, i, j)
    ensures Detected(v, w) == NoConflict(IsAfter, CausallyOrdered) <==> HappenedBefore(trace, j, i)
    ensures EarlyResult(v, w).None? <==> !HappenedBefore(trace, i, j) && !HappenedBefore(trace, j, i)
  {
    AfterPositive(trace, i);
    AfterPositive(trace, j);
    ComparisonsAgree(After(trace, i), After(trace, j));
    ComparisonsAgree(After(trace, j), After(trace, i));
    ClocksCharacteriseCausality(trace, i, j);
    ClocksCharacteriseCausality(trace, j, i);
    SettledIff(v, w);
  }
}

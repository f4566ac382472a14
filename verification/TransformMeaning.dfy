/**
 * What the transformation does to every edit against every other one, overlapping or not and whether
 * or not the replicas then agree, and the document a replica ends with.
 */
module TransformMeaning {
  import opened Bounds
  import opened Convergence
  import opened OperationalTransform
  import opened Slices

  function EndOf(op: Operation): nat { op.position + Cut(op) }

  // ---- The transformed edit, told apart from the case analysis ----

  // Where a position of the document lies once b is executed; one inside what b cuts, right after b's text.
  function Carried(i: nat, b: Operation): nat {
    var x := PastDeletion(i, b.position, Cut(b));
    if x < b.position then x else x + |Text(b)|
  }

  // The range of a reaches over what b touches on both sides.
  predicate Encloses(a: Operation, b: Operation) {
    a.position < b.position && EndOf(b) < EndOf(a)
  }

  predicate Overlap(a: Operation, b: Operation) {
    a.position < EndOf(b) && b.position < EndOf(a)
  }

  // Which characters of a's text go when b is executed: those that stand, place by place, for characters b
  // cuts, and all from there on when b cuts to a's end.
  predicate Loses(a: Operation, b: Operation, j: nat) {
    && a.Replace? && Overlap(a, b)
    && b.position <= a.position + j
    && (a.position + j < EndOf(b) || EndOf(a) <= EndOf(b))
  }

  // What b leaves of a's text from its j-th character on.
  function KeptFrom(a: Operation, b: Operation, j: nat): string
    requires j <= |Text(a)|
    decreases |Text(a)| - j
  {
    if j == |Text(a)| then ""
    else (if Loses(a, b, j) then "" else [Text(a)[j]]) + KeptFrom(a, b, j + 1)
  }

  function Kept(a: Operation, b: Operation): string { KeptFrom(a, b, 0) }

  predicate SameKind(a: Operation, b: Operation) {
    a.Insert? == b.Insert? && a.Delete? == b.Delete?
  }

  // Which positions of the document after b are cut: those a would have cut, and b's own text when a encloses it.
  predicate CutsAfter(a: Operation, b: Operation, k: nat) {
    if k < b.position then Removes(a, k)
    else if k < b.position + |Text(b)| then Encloses(a, b)
    else Removes(a, k - |Text(b)| + Cut(b))
  }

  lemma {:induction false} AgainstInsertCuts(a: Operation, b: Operation, k: nat)
    requires b.Insert?
    ensures Removes(TransformAgainstInsert(a, b), k) <==> CutsAfter(a, b, k)
  {
  }

  lemma {:induction false} AgainstDeleteCuts(a: Operation, b: Operation, k: nat)
    requires b.Delete?
    ensures Removes(TransformAgainstDelete(a, b), k) <==> CutsAfter(a, b, k)
  {
  }

  lemma {:induction false} TransformCuts(a: Operation, b: Operation, k: nat)
    ensures Removes(Transform(a, b), k) <==> CutsAfter(a, b, k)
  {
    match b
    case Insert(_, _) => AgainstInsertCuts(a, b, k);
    case Delete(_, _) => AgainstDeleteCuts(a, b, k);
    case Replace(p, n, s) =>
      var d, i := Delete(p, n), Insert(p, s);
      AgainstInsertCuts(TransformAgainstDelete(a, d), i, k);
      if k < p {
        AgainstDeleteCuts(a, d, k);
      } else if k >= p + |s| {
        AgainstDeleteCuts(a, d, k - |s|);
      }
  }

  lemma {:induction false} KeptBetween(a: Operation, b: Operation, j: nat)
    requires j <= |Text(a)|
    requires forall i :: j <= i < |Text(a)| ==> !Loses(a, b, i)
    ensures KeptFrom(a, b, j) == Text(a)[j..]
    decreases |Text(a)| - j
  {
    if j < |Text(a)| {
      KeptBetween(a, b, j + 1);
    }
  }

  lemma {:induction false} LostBetween(a: Operation, b: Operation, j: nat, e: nat)
    requires j <= e <= |Text(a)| && forall i :: j <= i < e ==> Loses(a, b, i)
    ensures KeptFrom(a, b, j) == KeptFrom(a, b, e)
    decreases e - j
  {
    if j < e {
      LostBetween(a, b, j + 1, e);
    }
  }

  lemma {:induction false} FirstOfSpan(t: string, j: nat, e: nat, rest: string)
    requires j < e <= |t|
    ensures [t[j]] + (t[j + 1..e] + rest) == t[j..e] + rest
  {
  }

  lemma {:induction false} KeptUntil(a: Operation, b: Operation, j: nat, e: nat)
    requires j <= e <= |Text(a)| && forall i :: j <= i < e ==> !Loses(a, b, i)
    ensures KeptFrom(a, b, j) == Text(a)[j..e] + KeptFrom(a, b, e)
    decreases e - j
  {
    if j < e {
      KeptUntil(a, b, j + 1, e);
      FirstOfSpan(Text(a), j, e, KeptFrom(a, b, e));
    }
  }

  lemma {:induction false} KeptIs(a: Operation, b: Operation, from: nat, to: nat)
    requires from <= to <= |Text(a)| && forall j :: 0 <= j < |Text(a)| ==> (Loses(a, b, j) <==> from <= j < to)
    ensures Kept(a, b) == Text(a)[..from] + Text(a)[to..]
  {
    KeptUntil(a, b, 0, from);
    LostBetween(a, b, from, to);
    KeptBetween(a, b, to);
  }

  lemma {:induction false} NothingLost(a: Operation, b: Operation)
    requires !(a.Replace? && Overlap(a, b))
    ensures Kept(a, b) == Text(a)
  {
    KeptBetween(a, b, 0);
  }

  lemma {:induction false} ApartKeeps(a: Operation, b: Operation)
    requires b.Delete? && !(a.Replace? && Overlap(a, b))
    ensures Text(TransformAgainstDelete(a, b)) == Text(a)
  {
  }

  // The cut starts at or before the replaced range.
  lemma {:induction false} HeadLost(a: Operation, b: Operation)
    requires a.Replace? && b.Delete? && Overlap(a, b) && b.position <= a.position
    ensures Text(TransformAgainstDelete(a, b)) == Kept(a, b)
  {
    var to := if EndOf(a) <= EndOf(b) then |a.text| else Min(|a.text|, EndOf(b) - a.position);
    KeptIs(a, b, 0, to);
    assert a.text[..0] + a.text[to..] == a.text[to..];
  }

  // It starts inside the range and reaches its end.
  lemma {:induction false} TailLost(a: Operation, b: Operation)
    requires a.Replace? && b.Delete? && Overlap(a, b) && a.position < b.position && EndOf(a) <= EndOf(b)
    ensures Text(TransformAgainstDelete(a, b)) == Kept(a, b)
  {
    var from := Min(|a.text|, b.position - a.position);
    KeptIs(a, b, from, |a.text|);
    assert a.text[..from] + a.text[|a.text|..] == a.text[..from];
  }

  lemma {:induction false} MiddleLost(a: Operation, b: Operation)
    requires a.Replace? && b.Delete? && Overlap(a, b) && Encloses(a, b)
    ensures Text(TransformAgainstDelete(a, b)) == Kept(a, b)
  {
    KeptIs(a, b, Min(|a.text|, b.position - a.position), Min(|a.text|, EndOf(b) - a.position));
  }

  lemma {:induction false} AgainstDeleteKeeps(a: Operation, b: Operation)
    requires b.Delete?
    ensures Text(TransformAgainstDelete(a, b)) == Kept(a, b)
  {
    if !(a.Replace? && Overlap(a, b)) {
      NothingLost(a, b);
      ApartKeeps(a, b);
    } else if b.position <= a.position {
      HeadLost(a, b);
    } else if EndOf(a) <= EndOf(b) {
      TailLost(a, b);
    } else {
      MiddleLost(a, b);
    }
  }

  lemma {:induction false} LosesToCut(a: Operation, p: nat, n: nat, s: string)
    ensures Kept(a, Replace(p, n, s)) == Kept(a, Delete(p, n))
  {
    SameKept(a, Replace(p, n, s), Delete(p, n), 0);
  }

  lemma {:induction false} SameKept(a: Operation, b: Operation, c: Operation, j: nat)
    requires b.position == c.position && Cut(b) == Cut(c) && j <= |Text(a)|
    ensures KeptFrom(a, b, j) == KeptFrom(a, c, j)
    decreases |Text(a)| - j
  {
    if j < |Text(a)| {
      SameKept(a, b, c, j + 1);
    }
  }

  lemma {:induction false} TransformKeepsText(a: Operation, b: Operation)
    ensures Text(Transform(a, b)) == Kept(a, b)
  {
    match b
    case Insert(_, _) => KeptIs(a, b, |Text(a)|, |Text(a)|);
    case Delete(_, _) => AgainstDeleteKeeps(a, b);
    case Replace(p, n, s) =>
      AgainstDeleteKeeps(a, Delete(p, n));
      LosesToCut(a, p, n, s);
  }

  lemma {:induction false} AgainstInsertCarries(a: Operation, b: Operation)
    requires b.Insert?
    ensures SameKind(TransformAgainstInsert(a, b), a)
    ensures TransformAgainstInsert(a, b).position == Carried(a.position, b)
  {
  }

  lemma {:induction false} AgainstDeleteCarries(a: Operation, b: Operation)
    requires b.Delete?
    ensures SameKind(TransformAgainstDelete(a, b), a)
    ensures TransformAgainstDelete(a, b).position == Carried(a.position, b)
  {
  }

  lemma {:induction false} TransformCarries(a: Operation, b: Operation)
    ensures SameKind(Transform(a, b), a) && Transform(a, b).position == Carried(a.position, b)
  {
    match b
    case Insert(_, _) => AgainstInsertCarries(a, b);
    case Delete(_, _) => AgainstDeleteCarries(a, b);
    case Replace(p, n, s) =>
      AgainstDeleteCarries(a, Delete(p, n));
      AgainstInsertCarries(TransformAgainstDelete(a, Delete(p, n)), Insert(p, s));
  }

  /**
   * For any two edits whatever: the transformed edit keeps its kind, starts where its start is carried,
   * cuts what it would have cut and the other's text exactly when it encloses it, and keeps of its text
   * what does not stand for characters that are gone.
   */
  lemma {:induction false} TransformMeans(a: Operation, b: Operation)
    ensures SameKind(Transform(a, b), a) && Transform(a, b).position == Carried(a.position, b)
    ensures forall k: nat :: Removes(Transform(a, b), k) <==> CutsAfter(a, b, k)
    ensures Text(Transform(a, b)) == Kept(a, b)
  {
    TransformCarries(a, b);
    TransformKeepsText(a, b);
    forall k: nat ensures Removes(Transform(a, b), k) <==> CutsAfter(a, b, k) {
      TransformCuts(a, b, k);
    }
  }

  /** These four say all there is to say of an edit. */
  lemma {:induction false} MeansDetermine(a: Operation, b: Operation)
    requires SameKind(a, b) && a.position == b.position && Text(a) == Text(b)
    requires forall k: nat :: Removes(a, k) <==> Removes(b, k)
    ensures a == b
  {
    if Cut(a) < Cut(b) {
      assert Removes(b, a.position + Cut(a));
    } else if Cut(b) < Cut(a) {
      assert Removes(a, a.position + Cut(b));
    }
  }

  // ---- The document a replica ends with ----

  // An edit that leaves s for p..e meets one, made further up the document, that left t for q..f.
  function Earlier(doc: string, p: nat, s: string, e: nat, q: nat, t: string, f: nat): string
    requires p <= e <= |doc| && p < q <= f <= |doc|
  {
    if e <= q then doc[..p] + s + doc[e..q] + t + doc[f..]
    else if e <= f then doc[..p] + s + t + doc[f..]
    else doc[..p] + s + doc[e..]
  }

  // It meets one made no further up.
  function Later(doc: string, p: nat, s: string, e: nat, q: nat, t: string, f: nat): string
    requires q <= p <= e <= |doc| && q <= f <= |doc|
  {
    if f <= p then doc[..q] + t + doc[f..p] + s + doc[e..] else doc[..q] + t + s + doc[Max(e, f)..]
  }

  /** What executing b and then the transformed a leaves of the document, without any transformation. */
  function Both(doc: string, b: Operation, a: Operation): string
    requires InBounds(a, |doc|) && InBounds(b, |doc|)
  {
    if a.position < b.position
    then Earlier(doc, a.position, Kept(a, b), EndOf(a), b.position, Text(b), EndOf(b))
    else Later(doc, a.position, Kept(a, b), EndOf(a), b.position, Text(b), EndOf(b))
  }

  function CutLeft(a: Operation, b: Operation): nat {
    if EndOf(a) <= b.position || EndOf(b) <= a.position then Cut(a)
    else if Encloses(a, b) then Cut(a) - Cut(b) + |Text(b)|
    else if a.position < b.position then b.position - a.position
    else Max(0, EndOf(a) - EndOf(b))
  }

  lemma {:induction false} TransformCutsThatMany(a: Operation, b: Operation)
    ensures Cut(Transform(a, b)) == CutLeft(a, b)
  {
  }

  lemma {:induction false} ApplyIs(doc: string, op: Operation, p: nat, s: string, e: nat)
    requires InBounds(op, |doc|) && p == op.position && s == Text(op) && e == EndOf(op)
    ensures Apply(doc, op) == doc[..p] + s + doc[e..]
  {
  }

  ghost predicate Spliced(u: string, p: nat, s: string, e: nat, v: string) {
    p <= e <= |u| && v == u[..p] + s + u[e..]
  }

  lemma {:induction false} SplicedBefore(doc: string, p: nat, s: string, e: nat, q: nat, t: string, f: nat,
                                         u: string, v: string)
    requires p <= e <= q <= f <= |doc| && u == doc[..q] + t + doc[f..] && Spliced(u, p, s, e, v)
    ensures v == doc[..p] + s + doc[e..q] + t + doc[f..]
  {
    assert u[..p] == doc[..p] && u[e..] == doc[e..q] + t + doc[f..];
  }

  lemma {:induction false} SplicedUpTo(doc: string, p: nat, s: string, q: nat, t: string, f: nat, u: string, v: string)
    requires p <= q <= f <= |doc| && u == doc[..q] + t + doc[f..] && Spliced(u, p, s, q, v)
    ensures v == doc[..p] + s + t + doc[f..]
  {
    assert u[..p] == doc[..p] && u[q..] == t + doc[f..];
  }

  lemma {:induction false} SplicedAround(doc: string, p: nat, s: string, e: nat, q: nat, t: string, f: nat, u: string,
                                         v: string)
    requires p <= q <= f <= e <= |doc| && u == doc[..q] + t + doc[f..] && Spliced(u, p, s, e - (f - q) + |t|, v)
    ensures v == doc[..p] + s + doc[e..]
  {
    assert u[..p] == doc[..p] && u[e - (f - q) + |t|..] == doc[e..];
  }

  lemma {:induction false} SplicedAfter(doc: string, p: nat, s: string, e: nat, q: nat, t: string, f: nat, u: string,
                                        v: string)
    requires q <= f <= p <= e <= |doc| && u == doc[..q] + t + doc[f..]
    requires Spliced(u, p - (f - q) + |t|, s, e - (f - q) + |t|, v)
    ensures v == doc[..q] + t + doc[f..p] + s + doc[e..]
  {
    assert u[..p - (f - q) + |t|] == doc[..q] + t + doc[f..p] && u[e - (f - q) + |t|..] == doc[e..];
  }

  lemma {:induction false} SplicedBehind(doc: string, s: string, e: nat, q: nat, t: string, f: nat, u: string,
                                         v: string)
    requires q <= f <= e <= |doc| && u == doc[..q] + t + doc[f..]
    requires Spliced(u, q + |t|, s, e - (f - q) + |t|, v)
    ensures v == doc[..q] + t + s + doc[e..]
  {
    assert u[..q + |t|] == doc[..q] + t && u[e - (f - q) + |t|..] == doc[e..];
  }

  lemma {:induction false} EarlierLeaves(doc: string, p: nat, s: string, e: nat, q: nat, t: string, f: nat, e': nat,
                                          u: string, v: string)
    requires p <= e <= |doc| && p < q <= f <= |doc| && u == doc[..q] + t + doc[f..] && Spliced(u, p, s, e', v)
    requires e' == if e <= q then e else if e <= f then q else e - (f - q) + |t|
    ensures v == Earlier(doc, p, s, e, q, t, f)
  {
    if e <= q {
      SplicedBefore(doc, p, s, e, q, t, f, u, v);
    } else if e <= f {
      SplicedUpTo(doc, p, s, q, t, f, u, v);
    } else {
      SplicedAround(doc, p, s, e, q, t, f, u, v);
    }
  }

  lemma {:induction false} LaterLeaves(doc: string, p: nat, s: string, e: nat, q: nat, t: string, f: nat, p': nat,
                                       e': nat, u: string, v: string)
    requires q <= p <= e <= |doc| && q <= f <= |doc| && u == doc[..q] + t + doc[f..] && Spliced(u, p', s, e', v)
    requires p' == (if f <= p then p - (f - q) else q) + |t| && e' == Max(e, f) - (f - q) + |t|
    ensures v == Later(doc, p, s, e, q, t, f)
  {
    if f <= p {
      SplicedAfter(doc, p, s, e, q, t, f, u, v);
    } else {
      SplicedBehind(doc, s, Max(e, f), q, t, f, u, v);
    }
  }

  lemma {:induction false} StaysInBounds(a: Operation, b: Operation, n: nat)
    requires InBounds(a, n) && InBounds(b, n)
    ensures InBounds(Transform(a, b), n - Cut(b) + |Text(b)|)
  {
    TransformMeans(a, b);
    TransformCutsThatMany(a, b);
  }

  lemma {:induction false} TwoSplices(doc: string, b: Operation, a': Operation, u: string, v: string)
    requires InBounds(b, |doc|) && InBounds(a', |doc| - Cut(b) + |Text(b)|) && u == Apply(doc, b) && v == Apply(u, a')
    ensures u == doc[..b.position] + Text(b) + doc[EndOf(b)..]
    ensures Spliced(u, a'.position, Text(a'), EndOf(a'), v)
  {
    ApplyIs(doc, b, b.position, Text(b), EndOf(b));
    ApplyIs(u, a', a'.position, Text(a'), EndOf(a'));
  }

  lemma {:induction false} TransformIs(a: Operation, b: Operation, n: nat, a': Operation)
    requires InBounds(a, n) && InBounds(b, n) && a' == Transform(a, b)
    ensures InBounds(a', n - Cut(b) + |Text(b)|) && Text(a') == Kept(a, b)
    ensures a'.position == Carried(a.position, b) && EndOf(a') == a'.position + CutLeft(a, b)
  {
    TransformMeans(a, b);
    TransformCutsThatMany(a, b);
    StaysInBounds(a, b, n);
  }

  lemma {:induction false} BothLeaves(doc: string, a: Operation, b: Operation, p': nat, e': nat, u: string, v: string)
    requires InBounds(a, |doc|) && InBounds(b, |doc|) && u == doc[..b.position] + Text(b) + doc[EndOf(b)..]
    requires Spliced(u, p', Kept(a, b), e', v) && p' == Carried(a.position, b) && e' == p' + CutLeft(a, b)
    ensures v == Both(doc, b, a)
  {
    var p, s, e, q, t, f := a.position, Kept(a, b), EndOf(a), b.position, Text(b), EndOf(b);
    if p < q {
      EarlierLeaves(doc, p, s, e, q, t, f, e', u, v);
    } else {
      LaterLeaves(doc, p, s, e, q, t, f, p', e', u, v);
    }
  }

  /**
   * For any two edits that address text the document has: the document of a replica that executed b and
   * then the other edit as it was transformed against b, overlapping or not.
   */
  lemma {:induction false} TransformedLeaves(doc: string, a: Operation, b: Operation)
    requires InBounds(a, |doc|) && InBounds(b, |doc|)
    ensures Apply(Apply(doc, b), Transform(a, b)) == Both(doc, b, a)
  {
    var u := Apply(doc, b);
    var v := Apply(u, Transform(a, b));
    var a' := Transform(a, b);
    TransformIs(a, b, |doc|, a');
    TwoSplices(doc, b, a', u, v);
    BothLeaves(doc, a, b, a'.position, EndOf(a'), u, v);
  }

  // A text put strictly inside what b cuts: first it, then b, and the other way round.
  lemma {:induction false} BothInside(doc: string, a: Operation, b: Operation, q: nat, e: nat, s: string, t: string)
    requires a.Insert? && !b.Insert? && s == a.text && t == Text(b) && q == b.position && e == EndOf(b)
    requires q < a.position < e <= |doc|
    ensures Both(doc, a, b) == doc[..q] + t + doc[e..] && Both(doc, b, a) == doc[..q] + t + s + doc[e..]
  {
    NothingLost(a, b);
    KeptBetween(b, a, 0);
  }

  /**
   * A text put strictly inside what another edit takes away is gone on the replica that makes it first,
   * and stays behind the other edit's text on the one that makes it second.
   */
  lemma {:induction false} TypedInside(doc: string, a: Operation, b: Operation)
    requires a.Insert? && !b.Insert? && b.position < a.position < EndOf(b) <= |doc|
    ensures Apply(Apply(doc, a), Transform(b, a)) == doc[..b.position] + Text(b) + doc[EndOf(b)..]
    ensures Apply(Apply(doc, b), Transform(a, b)) == doc[..b.position] + Text(b) + a.text + doc[EndOf(b)..]
  {
    TransformedLeaves(doc, b, a);
    TransformedLeaves(doc, a, b);
    BothInside(doc, a, b, b.position, EndOf(b), a.text, Text(b));
  }

  /** Wherever it is made, a replacement does what a deletion and an insertion at its place do. */
  lemma {:induction false} ReplaceIsDeleteThenInsert(doc: string, p: nat, n: nat, s: string)
    ensures Apply(doc, Replace(p, n, s)) == Apply(Apply(doc, Delete(p, n)), Insert(p, s))
  {
    var cut := Apply(doc, Delete(p, n));
    if p <= |doc| {
      assert cut[..p] == doc[..p] && cut[p..] == Drop(doc, p + n);
    } else {
      assert cut == doc + "" == doc;
    }
  }
}

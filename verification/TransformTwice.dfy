/**
 * The second transformation property: an operation that has to be brought up to date against two
 * concurrent ones comes out the same whichever of the two it meets first.
 */
module TransformTwice {
  import opened Convergence
  import opened OperationalTransform
  import opened Slices

  // Equal, or two deletions of nothing.
  predicate SameEdit(a: Operation, b: Operation) {
    a == b || (a.Delete? && b.Delete? && a.length == 0 && b.length == 0)
  }

  function At(op: Operation, p: nat): Operation {
    match op
    case Insert(_, s) => Insert(p, s)
    case Delete(_, n) => Delete(p, n)
    case Replace(_, n, s) => Replace(p, n, s)
  }

  // ---- Disjoint operations only ever shift ----

  lemma {:induction false} DisjointShifts(a: Operation, b: Operation)
    requires Width(a) > 0 && Width(b) > 0 && Disjoint(a, b)
    ensures Transform(a, b) == At(a, Moved(a.position, b))
    ensures a.position + Width(a) <= b.position ==> Moved(a.position, b) == a.position
    ensures b.position + Width(b) <= a.position ==> Moved(a.position, b) == a.position - Cut(b) + |Text(b)|
  {
    TransformAdjusts(a, b);
  }

  // c, a and b have positive widths and lie apart; x0, y0 are where one meets another.
  lemma {:induction false} ShiftsCommute(c: Operation, a: Operation, b: Operation)
    requires Width(a) > 0 && Width(b) > 0 && Disjoint(c, a) && Disjoint(c, b) && Disjoint(a, b)
    requires Width(c) > 0
    ensures Disjoint(At(c, Moved(c.position, a)), At(b, Moved(b.position, a)))
    ensures Moved(Moved(c.position, a), At(b, Moved(b.position, a)))
         == Moved(Moved(c.position, b), At(a, Moved(a.position, b)))
  {
  }

  // The transformation, known only by what it does to disjoint operations and to deletions.
  ghost predicate Shifts(t: (Operation, Operation) -> Operation) {
    forall x: Operation, y: Operation :: Width(x) > 0 && Width(y) > 0 && Disjoint(x, y) ==>
        t(x, y) == At(x, Moved(x.position, y))
  }

  lemma {:induction false} DisjointTwice(t: (Operation, Operation) -> Operation, c: Operation, a: Operation,
                                         b: Operation)
    requires Shifts(t)
    requires Width(a) > 0 && Width(b) > 0 && Width(c) > 0
    requires Disjoint(c, a) && Disjoint(c, b) && Disjoint(a, b)
    ensures t(t(c, a), t(b, a)) == t(t(c, b), t(a, b))
  {
    ShiftsCommute(c, a, b);
    ShiftsCommute(c, b, a);
    assert t(t(c, a), t(b, a)) == At(t(c, a), Moved(Moved(c.position, a), t(b, a)));
    assert t(t(c, b), t(a, b)) == At(t(c, b), Moved(Moved(c.position, b), t(a, b)));
  }

  // ---- Deletions ----

  lemma {:induction false} PastDeletionTwice(i: nat, p: nat, n: nat, q: nat, m: nat)
    ensures PastDeletion(q, p, n) <= PastDeletion(q + m, p, n) && PastDeletion(p, q, m) <= PastDeletion(p + n, q, m)
    ensures var q', p' := PastDeletion(q, p, n), PastDeletion(p, q, m);
            PastDeletion(PastDeletion(i, p, n), q', PastDeletion(q + m, p, n) - q')
              == PastDeletion(PastDeletion(i, q, m), p', PastDeletion(p + n, q, m) - p')
  {
  }

  lemma {:induction false} PastDeletionMonotone(i: nat, j: nat, p: nat, n: nat)
    requires i <= j
    ensures PastDeletion(i, p, n) <= PastDeletion(j, p, n)
  {
  }

  // An edit whose ends move as k says when b's characters are gone.
  function Surviving(k: (nat, nat, nat) -> nat, a: Operation, b: Operation): Operation
    requires b.Delete?
  {
    var start := k(a.position, b.position, b.length);
    match a
    case Insert(_, s) => Insert(start, s)
    case Replace(_, n, s) => Replace(start, n, s)
    case Delete(p, n) =>
      var end := k(p + n, b.position, b.length);
      Delete(start, if end >= start then end - start else 0)
  }

  lemma {:induction false} AgainstDeletion(a: Operation, b: Operation)
    requires Effective(a) && b.Delete? && Compatible(a, b)
    ensures Transform(a, b) == Surviving(PastDeletion, a, b)
  {
    TransformAdjusts(a, b);
  }

  // Position i, moved past both deletions, ends up at one place in either order.
  predicate Meet(k: (nat, nat, nat) -> nat, i: nat, p: nat, n: nat, q: nat, m: nat) {
    && k(q, p, n) <= k(q + m, p, n) && k(p, q, m) <= k(p + n, q, m)
    && k(k(i, p, n), k(q, p, n), k(q + m, p, n) - k(q, p, n)) == k(k(i, q, m), k(p, q, m), k(p + n, q, m) - k(p, q, m))
  }

  ghost predicate Meets(k: (nat, nat, nat) -> nat) {
    && (forall i: nat, j: nat, p: nat, n: nat :: i <= j ==> k(i, p, n) <= k(j, p, n))
    && (forall i: nat, p: nat, n: nat, q: nat, m: nat :: Meet(k, i, p, n, q, m))
  }

  lemma {:induction false} PastDeletionMeets()
    ensures Meets(PastDeletion)
  {
    forall i: nat, j: nat, p: nat, n: nat | i <= j ensures PastDeletion(i, p, n) <= PastDeletion(j, p, n) {
      PastDeletionMonotone(i, j, p, n);
    }
    forall i: nat, p: nat, n: nat, q: nat, m: nat ensures Meet(PastDeletion, i, p, n, q, m) {
      PastDeletionTwice(i, p, n, q, m);
    }
  }

  lemma {:induction false} SurvivingTwice(k: (nat, nat, nat) -> nat, c: Operation, a: Operation, b: Operation)
    requires a.Delete? && b.Delete? && Meets(k)
    ensures Surviving(k, Surviving(k, c, a), Surviving(k, b, a)) == Surviving(k, Surviving(k, c, b), Surviving(k, a, b))
  {
    var p, n, q, m := a.position, a.length, b.position, b.length;
    assert Meet(k, c.position, p, n, q, m) && Meet(k, c.position + Cut(c), p, n, q, m);
    assert Surviving(k, b, a) == Delete(k(q, p, n), k(q + m, p, n) - k(q, p, n));
    assert Surviving(k, a, b) == Delete(k(p, q, m), k(p + n, q, m) - k(p, q, m));
    assert k(c.position, p, n) <= k(c.position + Cut(c), p, n) && k(c.position, q, m) <= k(c.position + Cut(c), q, m);
  }

  lemma {:induction false} DeletionsTwice(c: Operation, a: Operation, b: Operation,
                                          ca: Operation, ba: Operation, cb: Operation, ab: Operation)
    requires Effective(c) && a.Delete? && b.Delete? && Compatible(c, a) && Compatible(c, b)
    requires ca == Transform(c, a) && ba == Transform(b, a) && cb == Transform(c, b) && ab == Transform(a, b)
    ensures ba.Delete? && ab.Delete? && Effective(ca) && Effective(cb) && Compatible(ca, ba) && Compatible(cb, ab)
    ensures Surviving(PastDeletion, ca, ba) == Surviving(PastDeletion, cb, ab)
  {
    AgainstDeletion(c, a);
    AgainstDeletion(b, a);
    AgainstDeletion(c, b);
    AgainstDeletion(a, b);
    TransformKeepsCompatible(c, b, a);
    TransformKeepsCompatible(c, a, b);
    PastDeletionMeets();
    SurvivingTwice(PastDeletion, c, a, b);
  }

  // ---- Overlapping deletions beside another edit ----

  lemma {:induction false} DeletionEnds(c: Operation, a: Operation)
    requires c.Delete? && a.Delete?
    ensures Transform(c, a).Delete?
    ensures Transform(c, a).position == PastDeletion(c.position, a.position, a.length)
    ensures Transform(c, a).position + Transform(c, a).length ==
            PastDeletion(c.position + c.length, a.position, a.length)
  {
    TransformAdjusts(c, a);
  }

  lemma {:induction false} OverlapBefore(c: Operation, a: Operation, b: Operation, ca: Operation, ba: Operation)
    requires c.Delete? && a.Delete? && !b.Delete? && Width(b) > 0
    requires c.position + c.length <= b.position && a.position + a.length <= b.position
    requires ca == Transform(c, a) && ba == Transform(b, a)
    ensures Transform(c, b) == c || c.length == 0
    ensures Transform(a, b) == a || a.length == 0
    ensures SameEdit(Transform(ca, ba), ca)
  {
    DeletionEnds(c, a);
    TransformAdjusts(b, a);
    TransformAdjusts(c, b);
    TransformAdjusts(a, b);
    TransformAdjusts(ca, ba);
  }

  lemma {:induction false} OverlapAfter(c: Operation, a: Operation, b: Operation, d: int)
    requires c.Delete? && a.Delete? && !b.Delete? && Width(b) > 0 && d == |Text(b)| - Cut(b)
    requires b.position + Width(b) <= c.position && b.position + Width(b) <= a.position
    ensures Transform(c, b) == At(c, c.position + d) && Transform(a, b) == At(a, a.position + d)
    ensures Transform(b, a) == b
    ensures Transform(Transform(c, a), b) == At(Transform(c, a), Transform(c, a).position + d)
  {
    DeletionEnds(c, a);
    TransformAdjusts(b, a);
    TransformAdjusts(c, b);
    TransformAdjusts(a, b);
    TransformAdjusts(Transform(c, a), b);
  }

  lemma {:induction false} DeletionsShift(c: Operation, a: Operation, d: int)
    requires c.Delete? && a.Delete? && c.position + d >= 0 && a.position + d >= 0
    ensures Transform(c, a).position + d >= 0
    ensures Transform(At(c, c.position + d), At(a, a.position + d)) == At(Transform(c, a), Transform(c, a).position + d)
  {
    DeletionEnds(c, a);
    DeletionEnds(At(c, c.position + d), At(a, a.position + d));
  }

  lemma {:induction false} OverlapTwice(c: Operation, a: Operation, b: Operation)
    requires c.Delete? && a.Delete? && !b.Delete? && c.length > 0 && a.length > 0 && Width(b) > 0
    requires Disjoint(c, b) && Disjoint(a, b) && !Disjoint(c, a)
    ensures SameEdit(Transform(Transform(c, a), Transform(b, a)), Transform(Transform(c, b), Transform(a, b)))
  {
    if c.position < b.position {
      OverlapBefore(c, a, b, Transform(c, a), Transform(b, a));
    } else {
      var d := |Text(b)| - Cut(b);
      OverlapAfter(c, a, b, d);
      DeletionsShift(c, a, d);
    }
  }

  // ---- Deletions of nothing ----

  lemma {:induction false} EmptyDeletionIsNeutral(a: Operation, p: nat)
    ensures Transform(a, Delete(p, 0)) == a
  {
    if a.Replace? && a.position < p < a.position + a.length {
      assert Take(a.text, p - a.position) + Drop(a.text, p - a.position) == a.text;
    }
  }

  lemma {:induction false} EmptyDeletionStays(c: Operation, b: Operation)
    requires c.Delete? && c.length == 0 && Effective(b) && Compatible(c, b)
    ensures Transform(c, b).Delete? && Transform(c, b).length == 0
  {
    TransformAdjusts(c, b);
  }

  lemma {:induction false} EmptyTwice(c: Operation, a: Operation, b: Operation)
    requires Effective(b) && Effective(c) && a.Delete? && a.length == 0 && Compatible(a, b)
    ensures Transform(Transform(c, a), Transform(b, a)) == Transform(Transform(c, b), Transform(a, b))
  {
    EmptyDeletionStays(a, b);
    EmptyDeletionIsNeutral(c, a.position);
    EmptyDeletionIsNeutral(b, a.position);
    EmptyDeletionIsNeutral(Transform(c, b), Transform(a, b).position);
  }

  lemma {:induction false} EmptyMeets(c: Operation, a: Operation, b: Operation)
    requires c.Delete? && c.length == 0
    requires Effective(a) && Effective(b) && Compatible(c, a) && Compatible(c, b) && Compatible(a, b)
    ensures SameEdit(Transform(Transform(c, a), Transform(b, a)), Transform(Transform(c, b), Transform(a, b)))
  {
    EmptyDeletionStays(c, a);
    EmptyDeletionStays(c, b);
    TransformKeepsCompatible(c, b, a);
    TransformKeepsCompatible(c, a, b);
    TransformAdjusts(b, a);
    TransformAdjusts(a, b);
    EmptyDeletionStays(Transform(c, a), Transform(b, a));
    EmptyDeletionStays(Transform(c, b), Transform(a, b));
  }

  // ---- The property ----

  lemma {:induction false} PositiveTwice(c: Operation, a: Operation, b: Operation)
    requires Width(a) > 0 && Width(b) > 0 && Width(c) > 0
    requires Compatible(c, a) && Compatible(c, b) && Compatible(a, b)
    ensures SameEdit(Transform(Transform(c, a), Transform(b, a)), Transform(Transform(c, b), Transform(a, b)))
  {
    if a.Delete? && b.Delete? {
      DeletionsTwice(c, a, b, Transform(c, a), Transform(b, a), Transform(c, b), Transform(a, b));
      AgainstDeletion(Transform(c, a), Transform(b, a));
      AgainstDeletion(Transform(c, b), Transform(a, b));
    } else if !Disjoint(c, a) {
      OverlapTwice(c, a, b);
    } else if !Disjoint(c, b) {
      OverlapTwice(c, b, a);
    } else {
      forall x, y | Width(x) > 0 && Width(y) > 0 && Disjoint(x, y)
        ensures Transform(x, y) == At(x, Moved(x.position, y))
      {
        DisjointShifts(x, y);
      }
      DisjointTwice(Transform, c, a, b);
    }
  }

  /** Two executed edits may be met in either order, for every three operations of one batch. */
  lemma {:induction false} TransformTwiceAgrees(c: Operation, a: Operation, b: Operation)
    requires Effective(a) && Effective(b) && Effective(c)
    requires Compatible(c, a) && Compatible(c, b) && Compatible(a, b)
    ensures SameEdit(Transform(Transform(c, a), Transform(b, a)), Transform(Transform(c, b), Transform(a, b)))
  {
    if Width(c) == 0 {
      EmptyMeets(c, a, b);
    } else if Width(a) == 0 {
      EmptyTwice(c, a, b);
    } else if Width(b) == 0 {
      EmptyTwice(c, b, a);
    } else {
      PositiveTwice(c, a, b);
    }
  }
}

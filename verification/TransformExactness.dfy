/**
 * Exactly when two concurrent edits converge, for every pair of operations that address text the
 * document has. Each condition speaks of the two operations alone, so it can be checked before
 * either is executed.
 */
module TransformExactness {
  import Convergence
  import opened OperationalTransform
  import opened Slices

  predicate Commute(s: string, t: string) { s + t == t + s }

  // An insertion meets a replacement (or an insertion, which replaces nothing) of n characters at q by t.
  predicate InsertAgrees(p: nat, s: string, q: nat, n: nat, t: string) {
    (p == q ==> Commute(s, t)) && (q < p < q + n ==> s == "")
  }

  // A deletion of n characters at q meets a replacement of m characters at p by t.
  predicate DeleteAgrees(q: nat, n: nat, p: nat, m: nat, t: string) {
    || q + n <= p || p + m <= q
    || t == "" || n == 0
    || (q < p && p + m < q + n)
    || (p < q && |t| <= q - p)
  }

  // A replacement of m characters at p by s meets one of n characters at q >= p by t.
  predicate ReplaceAgrees(p: nat, m: nat, s: string, q: nat, n: nat, t: string)
    requires p <= q
  {
    if p + m <= q && p < q then true
    else if p == q then
      if m == 0 || n == 0 then Commute(s, t)
      else if m == n then s == t
      else if m > n then s == t + Drop(s, n)
      else t == s + Drop(t, m)
    else if q + n < p + m then |s| <= q - p || n == 0
    else if q + n == p + m then s == Take(s, q - p) + t
    else Take(s, q - p) + t == s + Drop(t, p + m - q)
  }

  predicate Agree(a: Operation, b: Operation) {
    match (a, b)
    case (Insert(p, s), Insert(q, t)) => p == q ==> Commute(s, t)
    case (Insert(p, s), Delete(q, n)) => q < p < q + n ==> s == ""
    case (Delete(q, n), Insert(p, s)) => q < p < q + n ==> s == ""
    case (Delete(_, _), Delete(_, _)) => true
    case (Insert(p, s), Replace(q, n, t)) => InsertAgrees(p, s, q, n, t)
    case (Replace(q, n, t), Insert(p, s)) => InsertAgrees(p, s, q, n, t)
    case (Delete(q, n), Replace(p, m, t)) => DeleteAgrees(q, n, p, m, t)
    case (Replace(p, m, t), Delete(q, n)) => DeleteAgrees(q, n, p, m, t)
    case (Replace(p, m, s), Replace(q, n, t)) =>
      if p <= q then ReplaceAgrees(p, m, s, q, n, t) else ReplaceAgrees(q, n, t, p, m, s)
  }

  // The document with what lies between p and r made x.
  function Mid(doc: string, p: nat, x: string, r: nat): string
    requires p <= r <= |doc|
  {
    doc[..p] + x + doc[r..]
  }

  lemma {:induction false} MidIff(doc: string, p: nat, x: string, y: string, r: nat)
    requires p <= r <= |doc|
    ensures Mid(doc, p, x, r) == Mid(doc, p, y, r) <==> x == y
  {
    var u, v := Mid(doc, p, x, r), Mid(doc, p, y, r);
    assert |u| == |v| ==> |x| == |y|;
    assert u[p..p + |x|] == x;
    assert v[p..p + |y|] == y;
  }

  lemma {:induction false} ApplyIs(doc: string, op: Operation)
    requires InBounds(op, |doc|)
    ensures Apply(doc, op) == Mid(doc, op.position, Text(op), op.position + Cut(op))
  {
  }

  predicate Splices(op: Operation, p: nat, s: string, q: nat) {
    op.position == p && Text(op) == s && p + Cut(op) == q
  }

  lemma {:induction false} MidLength(doc: string, p: nat, s: string, q: nat)
    requires p <= q <= |doc|
    ensures |Mid(doc, p, s, q)| == |doc| - (q - p) + |s|
  {
  }

  lemma {:induction false} ApplyBoth(doc: string, a: Operation, b: Operation,
                                     p: nat, s: string, q: nat, p2: nat, t: string, q2: nat)
    requires InBounds(a, |doc|) && InBounds(b, |doc| - Cut(a) + |Text(a)|)
    requires Splices(a, p, s, q) && Splices(b, p2, t, q2)
    ensures Apply(Apply(doc, a), b) == Mid(Mid(doc, p, s, q), p2, t, q2)
  {
    var u := Apply(doc, a);
    ApplyIs(doc, a);
    MidLength(doc, p, s, q);
    ApplyIs(u, b);
  }

  // ---- Edits that lie apart ----

  lemma {:induction false} ApartTransforms(a: Operation, b: Operation)
    requires a.position < b.position && a.position + Cut(a) <= b.position
    ensures Transform(a, b) == a
    ensures Transform(b, a).position == b.position - Cut(a) + |Text(a)|
    ensures Cut(Transform(b, a)) == Cut(b) && Text(Transform(b, a)) == Text(b)
    ensures forall n: nat :: InBounds(a, n) && InBounds(b, n) ==> InBounds(Transform(b, a), n - Cut(a) + |Text(a)|)
  {
  }

  lemma {:induction false} ApartMids(doc: string, p: nat, s: string, q: nat, p': nat, t: string, q': nat, p2: nat,
                                     q2: nat)
    requires p <= q <= p' <= q' <= |doc| && p2 == p' - (q - p) + |s| && q2 == q' - (q - p) + |s|
    ensures Mid(Mid(doc, p, s, q), p2, t, q2) == Mid(Mid(doc, p', t, q'), p, s, q)
  {
    assert Mid(Mid(doc, p, s, q), p2, t, q2) == doc[..p] + s + doc[q..p'] + t + doc[q'..];
  }

  lemma {:induction false} ApartApply(doc: string, a: Operation, b: Operation, b': Operation)
    requires InBounds(a, |doc|) && InBounds(b, |doc|) && a.position + Cut(a) <= b.position
    requires b'.position == b.position - Cut(a) + |Text(a)| && Cut(b') == Cut(b) && Text(b') == Text(b)
    requires InBounds(b', |doc| - Cut(a) + |Text(a)|)
    ensures Apply(Apply(doc, a), b') == Apply(Apply(doc, b), a)
  {
    var p, s, q := a.position, Text(a), a.position + Cut(a);
    var p', t, q' := b.position, Text(b), b.position + Cut(b);
    var p2, q2 := b'.position, b'.position + Cut(b');
    ApplyBoth(doc, a, b', p, s, q, p2, t, q2);
    ApplyBoth(doc, b, a, p', t, q', p, s, q);
    ApartMids(doc, p, s, q, p', t, q', p2, q2);
  }

  lemma {:induction false} ApartConverge(doc: string, a: Operation, b: Operation)
    requires InBounds(a, |doc|) && InBounds(b, |doc|)
    requires a.position < b.position && a.position + Cut(a) <= b.position
    ensures Converges(doc, a, b)
  {
    ApartTransforms(a, b);
    ApartApply(doc, a, b, Transform(b, a));
  }

  // ---- Edits that meet ----

  // The second edit falls right after the text the first one left.
  predicate After(o: nat, a: Operation, b: Operation, x: string, end: nat) {
    a.position == o && b.position == o + |Text(a)| && x == Text(a) + Text(b) && end == o + Cut(a) + Cut(b)
  }

  // It falls right before that text.
  predicate Before(o: nat, a: Operation, b: Operation, x: string, end: nat) {
    b.position == o && a.position == o + Cut(b) && x == Text(b) + Text(a) && end == a.position + Cut(a)
  }

  // It replaces all of that text, and perhaps more on either side.
  predicate Over(o: nat, a: Operation, b: Operation, x: string, end: nat) {
    && b.position == o && o <= a.position && a.position + |Text(a)| <= o + Cut(b)
    && x == Text(b) && end == o + Cut(b) + Cut(a) - |Text(a)|
  }

  // What the two leave in place of what lies between o and end.
  predicate Lands(o: nat, a: Operation, b: Operation, x: string, end: nat) {
    After(o, a, b, x, end) || Before(o, a, b, x, end) || Over(o, a, b, x, end)
  }

  lemma {:induction false} WithoutLeft(left: string, s: string, right: string)
    ensures (left + s + right)[|left|..] == s + right
  {
  }

  lemma {:induction false} Associates(a: string, b: string, c: string, d: string)
    ensures a + b + (c + d) == a + (b + c) + d
  {
  }

  ghost predicate TwoSplices(doc: string, a: Operation, b: Operation, u: string, v: string) {
    && InBounds(a, |doc|) && u == Mid(doc, a.position, Text(a), a.position + Cut(a))
    && |u| == |doc| - Cut(a) + |Text(a)|
    && InBounds(b, |u|) && v == Mid(u, b.position, Text(b), b.position + Cut(b))
  }

  lemma {:induction false} LandsAfter(doc: string, o: nat, a: Operation, b: Operation, x: string, end: nat,
                                      u: string, v: string)
    requires TwoSplices(doc, a, b, u, v) && After(o, a, b, x, end)
    ensures o <= end <= |doc| && v == Mid(doc, o, x, end)
  {
    assert u[..b.position] == doc[..o] + Text(a) && u[b.position + Cut(b)..] == doc[end..];
  }

  lemma {:induction false} LandsBefore(doc: string, o: nat, a: Operation, b: Operation, x: string, end: nat,
                                      u: string, v: string)
    requires TwoSplices(doc, a, b, u, v) && Before(o, a, b, x, end)
    ensures o <= end <= |doc| && v == Mid(doc, o, x, end)
  {
    assert u[..o] == doc[..o];
    WithoutLeft(doc[..a.position], Text(a), doc[end..]);
    Associates(doc[..o], Text(b), Text(a), doc[end..]);
  }

  lemma {:induction false} LandsOver(doc: string, o: nat, a: Operation, b: Operation, x: string, end: nat,
                                      u: string, v: string)
    requires TwoSplices(doc, a, b, u, v) && Over(o, a, b, x, end)
    ensures o <= end <= |doc| && v == Mid(doc, o, x, end)
  {
    assert u[..o] == doc[..o] && u[o + Cut(b)..] == doc[end..];
  }

  lemma {:induction false} Landed(doc: string, o: nat, a: Operation, b: Operation, x: string, end: nat)
    requires InBounds(a, |doc|) && InBounds(b, |doc| - Cut(a) + |Text(a)|) && Lands(o, a, b, x, end)
    ensures o <= end <= |doc| && Apply(Apply(doc, a), b) == Mid(doc, o, x, end)
  {
    var u, v := Apply(doc, a), Apply(Apply(doc, a), b);
    ApplyLength(doc, a);
    ApplyIs(doc, a);
    ApplyIs(u, b);
    if After(o, a, b, x, end) {
      LandsAfter(doc, o, a, b, x, end, u, v);
    } else if Before(o, a, b, x, end) {
      LandsBefore(doc, o, a, b, x, end, u, v);
    } else {
      LandsOver(doc, o, a, b, x, end, u, v);
    }
  }

  lemma {:induction false} ApplyLength(doc: string, op: Operation)
    requires InBounds(op, |doc|)
    ensures |Apply(doc, op)| == |doc| - Cut(op) + |Text(op)|
  {
  }

  lemma {:induction false} MeetIff(doc: string, o: nat, a: Operation, b: Operation, a': Operation, b': Operation,
                                   x: string, y: string, end: nat)
    requires InBounds(a, |doc|) && InBounds(b', |doc| - Cut(a) + |Text(a)|) && Lands(o, a, b', x, end)
    requires InBounds(b, |doc|) && InBounds(a', |doc| - Cut(b) + |Text(b)|) && Lands(o, b, a', y, end)
    requires a' == Transform(a, b) && b' == Transform(b, a)
    ensures Converges(doc, a, b) <==> x == y
  {
    Landed(doc, o, a, b', x, end);
    Landed(doc, o, b, a', y, end);
    MidIff(doc, o, x, y, end);
  }

  lemma {:induction false} Blank(s: string)
    ensures s + "" == s == "" + s
  {
  }

  lemma {:induction false} InsertsIff(doc: string, p: nat, s: string, t: string)
    requires p <= |doc|
    ensures Converges(doc, Insert(p, s), Insert(p, t)) <==> Commute(s, t)
  {
    MeetIff(doc, p, Insert(p, s), Insert(p, t), Insert(p + |t|, s), Insert(p + |s|, t), s + t, t + s, p);
  }

  lemma {:induction false} InsertDeleteIff(doc: string, p: nat, s: string, q: nat, n: nat)
    requires q + n <= |doc| && (p == q || q < p < q + n)
    ensures Converges(doc, Insert(p, s), Delete(q, n)) <==> (q < p < q + n ==> s == "")
  {
    Blank(s);
    if p == q {
      MeetIff(doc, q, Insert(p, s), Delete(q, n), Insert(q, s), Delete(q + |s|, n), s, s, q + n);
    } else {
      MeetIff(doc, q, Insert(p, s), Delete(q, n), Insert(q, s), Delete(q, n + |s|), "", s, q + n);
    }
  }

  lemma {:induction false} InsertAtReplaceIff(doc: string, s: string, q: nat, n: nat, t: string)
    requires q + n <= |doc|
    ensures Converges(doc, Insert(q, s), Replace(q, n, t)) <==> Commute(s, t)
  {
    MeetIff(doc, q, Insert(q, s), Replace(q, n, t), Insert(q + |t|, s), Replace(q + |s|, n, t), s + t, t + s, q + n);
  }

  lemma {:induction false} InsertInReplaceIff(doc: string, p: nat, s: string, q: nat, n: nat, t: string)
    requires q < p < q + n <= |doc|
    ensures Converges(doc, Insert(p, s), Replace(q, n, t)) <==> s == ""
  {
    MeetIff(doc, q, Insert(p, s), Replace(q, n, t), Insert(q + |t|, s), Replace(q, n + |s|, t), t, t + s, q + n);
    OnlyEmpty(t, s);
  }

  // A text followed by another is the first one only if the other is empty.
  lemma {:induction false} OnlyEmpty(s: string, t: string)
    ensures s + t == s <==> t == ""
  {
    assert |s + t| == |s| + |t|;
  }

  // ---- A deletion meets a replacement ----

  // q < p: the deletion starts first.
  lemma {:induction false} DeleteFirstIff(doc: string, q: nat, n: nat, p: nat, m: nat, t: string)
    requires q < p < q + n <= |doc| && p + m <= |doc|
    ensures Converges(doc, Delete(q, n), Replace(p, m, t)) <==> t == "" || p + m < q + n
  {
    var a, b := Delete(q, n), Replace(p, m, t);
    Blank(t);
    if p + m < q + n {
      MeetIff(doc, q, a, b, Delete(q, n - m + |t|), Replace(q, 0, ""), "", "", q + n);
    } else {
      var left := if p + m == q + n then "" else Drop(t, q + n - p);
      Blank(left);
      MeetIff(doc, q, a, b, Delete(q, p - q), Replace(q, p + m - (q + n), left), left, t, p + m);
    }
  }

  // q == p and the overlap is not empty.
  lemma {:induction false} DeleteAtIff(doc: string, q: nat, n: nat, m: nat, t: string)
    requires q + n <= |doc| && q + m <= |doc| && n > 0 && m > 0
    ensures Converges(doc, Delete(q, n), Replace(q, m, t)) <==> t == ""
  {
    var a, b := Delete(q, n), Replace(q, m, t);
    Blank(t);
    if m <= n {
      MeetIff(doc, q, a, b, Delete(q + |t|, n - m), Replace(q, 0, ""), "", t, q + n);
    } else {
      Blank(Drop(t, n));
      MeetIff(doc, q, a, b, Delete(q + |t|, 0), Replace(q, m - n, Drop(t, n)), Drop(t, n), t, q + m);
    }
  }

  // p < q: the replacement starts first and the deletion reaches its end.
  lemma {:induction false} ReplaceThenDeleteIff(doc: string, q: nat, n: nat, p: nat, m: nat, t: string)
    requires p < q < p + m <= q + n <= |doc|
    ensures Converges(doc, Delete(q, n), Replace(p, m, t)) <==> |t| <= q - p
  {
    var kept := Take(t, q - p);
    Blank(t);
    Blank(kept);
    var a', b' := Delete(p + |t|, q + n - (p + m)), Replace(p, q - p, kept);
    MeetIff(doc, p, Delete(q, n), Replace(p, m, t), a', b', kept, t, q + n);
  }

  // The deletion lies inside the replaced text and stops short of its end.
  lemma {:induction false} ReplaceAroundDeleteIff(doc: string, q: nat, n: nat, p: nat, m: nat, t: string)
    requires p < q && q + n < p + m <= |doc|
    ensures Converges(doc, Delete(q, n), Replace(p, m, t)) <==> n == 0 || |t| <= q - p
  {
    var kept := Without(t, q - p, n);
    SplitIff(t, q - p, n, kept);
    ReplaceAroundDeleteMeets(doc, Delete(q, n), Replace(p, m, t), kept);
  }

  lemma {:induction false} ReplaceAroundDeleteMeets(doc: string, a: Operation, b: Operation, kept: string)
    requires a.Delete? && b.Replace? && InBounds(b, |doc|)
    requires b.position < a.position && a.position + a.length < b.position + b.length
    requires kept == Without(b.text, a.position - b.position, a.length)
    ensures Converges(doc, a, b) <==> kept == b.text
  {
    var a', b' := Delete(b.position + |b.text|, 0), Replace(b.position, b.length - a.length, kept);
    Blank(b.text);
    ReplaceAroundDeleteTransforms(a, b, a', b', kept);
    MeetIff(doc, b.position, a, b, a', b', kept, b.text, b.position + b.length);
  }

  lemma {:induction false} ReplaceAroundDeleteTransforms(a: Operation, b: Operation, a': Operation, b': Operation,
                                                         kept: string)
    requires a.Delete? && b.Replace? && b.position < a.position && a.position + a.length < b.position + b.length
    requires kept == Without(b.text, a.position - b.position, a.length)
    requires a' == Delete(b.position + |b.text|, 0) && b' == Replace(b.position, b.length - a.length, kept)
    ensures a' == Transform(a, b) && b' == Transform(b, a)
  {
  }

  // A text without n characters at i.
  function Without(t: string, i: nat, n: nat): string { Take(t, i) + Drop(t, i + n) }

  // Leaving out n characters at i leaves the text alone only if there is nothing there to leave out.
  lemma {:induction false} SplitIff(t: string, i: nat, n: nat, kept: string)
    requires kept == Without(t, i, n)
    ensures kept == t <==> n == 0 || |t| <= i
  {
    assert |kept| == |Take(t, i)| + |Drop(t, i + n)|;
  }

  lemma {:induction false} DeleteReplaceIff(doc: string, q: nat, n: nat, p: nat, m: nat, t: string)
    requires q + n <= |doc| && p + m <= |doc|
    ensures Converges(doc, Delete(q, n), Replace(p, m, t)) <==> DeleteAgrees(q, n, p, m, t)
  {
    if q < p {
      if q + n <= p {
        ApartConverge(doc, Delete(q, n), Replace(p, m, t));
      } else {
        DeleteFirstIff(doc, q, n, p, m, t);
      }
    } else if p < q {
      if p + m <= q {
        ApartConverge(doc, Replace(p, m, t), Delete(q, n));
      } else {
        if q + n < p + m {
          ReplaceAroundDeleteIff(doc, q, n, p, m, t);
        } else {
          ReplaceThenDeleteIff(doc, q, n, p, m, t);
        }
      }
    } else if n == 0 || m == 0 {
      DeleteBesideIff(doc, q, n, m, t);
    } else {
      DeleteAtIff(doc, q, n, m, t);
    }
  }

  // One of the two covers nothing, at the same position.
  lemma {:induction false} DeleteBesideIff(doc: string, q: nat, n: nat, m: nat, t: string)
    requires q + n <= |doc| && q + m <= |doc| && (n == 0 || m == 0)
    ensures Converges(doc, Delete(q, n), Replace(q, m, t))
  {
    var a, b := Delete(q, n), Replace(q, m, t);
    Blank(t);
    MeetIff(doc, q, a, b, Delete(q + |t|, n), Replace(q, m, t), t, t, q + n + m);
  }

  // ---- Two replacements meet ----

  // The second one reaches to the first one's end or past it.
  lemma {:induction false} ReplaceThenReplaceIff(doc: string, p: nat, m: nat, s: string, q: nat, n: nat, t: string)
    requires p < q < p + m <= q + n <= |doc|
    ensures Converges(doc, Replace(p, m, s), Replace(q, n, t)) <==> ReplaceAgrees(p, m, s, q, n, t)
  {
    var a, b := Replace(p, m, s), Replace(q, n, t);
    var kept, left := Take(s, q - p), if q + n == p + m then "" else Drop(t, p + m - q);
    var a', b' := Replace(p, q - p, kept), Replace(p + |s|, q + n - (p + m), left);
    var x, y := s + left, kept + t;
    ReplaceThenReplaceTransforms(a, b, a', b', kept, left);
    MeetIff(doc, p, a, b, a', b', x, y, q + n);
    ReplaceThenReplaceAgrees(p, m, s, q, n, t, x, y);
  }

  lemma {:induction false} ReplaceThenReplaceAgrees(p: nat, m: nat, s: string, q: nat, n: nat, t: string, x: string,
                                                    y: string)
    requires p < q < p + m <= q + n
    requires x == s + (if q + n == p + m then "" else Drop(t, p + m - q)) && y == Take(s, q - p) + t
    ensures x == y <==> ReplaceAgrees(p, m, s, q, n, t)
  {
    assert s + "" == s;
  }

  lemma {:induction false} ReplaceThenReplaceTransforms(a: Operation, b: Operation, a': Operation, b': Operation,
                                                        kept: string, left: string)
    requires a.Replace? && b.Replace? && a.position < b.position < a.position + a.length <= b.position + b.length
    requires kept == Take(a.text, b.position - a.position)
    requires left == if b.position + b.length == a.position + a.length then ""
                     else Drop(b.text, a.position + a.length - b.position)
    requires a' == Replace(a.position, b.position - a.position, kept)
    requires b' == Replace(a.position + |a.text|, b.position + b.length - (a.position + a.length), left)
    ensures a' == Transform(a, b) && b' == Transform(b, a)
  {
  }

  lemma {:induction false} ReplaceAroundReplaceIff(doc: string, p: nat, m: nat, s: string, q: nat, n: nat, t: string)
    requires p < q && q + n < p + m <= |doc|
    ensures Converges(doc, Replace(p, m, s), Replace(q, n, t)) <==> n == 0 || |s| <= q - p
  {
    var kept := Without(s, q - p, n);
    SplitIff(s, q - p, n, kept);
    ReplaceAroundReplaceMeets(doc, Replace(p, m, s), Replace(q, n, t), kept);
  }

  lemma {:induction false} ReplaceAroundReplaceMeets(doc: string, a: Operation, b: Operation, kept: string)
    requires a.Replace? && b.Replace? && InBounds(a, |doc|)
    requires a.position < b.position && b.position + b.length < a.position + a.length
    requires kept == Without(a.text, b.position - a.position, b.length)
    ensures Converges(doc, a, b) <==> a.text == kept
  {
    var a', b' := Replace(a.position, a.length - b.length + |b.text|, kept), Replace(a.position + |a.text|, 0, "");
    Blank(a.text);
    ReplaceAroundReplaceTransforms(a, b, a', b', kept);
    MeetIff(doc, a.position, a, b, a', b', a.text, kept, a.position + a.length);
  }

  lemma {:induction false} ReplaceAroundReplaceTransforms(a: Operation, b: Operation, a': Operation, b': Operation,
                                                          kept: string)
    requires a.Replace? && b.Replace? && a.position < b.position && b.position + b.length < a.position + a.length
    requires kept == Without(a.text, b.position - a.position, b.length)
    requires a' == Replace(a.position, a.length - b.length + |b.text|, kept) &&
             b' == Replace(a.position + |a.text|, 0, "")
    ensures a' == Transform(a, b) && b' == Transform(b, a)
  {
  }

  // At one position, the first replacing at least as much as the second, which replaces something.
  lemma {:induction false} ReplaceOverReplaceIff(doc: string, p: nat, m: nat, s: string, n: nat, t: string)
    requires 0 < n <= m && p + m <= |doc|
    ensures Converges(doc, Replace(p, m, s), Replace(p, n, t)) <==> s == t + (if m == n then "" else Drop(s, n))
  {
    var a, b := Replace(p, m, s), Replace(p, n, t);
    var left := if m == n then "" else Drop(s, n);
    var a', b' := Replace(p + |t|, m - n, left), Replace(p + |s|, 0, "");
    Blank(s);
    ReplaceOverReplaceTransforms(a, b, a', b', left);
    MeetIff(doc, p, a, b, a', b', s, t + left, p + m);
  }

  lemma {:induction false} ReplaceOverReplaceTransforms(a: Operation, b: Operation, a': Operation, b': Operation,
                                                        left: string)
    requires a.Replace? && b.Replace? && a.position == b.position && 0 < b.length <= a.length
    requires left == if a.length == b.length then "" else Drop(a.text, b.length)
    requires a' == Replace(a.position + |b.text|, a.length - b.length, left) &&
             b' == Replace(a.position + |a.text|, 0, "")
    ensures a' == Transform(a, b) && b' == Transform(b, a)
  {
  }

  // At one position, one of them replacing nothing.
  lemma {:induction false} ReplaceBesideReplaceIff(doc: string, p: nat, m: nat, s: string, n: nat, t: string)
    requires (m == 0 || n == 0) && p + m <= |doc| && p + n <= |doc|
    ensures Converges(doc, Replace(p, m, s), Replace(p, n, t)) <==> Commute(s, t)
  {
    var a, b, a', b' := Replace(p, m, s), Replace(p, n, t), Replace(p + |t|, m, s), Replace(p + |s|, n, t);
    MeetIff(doc, p, a, b, a', b', s + t, t + s, p + m + n);
  }

  lemma {:induction false} ReplaceReplaceIff(doc: string, p: nat, m: nat, s: string, q: nat, n: nat, t: string)
    requires p <= q && p + m <= |doc| && q + n <= |doc|
    ensures Converges(doc, Replace(p, m, s), Replace(q, n, t)) <==> ReplaceAgrees(p, m, s, q, n, t)
  {
    var a, b := Replace(p, m, s), Replace(q, n, t);
    if p < q {
      if p + m <= q {
        ApartConverge(doc, a, b);
      } else if q + n < p + m {
        ReplaceAroundReplaceIff(doc, p, m, s, q, n, t);
      } else {
        ReplaceThenReplaceIff(doc, p, m, s, q, n, t);
      }
    } else if m == 0 || n == 0 {
      ReplaceBesideReplaceIff(doc, p, m, s, n, t);
    } else if n <= m {
      ReplaceOverReplaceIff(doc, p, m, s, n, t);
      assert t + "" == t;
    } else {
      ReplaceOverReplaceIff(doc, p, n, t, m, s);
    }
  }

  // ---- All pairs ----

  lemma {:induction false} DeletesConverge(doc: string, a: Operation, b: Operation)
    requires a.Delete? && b.Delete? && InBounds(a, |doc|) && InBounds(b, |doc|)
    ensures Converges(doc, a, b)
  {
    Convergence.PairConverges(doc, a, b);
  }

  /** Two replicas that exchange one edit each end with one document exactly when the edits agree. */
  lemma {:induction false} ConvergesIff(doc: string, a: Operation, b: Operation)
    requires InBounds(a, |doc|) && InBounds(b, |doc|)
    ensures Converges(doc, a, b) <==> Agree(a, b)
  {
    if a.Delete? && b.Delete? {
      DeletesConverge(doc, a, b);
    } else if a.Delete? && b.Replace? {
      DeleteReplaceIff(doc, a.position, a.length, b.position, b.length, b.text);
    } else if a.Replace? && b.Delete? {
      DeleteReplaceIff(doc, b.position, b.length, a.position, a.length, a.text);
    } else if a.Replace? && b.Replace? {
      if a.position <= b.position {
        ReplaceReplaceIff(doc, a.position, a.length, a.text, b.position, b.length, b.text);
      } else {
        ReplaceReplaceIff(doc, b.position, b.length, b.text, a.position, a.length, a.text);
      }
    } else if a.Insert? {
      InsertIff(doc, a, b);
    } else {
      InsertIff(doc, b, a);
    }
  }

  lemma {:induction false} InsertIff(doc: string, a: Operation, b: Operation)
    requires InBounds(a, |doc|) && InBounds(b, |doc|) && a.Insert?
    ensures Converges(doc, a, b) <==> Agree(a, b)
  {
    if a.position < b.position {
      ApartConverge(doc, a, b);
    } else if b.position < a.position && b.position + Cut(b) <= a.position {
      ApartConverge(doc, b, a);
    } else {
      match b
      case Insert(_, t) => InsertsIff(doc, a.position, a.text, t);
      case Delete(q, n) => InsertDeleteIff(doc, a.position, a.text, q, n);
      case Replace(q, n, t) =>
        if a.position == q {
          InsertAtReplaceIff(doc, a.text, q, n, t);
        } else {
          InsertInReplaceIff(doc, a.position, a.text, q, n, t);
        }
    }
  }

  // A position past the end breaks convergence for edits that agree, so the bounds are needed.
  lemma {:induction false} OutOfBoundsDiverges()
    ensures var a, b := Insert(5, "x"), Insert(7, "y");
            Agree(a, b) && !Converges("ab", a, b)
  {
    var a, b := Insert(5, "x"), Insert(7, "y");
    assert Apply(Apply("ab", a), Transform(b, a)) == "abxy";
    assert Apply(Apply("ab", b), Transform(a, b)) == "abyx";
  }
}

/**
 * The aggregator executes commands in the order of their positions, though each was issued for the text
 * the ones before it leave. When the two orders come to the same.
 */
module ArrivalOrder {
  import opened AggregationGroups
  import opened AggregationMeaning
  import opened Bounds
  import opened CommandAggregator
  import opened OperationalTransform
  import opened Options
  import opened Slices

  // ---- Edits, character by character ----

  predicate TextEdit(op: Operation) { !op.Replace? }

  function Typed(text: string, p: nat, s: string): string {
    if p == 0 || text == "" then s + text else [text[0]] + Typed(text[1..], p - 1, s)
  }

  function Without(text: string, p: nat, n: nat): string {
    if text == "" then ""
    else if p > 0 then [text[0]] + Without(text[1..], p - 1, n)
    else if n > 0 then Without(text[1..], 0, n - 1)
    else text
  }

  function Edited(text: string, op: Operation): string
    requires TextEdit(op)
  {
    match op
    case Insert(p, s) => Typed(text, p, s)
    case Delete(p, n) => Without(text, p, n)
  }

  // s.slice(i, j)
  function Between(s: string, i: nat, j: nat): string {
    if s == "" || j == 0 then ""
    else if i > 0 then Between(s[1..], i - 1, j - 1)
    else [s[0]] + Between(s[1..], 0, j - 1)
  }

  lemma {:induction false} Headed(c: char, rest: string)
    ensures [c] + rest != "" && ([c] + rest)[0] == c && ([c] + rest)[1..] == rest
  {
  }

  lemma {:induction false} Regroup(a: string, b: string, c: string)
    ensures a + (b + c) == (a + b) + c
  {
  }

  lemma {:induction false} FrontAndRest(text: string, k: nat)
    ensures text == Between(text, 0, k) + Without(text, 0, k)
    ensures |Between(text, 0, k)| <= k && (|Between(text, 0, k)| < k ==> Without(text, 0, k) == "")
    decreases |text|
  {
    if text != "" && k > 0 {
      FrontAndRest(text[1..], k - 1);
      Regroup([text[0]], Between(text[1..], 0, k - 1), Without(text[1..], 0, k - 1));
    }
  }

  lemma {:induction false} TypedIs(text: string, p: nat, s: string)
    ensures Typed(text, p, s) == Between(text, 0, p) + s + Without(text, 0, p)
    decreases |text|
  {
    if p == 0 || text == "" {
      assert "" + s == s;
    } else {
      var front, rest := Between(text[1..], 0, p - 1), Without(text[1..], 0, p - 1);
      TypedIs(text[1..], p - 1, s);
      Regroup([text[0]], front + s, rest);
      Regroup([text[0]], front, s);
    }
  }

  lemma {:induction false} WithoutIs(text: string, p: nat, n: nat)
    ensures Without(text, p, n) == Between(text, 0, p) + Without(text, 0, p + n)
    decreases |text|
  {
    if p == 0 || text == "" {
      assert "" + Without(text, 0, n) == Without(text, 0, n);
    } else {
      WithoutIs(text[1..], p - 1, n);
      Regroup([text[0]], Between(text[1..], 0, p - 1), Without(text[1..], 0, p - 1 + n));
    }
  }

  lemma {:induction false} AsSlices(text: string, n: nat)
    ensures Between(text, 0, n) == Take(text, n) && Without(text, 0, n) == Drop(text, n)
  {
    var front, rest := Between(text, 0, n), Without(text, 0, n);
    FrontAndRest(text, n);
    if |front| == n {
      assert text[..n] == front && text[n..] == rest;
    } else {
      assert front + "" == front;
    }
  }

  // Character by character an edit comes to what its execution comes to.
  lemma {:induction false} EditedIsApplied(text: string, op: Operation)
    requires TextEdit(op)
    ensures Edited(text, op) == Apply(text, op)
  {
    AsSlices(text, op.position);
    match op
    case Insert(p, s) => TypedIs(text, p, s);
    case Delete(p, n) =>
      WithoutIs(text, p, n);
      AsSlices(text, p + n);
  }

  // ---- Behind a text ----

  lemma {:induction false} TypedBehind(l: string, text: string, p: nat, s: string)
    ensures Typed(l + text, |l| + p, s) == l + Typed(text, p, s)
    decreases |l|
  {
    if l == "" {
      assert l + text == text;
    } else {
      assert (l + text)[1..] == l[1..] + text;
      TypedBehind(l[1..], text, p, s);
    }
  }

  lemma {:induction false} TypedAtEnd(text: string, p: nat, s: string)
    requires |text| <= p
    ensures Typed(text, p, s) == text + s
  {
    TypedBehind(text, "", p - |text|, s);
    assert text + "" == text && s + "" == s;
  }

  lemma {:induction false} WithoutBehind(l: string, text: string, p: nat, n: nat)
    ensures Without(l + text, |l| + p, n) == l + Without(text, p, n)
    decreases |l|
  {
    if l == "" {
      assert l + text == text;
    } else {
      assert (l + text)[1..] == l[1..] + text;
      WithoutBehind(l[1..], text, p, n);
    }
  }

  lemma {:induction false} WithoutPastEnd(text: string, p: nat, n: nat)
    requires |text| <= p
    ensures Without(text, p, n) == text
  {
    WithoutBehind(text, "", p - |text|, n);
    assert text + "" == text;
  }

  // ---- An edit, then one no further up ----

  lemma {:induction false} DeleteThenInsert(text: string, p: nat, n: nat, q: nat, u: string)
    requires q <= p
    ensures Typed(Without(text, p, n), q, u) == Without(Typed(text, q, u), p + |u|, n)
    decreases |text|
  {
    if q == 0 || text == "" {
      WithoutBehind(u, text, p, n);
    } else {
      DeleteThenInsert(text[1..], p - 1, n, q - 1, u);
      Headed(text[0], Without(text[1..], p - 1, n));
      Headed(text[0], Typed(text[1..], q - 1, u));
    }
  }

  lemma {:induction false} WithoutMore(text: string, n: nat, m: nat)
    ensures Without(Without(text, 0, n), 0, m) == Without(text, 0, n + m)
    decreases |text|
  {
    if text != "" && n > 0 {
      WithoutMore(text[1..], n - 1, m);
    }
  }

  // The second deletion starts at the start of the text.
  lemma {:induction false} DeleteThenFront(text: string, p: nat, n: nat, m: nat)
    ensures Without(Without(text, p, n), 0, m) == Without(Without(text, 0, m), Max(0, p - m), n)
    decreases |text|
  {
    if p == 0 {
      WithoutMore(text, n, m);
      WithoutMore(text, m, n);
    } else if text != "" && m > 0 {
      DeleteThenFront(text[1..], p - 1, n, m - 1);
      Headed(text[0], Without(text[1..], p - 1, n));
    }
  }

  lemma {:induction false} DeleteThenDelete(text: string, p: nat, n: nat, q: nat, m: nat)
    requires q <= p
    ensures Without(Without(text, p, n), q, m) == Without(Without(text, q, m), q + Max(0, p - q - m), n)
    decreases |text|
  {
    if q == 0 {
      DeleteThenFront(text, p, n, m);
    } else if text != "" {
      DeleteThenDelete(text[1..], p - 1, n, q - 1, m);
      Headed(text[0], Without(text[1..], p - 1, n));
      Headed(text[0], Without(text[1..], q - 1, m));
    }
  }

  lemma {:induction false} InsertThenInsert(text: string, p: nat, s: string, q: nat, u: string)
    requires q <= p && q <= |text|
    ensures Typed(Typed(text, p, s), q, u) == Typed(Typed(text, q, u), p + |u|, s)
    decreases |text|
  {
    if q == 0 {
      TypedBehind(u, text, p, s);
    } else {
      InsertThenInsert(text[1..], p - 1, s, q - 1, u);
      Headed(text[0], Typed(text[1..], p - 1, s));
      Headed(text[0], Typed(text[1..], q - 1, u));
    }
  }

  // What a deletion of m characters at q leaves of the text s put in at the place at.
  function Left(text: string, at: nat, s: string, q: nat, m: nat): string {
    if q <= at then Without(s + Between(text, at, q + m), 0, Max(0, q + m - at)) else Without(s, q - at, m)
  }

  lemma {:induction false} WithoutSplit(x: string, y: string, k: nat)
    requires k <= |x| || y == ""
    ensures Without(x + y, 0, k) == Without(x, 0, k) + y
    decreases |x|
  {
    if x == "" {
      assert x + y == y && "" + y == y;
    } else if k > 0 {
      assert (x + y)[1..] == x[1..] + y;
      WithoutSplit(x[1..], y, k - 1);
    }
  }

  lemma {:induction false} WithoutPrefix(s: string, text: string, k: nat, front: string, rest: string)
    requires front == Between(text, 0, k) && rest == Without(text, 0, k)
    ensures Without(s + text, 0, k) == Without(s + front, 0, k) + rest
  {
    FrontAndRest(text, k);
    assert s + text == (s + front) + rest;
    WithoutSplit(s + front, rest, k);
  }

  // A deletion from the start of the text on.
  lemma {:induction false} InsertThenDeleteFront(text: string, at: nat, s: string, m: nat)
    requires at <= |text|
    ensures Without(Typed(text, at, s), 0, m)
         == Typed(Without(text, 0, m), Max(0, at - m), Without(s + Between(text, at, m), 0, Max(0, m - at)))
    decreases |text|
  {
    if at == 0 {
      WithoutPrefix(s, text, m, Between(text, 0, m), Without(text, 0, m));
    } else if m > 0 {
      InsertThenDeleteFront(text[1..], at - 1, s, m - 1);
      Headed(text[0], Typed(text[1..], at - 1, s));
    } else {
      assert Between(text, at, 0) == "" && s + "" == s;
    }
  }

  lemma {:induction false} InsertThenDeleteBefore(text: string, at: nat, s: string, q: nat, m: nat)
    requires q <= at <= |text|
    ensures Without(Typed(text, at, s), q, m)
         == Typed(Without(text, q, m), q + Max(0, at - q - m), Left(text, at, s, q, m))
    decreases |text|
  {
    if q == 0 {
      InsertThenDeleteFront(text, at, s, m);
    } else {
      InsertThenDeleteBefore(text[1..], at - 1, s, q - 1, m);
      Headed(text[0], Typed(text[1..], at - 1, s));
      Headed(text[0], Without(text[1..], q - 1, m));
    }
  }

  lemma {:induction false} InsertThenDelete(text: string, p: nat, s: string, q: nat, m: nat, at: nat)
    requires q <= p && at == Min(p, |text|)
    ensures Without(Typed(text, p, s), q, m)
         == Typed(Without(text, q, m), PastDeletion(at, q, m), Left(text, at, s, q, m))
  {
    if p > |text| {
      TypedAtEnd(text, p, s);
      TypedAtEnd(text, |text|, s);
    }
    if q <= at {
      InsertThenDeleteBefore(text, at, s, q, m);
    } else {
      WithoutBehind(text, s, q - at, m);
      WithoutPastEnd(text, q, m);
      TypedAtEnd(text, at, Left(text, at, s, q, m));
    }
  }

  // ---- One edit at two places ----

  lemma {:induction false} SplitBetween(s: string, i: nat, j: nat)
    requires i <= j
    ensures Between(s, 0, j) == Between(s, 0, i) + Between(s, i, j)
    ensures Without(s, 0, i) == Between(s, i, j) + Without(s, 0, j)
    decreases |s|
  {
    if i == 0 || s == "" {
      FrontAndRest(s, j);
      assert "" + Between(s, 0, j) == Between(s, 0, j);
    } else {
      SplitBetween(s[1..], i - 1, j - 1);
      Regroup([s[0]], Between(s[1..], 0, i - 1), Between(s, i, j));
    }
  }

  lemma {:induction false} TypingsAgreeIff(y: string, x: nat, s: string, z: nat, t: string)
    requires x <= z
    ensures Typed(y, x, s) == Typed(y, z, t) <==> s + Between(y, x, z) == Between(y, x, z) + t
  {
    TypedIs(y, x, s);
    TypedIs(y, z, t);
    SplitBetween(y, x, z);
    AroundIff(Between(y, 0, x), Between(y, x, z), Without(y, 0, z), s, t);
  }

  lemma {:induction false} AroundIff(l: string, m: string, r: string, s: string, t: string)
    ensures l + s + (m + r) == (l + m) + t + r <==> s + m == m + t
  {
    assert l + s + (m + r) == l + (s + m) + r;
    assert (l + m) + t + r == l + (m + t) + r;
    PutBack(l, m + t, r, s + m);
  }

  lemma {:induction false} DeletionsAgreeIff(y: string, x: nat, z: nat, n: nat)
    requires x <= z
    ensures Without(y, x, n) == Without(y, z, n) <==> Between(y, x, z) == Between(y, x + n, z + n)
  {
    WithoutIs(y, x, n);
    WithoutIs(y, z, n);
    SplitBetween(y, x, z);
    SplitBetween(y, x + n, z + n);
    KeptIff(Between(y, 0, x), Between(y, x, z), Between(y, x + n, z + n), Without(y, 0, z + n));
  }

  lemma {:induction false} KeptIff(l: string, m: string, k: string, r: string)
    ensures l + (k + r) == (l + m) + r <==> m == k
  {
    Regroup(l, k, r);
    PutBack(l, k, r, m);
  }

  // ---- The two orders ----

  /**
   * When executing b before a comes to the same as after it, b being made further down the text. Told from
   * what b alone makes of the text: the part of it by which a would miss its place must look the same
   * either way, and what b takes of a's own text must not be missed.
   */
  predicate OrderFree(text: string, a: Operation, b: Operation)
    requires TextEdit(a) && TextEdit(b)
  {
    var y := Edited(text, b);
    match (a, b)
    case (Delete(p, n), Insert(_, u)) => Between(y, p, p + |u|) == Between(y, p + n, p + |u| + n)
    case (Delete(p, n), Delete(q, m)) =>
      var x := PastDeletion(p, q, m);
      Between(y, x, p) == Between(y, x + n, p + n)
    case (Insert(p, s), Insert(q, u)) =>
      if q <= |text| then s + Between(y, p, p + |u|) == Between(y, p, p + |u|) + s
      else Typed(s, q - |text|, u) == Typed(u, Max(0, p - |text|), s)
    case (Insert(p, s), Delete(q, m)) =>
      var at := Min(p, |text|);
      var missed := Between(y, PastDeletion(at, q, m), p);
      Left(text, at, s, q, m) + missed == missed + s
  }

  lemma {:induction false} BothPastEndIff(text: string, p: nat, s: string, q: nat, u: string)
    requires |text| < q <= p
    ensures Typed(Typed(text, p, s), q, u) == Typed(Typed(text, q, u), p, s)
       <==> Typed(s, q - |text|, u) == Typed(u, p - |text|, s)
  {
    TypedAtEnd(text, p, s);
    TypedAtEnd(text, q, u);
    TypedBehind(text, s, q - |text|, u);
    TypedBehind(text, u, p - |text|, s);
    SameEndsIff(text, Typed(s, q - |text|, u), Typed(u, p - |text|, s));
  }

  lemma {:induction false} SameEndsIff(text: string, x: string, z: string)
    ensures text + x == text + z <==> x == z
  {
    assert (text + x)[|text|..] == x && (text + z)[|text|..] == z;
  }

  lemma {:induction false} CutPutOrderIff(text: string, p: nat, n: nat, q: nat, u: string, y: string)
    requires q < p && y == Typed(text, q, u)
    ensures Typed(Without(text, p, n), q, u) == Without(y, p, n) <==> OrderFree(text, Delete(p, n), Insert(q, u))
  {
    DeleteThenInsert(text, p, n, q, u);
    DeletionsAgreeIff(y, p, p + |u|, n);
  }

  lemma {:induction false} CutCutOrderIff(text: string, p: nat, n: nat, q: nat, m: nat, y: string)
    requires q < p && y == Without(text, q, m)
    ensures Without(Without(text, p, n), q, m) == Without(y, p, n) <==> OrderFree(text, Delete(p, n), Delete(q, m))
  {
    DeleteThenDelete(text, p, n, q, m);
    DeletionsAgreeIff(y, PastDeletion(p, q, m), p, n);
  }

  lemma {:induction false} PutPutOrderIff(text: string, p: nat, s: string, q: nat, u: string, y: string)
    requires q < p && y == Typed(text, q, u)
    ensures Typed(Typed(text, p, s), q, u) == Typed(y, p, s) <==> OrderFree(text, Insert(p, s), Insert(q, u))
  {
    if q <= |text| {
      InsertThenInsert(text, p, s, q, u);
      TypingsAgreeIff(y, p, s, p + |u|, s);
    } else {
      BothPastEndIff(text, p, s, q, u);
    }
  }

  lemma {:induction false} PutCutOrderIff(text: string, p: nat, s: string, q: nat, m: nat, y: string)
    requires q < p && y == Without(text, q, m)
    ensures Without(Typed(text, p, s), q, m) == Typed(y, p, s) <==> OrderFree(text, Insert(p, s), Delete(q, m))
  {
    var at := Min(p, |text|);
    InsertThenDelete(text, p, s, q, m, at);
    TypingsAgreeIff(y, PastDeletion(at, q, m), Left(text, at, s, q, m), p, s);
  }

  /** For every text and two edits, the second further down: the exact condition for their order not to matter. */
  lemma {:induction false} OrderIff(text: string, a: Operation, b: Operation)
    requires TextEdit(a) && TextEdit(b) && b.position < a.position
    ensures Edited(Edited(text, a), b) == Edited(Edited(text, b), a) <==> OrderFree(text, a, b)
  {
    match (a, b)
    case (Delete(p, n), Insert(q, u)) => CutPutOrderIff(text, p, n, q, u, Typed(text, q, u));
    case (Delete(p, n), Delete(q, m)) => CutCutOrderIff(text, p, n, q, m, Without(text, q, m));
    case (Insert(p, s), Insert(q, u)) => PutPutOrderIff(text, p, s, q, u, Typed(text, q, u));
    case (Insert(p, s), Delete(q, m)) => PutCutOrderIff(text, p, s, q, m, Without(text, q, m));
  }

  // ---- Every text ----

  // It takes nothing away and puts nothing in.
  predicate Idle(op: Operation) { Cut(op) == 0 && Text(op) == "" }

  lemma {:induction false} IdleKeeps(text: string, op: Operation)
    requires TextEdit(op) && Idle(op)
    ensures Edited(text, op) == text
  {
    FrontAndRest(text, op.position);
    match op
    case Insert(p, s) =>
      TypedIs(text, p, s);
      assert Between(text, 0, p) + "" == Between(text, 0, p);
    case Delete(p, n) => WithoutIs(text, p, n);
  }

  function Same(c: char, n: nat): (s: string)
    ensures |s| == n && forall i :: 0 <= i < n ==> s[i] == c
  {
    seq(n, _ => c)
  }

  function Last(s: string): char
    requires s != ""
  {
    s[|s| - 1]
  }

  function OtherThan(c: char): char { if c == 'x' then 'y' else 'x' }

  lemma {:induction false} TypedLength(text: string, p: nat, s: string)
    ensures |Typed(text, p, s)| == |text| + |s|
    decreases |text|
  {
    if p > 0 && text != "" {
      TypedLength(text[1..], p - 1, s);
    }
  }

  lemma {:induction false} WithoutLength(text: string, p: nat, n: nat)
    ensures |Without(text, p, n)| == |text| - Min(n, Max(0, |text| - p))
    decreases |text|
  {
    if text != "" && p > 0 {
      WithoutLength(text[1..], p - 1, n);
    } else if text != "" && n > 0 {
      WithoutLength(text[1..], 0, n - 1);
    }
  }

  lemma {:induction false} LastOfJoined(x: string, y: string)
    requires y != ""
    ensures x + y != "" && Last(x + y) == Last(y)
  {
  }

  lemma {:induction false} LastOfRest(text: string, n: nat)
    requires n < |text|
    ensures Without(text, 0, n) != "" && Last(Without(text, 0, n)) == Last(text)
  {
    FrontAndRest(text, n);
    LastOfJoined(Between(text, 0, n), Without(text, 0, n));
  }

  lemma {:induction false} LastOfTyped(text: string, p: nat, s: string)
    requires p < |text|
    ensures Typed(text, p, s) != "" && Last(Typed(text, p, s)) == Last(text)
  {
    TypedIs(text, p, s);
    LastOfRest(text, p);
    LastOfJoined(Between(text, 0, p) + s, Without(text, 0, p));
  }

  lemma {:induction false} LastOfWithout(text: string, p: nat, n: nat)
    requires p + n < |text|
    ensures Without(text, p, n) != "" && Last(Without(text, p, n)) == Last(text)
  {
    WithoutIs(text, p, n);
    LastOfRest(text, p + n);
    LastOfJoined(Between(text, 0, p), Without(text, 0, p + n));
  }

  lemma {:induction false} CutPutDiffer(text: string, p: nat, n: nat, q: nat, u: string)
    requires q < p == |text| && n > 0 && u != ""
    ensures Typed(Without(text, p, n), q, u) != Without(Typed(text, q, u), p, n)
  {
    WithoutPastEnd(text, p, n);
    TypedLength(text, q, u);
    WithoutLength(Typed(text, q, u), p, n);
  }

  lemma {:induction false} CutCutDiffer(text: string, p: nat, n: nat, q: nat, m: nat)
    requires q < p && |text| == p + m && n > 0 && m > 0
    ensures Without(Without(text, p, n), q, m) != Without(Without(text, q, m), p, n)
  {
    WithoutLength(text, p, n);
    WithoutLength(text, q, m);
    WithoutLength(Without(text, p, n), q, m);
    WithoutPastEnd(Without(text, q, m), p, n);
  }

  lemma {:induction false} PutPutDiffer(text: string, p: nat, s: string, q: nat, u: string)
    requires q < p == |text| && s != "" && u != "" && Last(text) != Last(s)
    ensures Typed(Typed(text, p, s), q, u) != Typed(Typed(text, q, u), p, s)
  {
    TypedAtEnd(text, p, s);
    LastOfJoined(text, s);
    LastOfTyped(text + s, q, u);
    TypedLength(text, q, u);
    LastOfTyped(text, q, u);
    LastOfTyped(Typed(text, q, u), p, s);
  }

  lemma {:induction false} PutCutDiffer(text: string, p: nat, s: string, q: nat, m: nat)
    requires q < p && |text| == p + m && s != "" && m > 0 && Last(text) != Last(s)
    ensures Without(Typed(text, p, s), q, m) != Typed(Without(text, q, m), p, s)
  {
    TypedLength(text, p, s);
    LastOfTyped(text, p, s);
    LastOfWithout(Typed(text, p, s), q, m);
    WithoutLength(text, q, m);
    TypedAtEnd(Without(text, q, m), p, s);
    LastOfJoined(Without(text, q, m), s);
  }

  // A text on which the order of two edits that both do something shows.
  lemma {:induction false} OrderShows(a: Operation, b: Operation) returns (text: string)
    requires TextEdit(a) && TextEdit(b) && b.position < a.position && !Idle(a) && !Idle(b)
    ensures Edited(Edited(text, a), b) != Edited(Edited(text, b), a)
  {
    var c := if a.Insert? then OtherThan(Last(a.text)) else 'x';
    text := Same(c, a.position + Cut(b));
    match (a, b)
    case (Delete(p, n), Insert(q, u)) => CutPutDiffer(text, p, n, q, u);
    case (Delete(p, n), Delete(q, m)) => CutCutDiffer(text, p, n, q, m);
    case (Insert(p, s), Insert(q, u)) => PutPutDiffer(text, p, s, q, u);
    case (Insert(p, s), Delete(q, m)) => PutCutDiffer(text, p, s, q, m);
  }

  /** On every text alike the order does not matter exactly when one of the two edits does nothing. */
  lemma {:induction false} OrderForAllIff(a: Operation, b: Operation)
    requires TextEdit(a) && TextEdit(b) && b.position < a.position
    ensures (forall text: string :: Edited(Edited(text, a), b) == Edited(Edited(text, b), a)) <==> Idle(a) || Idle(b)
  {
    if Idle(a) || Idle(b) {
      forall text: string ensures Edited(Edited(text, a), b) == Edited(Edited(text, b), a) {
        var idle, other := if Idle(a) then a else b, if Idle(a) then b else a;
        IdleKeeps(text, idle);
        IdleKeeps(Edited(text, other), idle);
      }
    } else {
      var text := OrderShows(a, b);
    }
  }

  // ---- Entries ----

  lemma {:induction false} PairSorted(a: Entry, b: Entry)
    ensures Sorted([a, b], false) == if Position(a) <= Position(b) then [a, b] else [b, a]
  {
    assert [a, b][1..] == [b] && [b][1..] == [];
    assert Sorted([b], false) == Placed(b, [], false) == [b];
    assert Placed(a, [b], false) == if Position(a) <= Position(b) then [a, b] else [b] + Placed(a, [b][1..], false);
  }

  lemma {:induction false} PairExecuted(text: string, a: Entry, b: Entry)
    requires !a.command.Other? && !b.command.Other?
    ensures Executed(text, [a, b], 2) == Edited(Edited(text, AsOperation(a)), AsOperation(b))
  {
    assert Executed(text, [a, b], 0) == text;
    assert Executed(text, [a, b], 1) == Apply(text, AsOperation(a));
    EditedIsApplied(text, AsOperation(a));
    EditedIsApplied(Edited(text, AsOperation(a)), AsOperation(b));
  }

  // Executing commands in position order comes to the same as executing them as they were issued.
  predicate ArrivalKept(text: string, entries: seq<Entry>)
    requires TextEdits(entries)
  {
    var sorted := Sorted(entries, false);
    assert forall i :: 0 <= i < |sorted| ==> sorted[i] in sorted;
    Executed(text, entries, |entries|) == Executed(text, sorted, |entries|)
  }

  lemma {:induction false} PairKept(text: string, a: Entry, b: Entry)
    requires !a.command.Other? && !b.command.Other? && Position(b) < Position(a)
    ensures ArrivalKept(text, [a, b])
       <==> Edited(Edited(text, AsOperation(a)), AsOperation(b)) == Edited(Edited(text, AsOperation(b)), AsOperation(a))
  {
    PairSorted(a, b);
    PairExecuted(text, a, b);
    PairExecuted(text, b, a);
  }

  /**
   * Two commands, a issued before b: position order does to a text what the order of arrival does exactly
   * when they came in position order, or their order does not matter there.
   */
  lemma {:induction false} ArrivalKeptIff(text: string, a: Entry, b: Entry)
    requires !a.command.Other? && !b.command.Other?
    ensures ArrivalKept(text, [a, b])
       <==> Position(a) <= Position(b) || OrderFree(text, AsOperation(a), AsOperation(b))
  {
    if Position(b) < Position(a) {
      PairKept(text, a, b);
      OrderIff(text, AsOperation(a), AsOperation(b));
    } else {
      PairSorted(a, b);
    }
  }

  /** On every text alike exactly when they came in position order or one of them does nothing. */
  lemma {:induction false} ArrivalKeptForAllIff(a: Entry, b: Entry)
    requires !a.command.Other? && !b.command.Other?
    ensures (forall text: string :: ArrivalKept(text, [a, b]))
       <==> Position(a) <= Position(b) || Idle(AsOperation(a)) || Idle(AsOperation(b))
  {
    if Position(b) < Position(a) {
      var x, y := AsOperation(a), AsOperation(b);
      OrderForAllIff(x, y);
      forall text: string
        ensures ArrivalKept(text, [a, b]) <==> Edited(Edited(text, x), y) == Edited(Edited(text, y), x)
      {
        PairKept(text, a, b);
      }
    } else {
      PairSorted(a, b);
    }
  }

  // Two insertions issued one after the other, the second further down, are not merged but change places.
  lemma {:induction false} LaterComesFirst(a: Entry, b: Entry, document: string, user: string)
    requires a == Entry(0, InsertText(document, user, 5, "x"), None)
    requires b == Entry(1, InsertText(document, user, 0, "y"), None)
    ensures Aggregated([a, b], 3) == [Aggregation(None, [b]), Aggregation(None, [a])]
    ensures Executed("abcde", [a, b], 2) == "yabcdex" && Executed("abcde", [b, a], 2) == "yabcdxe"
  {
    PairSorted(a, b);
    ApartResults(b, a);
    PairExecuted("abcde", a, b);
    PairExecuted("abcde", b, a);
    TextsDiffer();
  }

  lemma {:induction false} TextsDiffer()
    ensures Typed(Typed("abcde", 5, "x"), 0, "y") == "yabcdex" && Typed(Typed("abcde", 0, "y"), 5, "x") == "yabcdxe"
  {
    TypedAtEnd("abcde", 5, "x");
    TypedIs("yabcde", 5, "x");
  }

  lemma {:induction false} ApartResults(a: Entry, b: Entry)
    requires !CanMerge(a, b, 3)
    ensures MergedAll(Groups([a], [b], 3), 3) == [Aggregation(None, [a]), Aggregation(None, [b])]
  {
    assert [b][1..] == [] && Groups([b], [], 3) == [[b]] && [[a]] + [[b]] == [[a], [b]];
    MergedAllAt([[a], [b]], 3);
  }

  // Of three commands, here two insertions and a deletion, the last can erase on every text what the order of
  // the first two changed.
  lemma {:induction false} DeletionErases(text: string)
    ensures Without(Typed(Typed(text, 1, "a"), 0, "bc"), 1, 3) == Without(Typed(Typed(text, 0, "bc"), 1, "a"), 1, 3)
  {
    var x, y := Typed(Typed(text, 1, "a"), 0, "bc"), Typed(Typed(text, 0, "bc"), 1, "a");
    EditedIsApplied(text, Insert(1, "a"));
    EditedIsApplied("bc" + text, Insert(1, "a"));
    EditedIsApplied(x, Delete(1, 3));
    EditedIsApplied(y, Delete(1, 3));
    assert |x| == |y| && x[0] == y[0] == 'b';
    assert forall i :: 4 <= i < |x| ==> x[i] == y[i];
  }
}

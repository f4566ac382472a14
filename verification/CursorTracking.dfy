/** What following the edits means for carets and selections. */
module CursorTracking {
  import opened Bounds
  import opened Convergence
  import opened CursorManager
  import opened OperationalTransform
  import opened Options

  /**
   * The six branches of the selection rewrite amount to moving each end as a caret moves: for every
   * forward selection, and for a backward one exactly when the deletion is empty, or the selection lies
   * wholly before it, wholly after it, or strictly inside it.
   */
  lemma {:induction false} DeletionMovesBothEnds(r: Range, at: nat, length: nat)
    requires 0 <= r.start && 0 <= r.end
    ensures (RangeAfterDeletion(r, at, length)
             == Range(PastDeletion(r.start, at, length), PastDeletion(r.end, at, length)))
       <==> (|| r.start <= r.end || length == 0 || r.start <= at || at + length <= r.end
             || (at < r.end && r.start < at + length))
  {
  }

  // ---- The text under a selection ----

  // What a cut of p..q leaves of the document from one place on.
  function RestAfterCut(doc: string, p: nat, q: nat, from: nat): string
    requires p <= q <= |doc| && from <= |doc|
  {
    if from >= q then doc[from..] else if from >= p then doc[q..] else doc[from..p] + doc[q..]
  }

  lemma {:induction false} FirstOf(doc: string, from: nat, to: nat, rest: string)
    requires from < to <= |doc|
    ensures doc[from..to] + rest == [doc[from]] + (doc[from + 1..to] + rest)
  {
  }

  lemma {:induction false} RestStep(doc: string, p: nat, q: nat, from: nat)
    requires p <= q <= |doc| && from < |doc|
    ensures RestAfterCut(doc, p, q, from)
         == (if p <= from < q then "" else [doc[from]]) + RestAfterCut(doc, p, q, from + 1)
  {
    if from >= q {
      assert doc[from..] == [doc[from]] + doc[from + 1..];
    } else if from >= p {
      assert "" + doc[q..] == doc[q..];
    } else {
      FirstOf(doc, from, p, doc[q..]);
      assert from + 1 == p ==> doc[from + 1..p] + doc[q..] == doc[q..];
    }
  }

  lemma {:induction false} SurvivorsOfOne(doc: string, d: Operation, p: nat, q: nat, from: nat)
    requires d.Delete? && from <= |doc| && p == Min(d.position, |doc|) && q == Min(d.position + d.length, |doc|)
    ensures Survivors(doc, [d], from) == RestAfterCut(doc, p, q, from)
    decreases |doc| - from
  {
    if from < |doc| {
      SurvivorsOfOne(doc, d, p, q, from + 1);
      OneDeleted(d, from);
      RestStep(doc, p, q, from);
    }
  }

  lemma {:induction false} OneDeleted(d: Operation, i: nat)
    requires d.Delete?
    ensures Deleted([d], i) <==> d.position <= i < d.position + d.length
  {
    assert [d][0] == d;
  }

  // A span of the document after the stretch p..q is cut out of it.
  lemma {:induction false} SpanAfterCut(doc: string, s: nat, e: nat, p: nat, q: nat, rest: string)
    requires s <= e <= |doc| && p <= q <= |doc| && rest == doc[..p] + doc[q..]
    ensures s >= q ==> rest[s - (q - p)..e - (q - p)] == doc[s..e]
    ensures e <= p ==> rest[s..e] == doc[s..e]
    ensures s < p && p < e <= q ==> rest[s..p] == doc[s..p]
    ensures s < p && q < e ==> rest[s..e - (q - p)] == doc[s..p] + doc[q..e]
    ensures p <= s < q < e ==> rest[p..e - (q - p)] == doc[q..e]
  {
    if s < p && q < e {
      assert rest[s..e - (q - p)] == rest[s..p] + rest[p..e - (q - p)];
    }
  }

  // What of the span s..e lies outside the stretch p..q.
  function Outside(doc: string, s: nat, e: nat, p: nat, q: nat): string
    requires s <= e <= |doc| && p <= q <= |doc|
  {
    if s >= q || e <= p then doc[s..e]
    else if s < p && q < e then doc[s..p] + doc[q..e]
    else if s < p then doc[s..p]
    else if q < e then doc[q..e]
    else ""
  }

  lemma {:induction false} NewSelection(doc: string, s: nat, e: nat, p: nat, q: nat, rest: string)
    requires s <= e <= |doc| && p <= q <= |doc| && rest == doc[..p] + doc[q..]
    ensures var s', e' := PastDeletion(s, p, q - p), PastDeletion(e, p, q - p);
            s' <= e' <= |rest| && rest[s'..e'] == Outside(doc, s, e, p, q)
  {
    SpanAfterCut(doc, s, e, p, q, rest);
  }

  lemma {:induction false} OldSelection(doc: string, s: nat, e: nat, d: Operation)
    requires d.Delete? && InBounds(d, |doc|) && s <= e <= |doc|
    ensures Survivors(doc[..e], [d], s) == Outside(doc, s, e, d.position, d.position + d.length)
  {
    SurvivorsOfOne(doc[..e], d, Min(d.position, e), Min(d.position + d.length, e), s);
    SpanOfPrefix(doc, s, e, d.position, d.position + d.length);
  }

  /** After a deletion, a forward selection covers exactly the characters of the old one that survive, in order. */
  lemma {:induction false} SelectionKeepsSurvivors(doc: string, r: Range, d: Operation, r': Range, doc': string)
    requires d.Delete? && InBounds(d, |doc|) && 0 <= r.start <= r.end <= |doc|
    requires r' == RangeAfterDeletion(r, d.position, d.length) && doc' == Apply(doc, d)
    ensures 0 <= r'.start <= r'.end <= |doc'|
    ensures doc'[r'.start..r'.end] == Survivors(doc[..r.end], [d], r.start)
  {
    var p, q := d.position, d.position + d.length;
    assert doc' == doc[..p] + doc[q..];
    DeletionMovesBothEnds(r, p, d.length);
    NewSelection(doc, r.start, r.end, p, q, doc');
    OldSelection(doc, r.start, r.end, d);
  }

  lemma {:induction false} SpanOfPrefix(doc: string, s: nat, e: nat, p: nat, q: nat)
    requires s <= e <= |doc| && p <= q <= |doc|
    ensures doc[..e][s..] == doc[s..e]
    ensures s <= p <= e ==> doc[..e][s..p] == doc[s..p]
    ensures q <= e ==> doc[..e][q..] == doc[q..e]
  {
  }

  /** After an insertion, a forward selection covers the same text, with the new text in it when put strictly inside. */
  lemma {:induction false} SelectionAroundInsertion(doc: string, r: Range, at: nat, text: string, r': Range,
                                                    doc': string)
    requires at <= |doc| && 0 <= r.start <= r.end <= |doc|
    requires r' == RangeAfterInsertion(r, at, |text|) && doc' == Apply(doc, Insert(at, text))
    ensures 0 <= r'.start <= r'.end <= |doc'|
    ensures doc'[r'.start..r'.end] ==
              if r.start < at < r.end then doc[r.start..at] + text + doc[at..r.end] else doc[r.start..r.end]
  {
    SpanAfterInsert(doc, r.start, r.end, at, text, doc');
  }

  lemma {:induction false} SpanAfterInsert(doc: string, s: nat, e: nat, at: nat, text: string, doc': string)
    requires s <= e <= |doc| && at <= |doc| && doc' == doc[..at] + text + doc[at..]
    ensures at <= s ==> doc'[s + |text|..e + |text|] == doc[s..e]
    ensures s < at < e ==> doc'[s..e + |text|] == doc[s..at] + text + doc[at..e]
    ensures e <= at ==> doc'[s..e] == doc[s..e]
  {
    if at <= s {
      SpanBehind(doc[..at] + text, doc[at..], s - at, e - at);
      SubSpan(doc, at, s - at, e - at);
    } else if e <= at {
      SpanInFront(doc[..at], text + doc[at..], s, e);
      assert doc' == doc[..at] + (text + doc[at..]) && doc[s..e] == doc[..at][s..e];
    } else {
      SpanAcross(doc[..at], text, doc[at..], s, e - at);
      assert doc[s..at] == doc[..at][s..] && doc[at..e] == doc[at..][..e - at];
    }
  }

  lemma {:induction false} SpanBehind(front: string, back: string, i: nat, j: nat)
    requires i <= j <= |back|
    ensures (front + back)[|front| + i..|front| + j] == back[i..j]
  {
  }

  lemma {:induction false} SpanInFront(front: string, back: string, i: nat, j: nat)
    requires i <= j <= |front|
    ensures (front + back)[i..j] == front[i..j]
  {
  }

  lemma {:induction false} SpanAcross(front: string, text: string, back: string, i: nat, j: nat)
    requires i <= |front| && j <= |back|
    ensures (front + text + back)[i..|front| + |text| + j] == front[i..] + text + back[..j]
  {
  }

  lemma {:induction false} SubSpan(doc: string, o: nat, i: nat, j: nat)
    requires i <= j && o + j <= |doc|
    ensures doc[o + i..o + j] == doc[o..][i..j]
  {
  }

  // ---- Both ends of every selection ----

  /** After an insertion each end has moved by its length or not at all, and what decides it is told for each. */
  lemma {:induction false} InsertionMovesEnds(r: Range, at: nat, length: nat)
    ensures var r' := RangeAfterInsertion(r, at, length);
            && r'.start - r.start == (if at <= r.start then length else 0)
            && r'.end - r.end == (if at <= r.start || at < r.end then length else 0)
  {
  }

  // Where an end behind the deletion, inside it, or before it goes.
  function EndAfterDeletion(i: int, at: nat, length: nat): int {
    if i >= at + length then i - length else if i > at then at else i
  }

  /** Each end of a forward selection moves by itself, wherever it is. */
  lemma {:induction false} DeletionOfForward(r: Range, at: nat, length: nat)
    requires r.start <= r.end
    ensures RangeAfterDeletion(r, at, length)
         == Range(EndAfterDeletion(r.start, at, length), EndAfterDeletion(r.end, at, length))
  {
  }

  /**
   * A backward selection that starts behind the deleted stretch is shifted whole, one that ends before it
   * stays, and any other collapses to where the deletion was.
   */
  lemma {:induction false} DeletionOfBackward(r: Range, at: nat, length: nat)
    requires r.end < r.start
    ensures var r' := RangeAfterDeletion(r, at, length);
            if at + length <= r.start then r.start - r'.start == r.end - r'.end == length
            else if r.end <= at then r' == r
            else r'.start == r'.end == at
  {
  }

  // ---- The text under a cursor's selection ----

  // The text the cursor's selection covers.
  function Selected(doc: string, c: CursorPosition): string
    requires c.selection.Some? && 0 <= c.selection.value.start <= c.selection.value.end <= |doc|
  {
    doc[c.selection.value.start..c.selection.value.end]
  }

  predicate Selects(doc: string, c: CursorPosition) {
    c.selection.Some? && 0 <= c.selection.value.start <= c.selection.value.end <= |doc|
  }

  // What an edit leaves of the text between two places of the document, with what it puts strictly between them.
  ghost function SpanAfter(doc: string, start: nat, end: nat, edit: Operation): string
    requires start <= end <= |doc| && !edit.Replace? && InBounds(edit, |doc|)
  {
    match edit
    case Insert(at, text) =>
      if start < at < end then doc[start..at] + text + doc[at..end] else doc[start..end]
    case Delete(_, _) => Survivors(doc[..end], [edit], start)
  }

  /** An edit leaves a cursor selecting what it leaves of the selected text, and nothing else of the cursor changes. */
  lemma {:induction false} CursorSelectsSpan(doc: string, c: CursorPosition, edit: Operation)
    requires !edit.Replace? && InBounds(edit, |doc|) && Selects(doc, c)
    ensures var c', doc' := CursorAfter(c, edit), Apply(doc, edit);
            && Selects(doc', c')
            && Selected(doc', c') == SpanAfter(doc, c.selection.value.start, c.selection.value.end, edit)
            && c' == c.(position := c'.position, selection := c'.selection)
  {
    var c' := CursorAfter(c, edit);
    match edit
    case Insert(at, text) =>
      SelectionAroundInsertion(doc, c.selection.value, at, text, c'.selection.value, Apply(doc, edit));
    case Delete(at, length) =>
      SelectionKeepsSurvivors(doc, c.selection.value, edit, c'.selection.value, Apply(doc, edit));
  }

  /** A cursor's selection is the only thing that decides its new one, and a cursor with none gets none. */
  lemma {:induction false} SelectionFollows(c: CursorPosition, at: nat, length: nat)
    ensures AfterInsertion(c, at, length).selection.None? <==> c.selection.None?
    ensures AfterDeletion(c, at, length).selection.None? <==> c.selection.None?
    ensures c.selection.Some? ==> var r := c.selection.value;
              && AfterInsertion(c, at, length).selection == Some(RangeAfterInsertion(r, at, length))
              && AfterDeletion(c, at, length).selection == Some(RangeAfterDeletion(r, at, length))
  {
  }

  ghost function AllAfter(cursors: Cursors, edit: Operation, exclude: Option<string>): Cursors
    requires !edit.Replace?
  {
    if edit.Insert? then AllAfterInsertion(cursors, edit.position, |edit.text|, exclude)
    else AllAfterDeletion(cursors, edit.position, edit.length, exclude)
  }

  /**
   * Adjusting all the cursors of a document: the named user's own cursor stays as it is, every other one
   * follows the edit, and selects what the edit leaves of the text it selected; no name excludes nobody.
   */
  lemma {:induction false} AllCursorsFollow(doc: string, cursors: Cursors, edit: Operation, exclude: Option<string>,
                                            u: string)
    requires !edit.Replace? && InBounds(edit, |doc|) && u in cursors
    ensures var after := AllAfter(cursors, edit, exclude);
            && after.Keys == cursors.Keys
            && (exclude == Some(u) && u != "" ==> after[u] == cursors[u])
            && (exclude != Some(u) || u == "" ==>
                after[u] == CursorAfter(cursors[u], edit) &&
                (Selects(doc, cursors[u]) ==>
                   var r := cursors[u].selection.value;
                   Selects(Apply(doc, edit), after[u]) &&
                   Selected(Apply(doc, edit), after[u]) == SpanAfter(doc, r.start, r.end, edit)))
  {
    if Selects(doc, cursors[u]) {
      CursorSelectsSpan(doc, cursors[u], edit);
    }
  }

  // ---- Carets over whole edit sessions ----

  ghost predicate Edits(edits: seq<Operation>) { forall i :: 0 <= i < |edits| ==> !edits[i].Replace? }

  // A session the document has room for: every edit addresses text present when it is made.
  ghost predicate Session(doc: string, edits: seq<Operation>)
    decreases |edits|
  {
    edits != [] ==> InBounds(edits[0], |doc|) && Session(Apply(doc, edits[0]), edits[1..])
  }

  function DocumentAfter(doc: string, edits: seq<Operation>): string
    decreases |edits|
  {
    if edits == [] then doc else DocumentAfter(Apply(doc, edits[0]), edits[1..])
  }

  function CursorAfter(c: CursorPosition, edit: Operation): CursorPosition
    requires !edit.Replace?
  {
    if edit.Insert? then AfterInsertion(c, edit.position, |edit.text|) else AfterDeletion(c, edit.position, edit.length)
  }

  function CursorThrough(c: CursorPosition, edits: seq<Operation>): CursorPosition
    requires Edits(edits)
    decreases |edits|
  {
    if edits == [] then c else CursorThrough(CursorAfter(c, edits[0]), edits[1..])
  }

  /** Over any session, a caret lies where an insertion waiting at it would be carried by transformation. */
  lemma {:induction false} CaretAgreesWithTransform(c: CursorPosition, edits: seq<Operation>, text: string)
    requires Edits(edits)
    ensures TransformThrough(Insert(c.position, text), edits) == Insert(CursorThrough(c, edits).position, text)
    decreases |edits|
  {
    if edits != [] {
      CaretAgreesWithTransform(CursorAfter(c, edits[0]), edits[1..], text);
    }
  }

  ghost predicate CursorWithin(c: CursorPosition, n: nat) {
    c.position <= n && (c.selection.Some? ==> 0 <= c.selection.value.start <= c.selection.value.end <= n)
  }

  lemma {:induction false} CursorWithinAfter(doc: string, c: CursorPosition, edit: Operation)
    requires !edit.Replace? && InBounds(edit, |doc|) && CursorWithin(c, |doc|)
    ensures CursorWithin(CursorAfter(c, edit), |Apply(doc, edit)|)
  {
    ApplyIs(doc, edit);
    if edit.Delete? && c.selection.Some? {
      DeletionMovesBothEnds(c.selection.value, edit.position, edit.length);
    }
  }

  /** Over any session, carets and selections stay inside the document and selections stay ordered. */
  lemma {:induction false} CursorStaysWithin(doc: string, c: CursorPosition, edits: seq<Operation>)
    requires Edits(edits) && Session(doc, edits) && CursorWithin(c, |doc|)
    ensures CursorWithin(CursorThrough(c, edits), |DocumentAfter(doc, edits)|)
    decreases |edits|
  {
    if edits != [] {
      CursorWithinAfter(doc, c, edits[0]);
      CursorStaysWithin(Apply(doc, edits[0]), CursorAfter(c, edits[0]), edits[1..]);
    }
  }

  lemma {:induction false} FirstEdits(doc: string, c: CursorPosition, edits: seq<Operation>, k: nat)
    requires Edits(edits) && 0 < k <= |edits|
    ensures CursorThrough(c, edits[..k]) == CursorThrough(CursorAfter(c, edits[0]), edits[1..][..k - 1])
    ensures DocumentAfter(doc, edits[..k]) == DocumentAfter(Apply(doc, edits[0]), edits[1..][..k - 1])
  {
    assert edits[..k][1..] == edits[1..][..k - 1];
  }

  /**
   * At every step of a session, a cursor that selects something selects what the step's edit leaves of what
   * it selected before the step.
   */
  lemma {:induction false} SessionSelectsSpans(doc: string, c: CursorPosition, edits: seq<Operation>, k: nat)
    requires Edits(edits) && Session(doc, edits) && Selects(doc, c) && k < |edits|
    ensures var before, after := DocumentAfter(doc, edits[..k]), DocumentAfter(doc, edits[..k + 1]);
            var c', c'' := CursorThrough(c, edits[..k]), CursorThrough(c, edits[..k + 1]);
            && Selects(before, c') && Selects(after, c'') && InBounds(edits[k], |before|)
            && Selected(after, c'') == SpanAfter(before, c'.selection.value.start, c'.selection.value.end, edits[k])
    decreases k
  {
    CursorSelectsSpan(doc, c, edits[0]);
    FirstEdits(doc, c, edits, k + 1);
    if k > 0 {
      FirstEdits(doc, c, edits, k);
      SessionSelectsSpans(Apply(doc, edits[0]), CursorAfter(c, edits[0]), edits[1..], k - 1);
    }
  }

  // ---- Undoing an insertion ----

  lemma {:induction false} InsertionUndone(c: CursorPosition, at: nat, length: nat)
    ensures AfterDeletion(AfterInsertion(c, at, length), at, length) == c
  {
  }

  /**
   * Inserting and then deleting the same span restores every user's caret and selection exactly, backward
   * ones included.
   */
  lemma {:induction false} AllInsertionsUndone(cursors: Cursors, at: nat, length: nat, exclude: Option<string>)
    ensures AllAfterDeletion(AllAfterInsertion(cursors, at, length, exclude), at, length, exclude) == cursors
  {
    forall u | u in cursors
      ensures AfterDeletion(AfterInsertion(cursors[u], at, length), at, length) == cursors[u]
    {
      InsertionUndone(cursors[u], at, length);
    }
  }
}

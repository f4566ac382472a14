/** Corrections made as concurrent edits: in whatever order they are integrated, they make the corrected text. */
module CorrectionEdits {
  import opened Convergence
  import opened GrammarCorrections
  import opened OperationalTransform

  function AsEdit(c: Correction): Operation
    requires c.startOffset <= c.endOffset
  {
    if c.startOffset == c.endOffset then Insert(c.startOffset, c.corrected)
    else Replace(c.startOffset, c.endOffset - c.startOffset, c.corrected)
  }

  ghost predicate Forward(cs: seq<Correction>) { forall n :: 0 <= n < |cs| ==> cs[n].startOffset <= cs[n].endOffset }

  // The last correction first.
  ghost function Edits(cs: seq<Correction>): (r: seq<Operation>)
    requires Forward(cs)
    ensures |r| == |cs| && forall k :: 0 <= k < |cs| ==> r[k] == AsEdit(cs[|cs| - 1 - k])
    decreases |cs|
  {
    if cs == [] then [] else [AsEdit(cs[|cs| - 1])] + Edits(cs[..|cs| - 1])
  }

  lemma {:induction false} EditsAreABatch(original: string, corrected: string, cs: seq<Correction>)
    requires Corrections(original, corrected, cs)
    ensures Forward(cs) && Batch(Edits(cs), |original|)
  {
    var ops := Edits(cs);
    forall i | 0 <= i < |ops| ensures Member(ops[i], |original|) {
      var c := cs[|cs| - 1 - i];
      assert Inner(original, corrected, c) || Tail(original, corrected, c);
    }
    forall i, j | 0 <= i < j < |ops| ensures Compatible(ops[i], ops[j]) {
      assert cs[|cs| - 1 - j].endOffset < cs[|cs| - 1 - i].startOffset;
      assert Inner(original, corrected, cs[|cs| - 1 - j]);
    }
  }

  // Edits further to the right do not touch an edit.
  lemma {:induction false} LeftStays(op: Operation, executed: seq<Operation>)
    requires forall k :: 0 <= k < |executed| ==> op.position + Width(op) < executed[k].position
    requires !op.Insert?
    ensures TransformThrough(op, executed) == op
    decreases |executed|
  {
    if executed != [] {
      assert Transform(op, executed[0]) == op;
      LeftStays(op, executed[1..]);
    }
  }

  // The corrections still to be made fit the text and lie left of every edit made; only the first made may be
  // an insertion.
  ghost predicate Pending(text: string, executed: seq<Operation>, cs: seq<Correction>) {
    && Apart(cs)
    && (forall n :: 0 <= n < |cs| ==> cs[n].startOffset <= cs[n].endOffset <= |text|)
    && (forall n :: 0 <= n < |cs| && (n < |cs| - 1 || executed != []) ==> cs[n].startOffset < cs[n].endOffset)
    && (forall n, k :: 0 <= n < |cs| && 0 <= k < |executed| ==> cs[n].endOffset < executed[k].position)
  }

  lemma {:induction false} PendingNext(text: string, executed: seq<Operation>, cs: seq<Correction>, c: Correction,
                                       text': string)
    requires Pending(text, executed, cs) && cs != [] && c == cs[|cs| - 1]
    requires text' == text[..c.startOffset] + c.corrected + text[c.endOffset..]
    ensures Pending(text', executed + [AsEdit(c)], cs[..|cs| - 1])
    ensures TransformThrough(AsEdit(c), executed) == AsEdit(c)
    ensures Apply(text, AsEdit(c)) == text'
  {
    if executed != [] {
      LeftStays(AsEdit(c), executed);
    }
  }

  lemma {:induction false} ReplicaPatches(text: string, executed: seq<Operation>, cs: seq<Correction>)
    requires Pending(text, executed, cs)
    ensures Replica(text, executed, Edits(cs)) == Patched(text, cs)
    decreases |cs|
  {
    if cs != [] {
      var c, rest, ops := cs[|cs| - 1], cs[..|cs| - 1], Edits(cs);
      var text' := text[..c.startOffset] + c.corrected + text[c.endOffset..];
      PendingNext(text, executed, cs, c, text');
      assert ops[0] == AsEdit(c) && ops[1..] == Edits(rest);
      ReplicaPatches(text', executed + [AsEdit(c)], rest);
    }
  }

  /** Integrated in any order, each transformed against those before it, the corrections make the corrected text. */
  lemma {:induction false} CorrectionsInAnyOrder(original: string, corrected: string, cs: seq<Correction>,
                                                 ops: seq<Operation>)
    requires Corrections(original, corrected, cs)
    requires Forward(cs) ==> multiset(ops) == multiset(Edits(cs))
    ensures Replica(original, [], ops) == corrected
  {
    EditsAreABatch(original, corrected, cs);
    AllPending(original, corrected, cs);
    ReplicaPatches(original, [], cs);
    PatchingRestores(original, corrected, cs);
    ReplicasConverge(original, Edits(cs), ops);
  }

  lemma {:induction false} AllPending(original: string, corrected: string, cs: seq<Correction>)
    requires Corrections(original, corrected, cs)
    ensures Pending(original, [], cs)
  {
    forall n | 0 <= n < |cs|
      ensures cs[n].startOffset <= cs[n].endOffset <= |original| &&
              (n < |cs| - 1 ==> cs[n].startOffset < cs[n].endOffset)
    {
      assert Inner(original, corrected, cs[n]) || Tail(original, corrected, cs[n]);
    }
  }
}

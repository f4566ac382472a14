/** The corrections read off an original and a corrected text, position by position. */
module GrammarCorrections {
  import opened Options

  datatype Correction = Correction(original: string, corrected: string, startOffset: nat, endOffset: nat)

  predicate Covers(c: Correction, p: nat) { c.startOffset <= p < c.endOffset }

  ghost predicate Covered(cs: seq<Correction>, p: nat) { exists n :: 0 <= n < |cs| && Covers(cs[n], p) }

  // A correction between two agreeing positions: it puts as many characters as it takes.
  ghost predicate Inner(original: string, corrected: string, c: Correction) {
    && c.startOffset < c.endOffset <= |original| && c.endOffset <= |corrected|
    && c.original == original[c.startOffset..c.endOffset]
    && c.corrected == corrected[c.startOffset..c.endOffset]
  }

  // A correction that runs to the end of both texts.
  ghost predicate Tail(original: string, corrected: string, c: Correction) {
    && c.startOffset <= |original| && c.startOffset <= |corrected| && c.endOffset == |original|
    && c.original == original[c.startOffset..] && c.corrected == corrected[c.startOffset..]
    && (c.startOffset < |original| || c.startOffset < |corrected|)
  }

  ghost predicate Apart(cs: seq<Correction>) {
    forall n, m :: 0 <= n < m < |cs| ==> cs[n].endOffset < cs[m].startOffset
  }

  ghost predicate DiffersExactly(original: string, corrected: string, cs: seq<Correction>) {
    forall p :: 0 <= p < |original| && p < |corrected| ==> (original[p] != corrected[p] <==> Covered(cs, p))
  }

  /**
   * The corrections are the runs of positions at which the texts differ: apart from one another, each
   * within agreeing positions, except that the last one runs to the end when the texts end differently.
   */
  ghost predicate Corrections(original: string, corrected: string, cs: seq<Correction>) {
    && Apart(cs)
    && DiffersExactly(original, corrected, cs)
    && (forall n :: 0 <= n < |cs| - 1 ==> Inner(original, corrected, cs[n]))
    && (cs != [] ==> Inner(original, corrected, cs[|cs| - 1]) || Tail(original, corrected, cs[|cs| - 1]))
    && (|original| != |corrected| ==> cs != [] && Tail(original, corrected, cs[|cs| - 1]))
  }

  // How the loop's corrections grow: what is covered by one more.
  lemma {:induction false} CoveredBySnoc(cs: seq<Correction>, c: Correction, p: nat)
    ensures Covered(cs + [c], p) <==> Covered(cs, p) || Covers(c, p)
  {
    if n :| 0 <= n < |cs| && Covers(cs[n], p) {
      assert Covers((cs + [c])[n], p);
    }
    if Covers(c, p) {
      assert Covers((cs + [c])[|cs|], p);
    }
  }

  predicate MatchAt(original: string, corrected: string, p: nat) {
    p < |original| && p < |corrected| && original[p] == corrected[p]
  }

  // The first matching position within reach after p, as a distance from p.
  method NextMatch(original: string, corrected: string, i: nat, j: nat) returns (nextMatch: int)
    requires i == j
    ensures nextMatch == -1 || 1 <= nextMatch < 20
    ensures nextMatch != -1 ==> MatchAt(original, corrected, i + nextMatch)
    ensures forall p :: i < p < i + (if nextMatch == -1 then 20 else nextMatch) ==> !MatchAt(original, corrected, p)
  {
    nextMatch := -1;
    for k := 1 to 20
      invariant nextMatch == -1
      invariant forall p :: i < p < i + k ==> !MatchAt(original, corrected, p)
    {
      if i + k < |original| && j + k < |corrected| && original[i + k] == corrected[j + k] {
        nextMatch := k;
        break;
      }
    }
  }

  // What the scan knows at position i: closed corrections before it, and where an open one started.
  ghost predicate Scanned(original: string, corrected: string, cs: seq<Correction>, startOffset: int, i: nat) {
    && Apart(cs)
    && (forall n :: 0 <= n < |cs| ==> Inner(original, corrected, cs[n]))
    && (forall n :: 0 <= n < |cs| ==> cs[n].endOffset < if startOffset == -1 then i else startOffset)
    && (if startOffset == -1 then i <= |original| && i <= |corrected|
        else 0 <= startOffset < i && startOffset <= |original| && startOffset <= |corrected| &&
             (startOffset < |original| || startOffset < |corrected|))
    && (forall p :: 0 <= p < i && p < |original| && p < |corrected| ==>
          (original[p] != corrected[p] <==> Covered(cs, p) || 0 <= startOffset <= p))
  }

  lemma {:induction false} CloseCorrection(original: string, corrected: string, cs: seq<Correction>,
                                           startOffset: int, i: nat, c: Correction)
    requires Scanned(original, corrected, cs, startOffset, i) && startOffset != -1
    requires MatchAt(original, corrected, i)
    requires c == Correction(original[startOffset..i], corrected[startOffset..i], startOffset, i)
    ensures Scanned(original, corrected, cs + [c], -1, i + 1)
  {
    forall p | 0 <= p < i + 1 && p < |original| && p < |corrected|
      ensures original[p] != corrected[p] <==> Covered(cs + [c], p)
    {
      CoveredBySnoc(cs, c, p);
      assert forall n :: 0 <= n < |cs| ==> !Covers(cs[n], i);
    }
  }

  lemma {:induction false} MovePast(original: string, corrected: string, cs: seq<Correction>, startOffset: int, i: nat,
                                    start': nat, step: nat)
    requires Scanned(original, corrected, cs, startOffset, i) && step >= 1
    requires start' == if startOffset == -1 then i else startOffset
    requires forall p :: i <= p < i + step ==> !MatchAt(original, corrected, p)
    requires i < |original| || i < |corrected|
    ensures Scanned(original, corrected, cs, start', i + step)
  {
    forall p | 0 <= p < i + step && p < |original| && p < |corrected|
      ensures original[p] != corrected[p] <==> Covered(cs, p) || start' <= p
    {
      assert p >= i ==> !MatchAt(original, corrected, p);
    }
  }

  lemma {:induction false} Finished(original: string, corrected: string, cs: seq<Correction>, startOffset: int, i: nat)
    requires Scanned(original, corrected, cs, startOffset, i) && i >= |original| && i >= |corrected|
    ensures startOffset == -1 ==> Corrections(original, corrected, cs)
    ensures startOffset != -1 ==>
              Corrections(original, corrected,
                          cs + [Correction(original[startOffset..], corrected[startOffset..], startOffset, |original|)])
  {
    if startOffset != -1 {
      var c := Correction(original[startOffset..], corrected[startOffset..], startOffset, |original|);
      forall p | 0 <= p < |original| && p < |corrected|
        ensures original[p] != corrected[p] <==> Covered(cs + [c], p)
      {
        CoveredBySnoc(cs, c, p);
      }
    }
  }

  // Corrections the analysis already carries are taken as they are.
  method ParseCorrections(original: string, corrected: string, structured: Option<seq<Correction>>)
    returns (corrections: seq<Correction>)
    ensures if structured.Some? then corrections == structured.value else Corrections(original, corrected, corrections)
  {
    if structured.Some? {
      return structured.value;
    }
    corrections := [];
    var i, j, startOffset := 0, 0, -1;
    while i < |original| || j < |corrected|
      invariant i == j && Scanned(original, corrected, corrections, startOffset, i)
      decreases |original| + |corrected| - i
    {
      if i < |original| && j < |corrected| && original[i] == corrected[j] {
        if startOffset != -1 {
          var c := Correction(original[startOffset..i], corrected[startOffset..j], startOffset, i);
          CloseCorrection(original, corrected, corrections, startOffset, i, c);
          corrections := corrections + [c];
          startOffset := -1;
        }
        i, j := i + 1, j + 1;
      } else {
        ghost var before := startOffset;
        if startOffset == -1 {
          startOffset := i;
        }
        var nextMatch := NextMatch(original, corrected, i, j);
        var step := if nextMatch != -1 then nextMatch else 1;
        MovePast(original, corrected, corrections, before, i, startOffset, step);
        i, j := i + step, j + step;
      }
    }
    Finished(original, corrected, corrections, startOffset, i);
    if startOffset != -1 {
      var c := Correction(original[startOffset..], corrected[startOffset..], startOffset, |original|);
      corrections := corrections + [c];
    }
  }

  // ---- Patching ----

  // Each correction put in place of the text it covers, the last one first.
  function Patched(text: string, cs: seq<Correction>): string
    decreases |cs|
  {
    if cs == [] then text
    else
      var c := cs[|cs| - 1];
      if c.startOffset <= c.endOffset <= |text|
      then Patched(text[..c.startOffset] + c.corrected + text[c.endOffset..], cs[..|cs| - 1])
      else text
  }

  // From b on the text is already corrected; the corrections left all lie before b.
  lemma {:induction false} PatchBefore(original: string, corrected: string, cs: seq<Correction>, b: nat, text: string)
    requires b <= |original| && b <= |corrected| && text == original[..b] + corrected[b..]
    requires Apart(cs) && forall n :: 0 <= n < |cs| ==> Inner(original, corrected, cs[n]) && cs[n].endOffset <= b
    requires forall p :: 0 <= p < b ==> (original[p] != corrected[p] ==> Covered(cs, p))
    ensures Patched(text, cs) == corrected
    decreases |cs|
  {
    if cs == [] {
      assert original[..b] == corrected[..b];
    } else {
      var c, rest := cs[|cs| - 1], cs[..|cs| - 1];
      assert cs == rest + [c];
      forall p | c.endOffset <= p < b ensures original[p] == corrected[p] {
        assert forall n :: 0 <= n < |cs| ==> cs[n].endOffset <= c.endOffset;
      }
      var s, e := c.startOffset, c.endOffset;
      assert original[e..b] == corrected[e..b];
      assert text[..s] == original[..s] && text[e..] == original[e..b] + corrected[b..];
      assert text[..s] + c.corrected + text[e..] == original[..s] + corrected[s..];
      forall p | 0 <= p < s ensures original[p] != corrected[p] ==> Covered(rest, p) {
        CoveredBySnoc(rest, c, p);
      }
      PatchBefore(original, corrected, rest, s, text[..s] + c.corrected + text[e..]);
    }
  }

  /** Putting every correction in place of the text it covers turns the original into the corrected text. */
  lemma {:induction false} PatchingRestores(original: string, corrected: string, cs: seq<Correction>)
    requires Corrections(original, corrected, cs)
    ensures Patched(original, cs) == corrected
  {
    if cs != [] && Tail(original, corrected, cs[|cs| - 1]) {
      var c, rest := cs[|cs| - 1], cs[..|cs| - 1];
      var s := c.startOffset;
      assert cs == rest + [c];
      assert original[..s] + c.corrected + original[|original|..] == original[..s] + corrected[s..];
      forall p | 0 <= p < s ensures original[p] != corrected[p] ==> Covered(rest, p) {
        CoveredBySnoc(rest, c, p);
      }
      PatchBefore(original, corrected, rest, s, original[..s] + corrected[s..]);
    } else {
      assert original == original[..|original|] + corrected[|original|..];
      PatchBefore(original, corrected, cs, |original|, original);
    }
  }

  /** There is nothing to correct exactly when the texts are the same. */
  lemma {:induction false} NoCorrectionsIffSame(original: string, corrected: string, cs: seq<Correction>)
    requires Corrections(original, corrected, cs)
    ensures cs == [] <==> original == corrected
  {
    PatchingRestores(original, corrected, cs);
    if cs != [] {
      var c := cs[|cs| - 1];
      if c.startOffset < |original| && c.startOffset < |corrected| {
        assert Covers(c, c.startOffset);
        assert original[c.startOffset] != corrected[c.startOffset];
      }
    }
  }
}

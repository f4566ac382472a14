/**
 * Vector clocks: a count per user, advanced for a local event and joined with a received clock.
 * A count that is missing reads as 0.
 */
module VectorClocks {
  import opened Bounds
  import opened Options

  type Clock = map<string, int>

  function Get(c: Clock, u: string): int { if u in c then c[u] else 0 }

  function Incremented(c: Clock, u: string): Clock { c[u := Get(c, u) + 1] }

  function Merged(c: Clock, d: Clock): Clock {
    map u | u in c.Keys + d.Keys :: if u in d then Max(Get(c, u), d[u]) else c[u]
  }

  // The merge with the counts of `later` still to come.
  function MergedExcept(c: Clock, d: Clock, later: set<string>): Clock {
    map u | u in c.Keys + (d.Keys - later) :: if u in d && u !in later then Max(Get(c, u), d[u]) else c[u]
  }

  lemma {:induction false} MergeStep(c: Clock, d: Clock, later: set<string>, u: string)
    requires u in d && u in later
    ensures MergedExcept(c, d, later)[u := Max(Get(MergedExcept(c, d, later), u), Get(d, u))] ==
            MergedExcept(c, d, later - {u})
  {
  }

  lemma {:induction false} MergeEnds(c: Clock, d: Clock)
    ensures MergedExcept(c, d, d.Keys) == c && MergedExcept(c, d, {}) == Merged(c, d)
  {
  }

  // Some count of c is above d's.
  ghost predicate Exceeds(c: Clock, d: Clock) { exists u :: u in c && c[u] > Get(d, u) }

  // Some count of c is below d's, or d counts a user that c does not know.
  ghost predicate FallsShort(c: Clock, d: Clock) {
    (exists u :: u in c && c[u] < Get(d, u)) || (exists u :: u in d && u !in c && d[u] > 0)
  }

  ghost function Order(greater: bool, less: bool): int {
    if greater && !less then 1 else if !greater && less then -1 else 0
  }

  ghost function Compared(c: Clock, d: Clock): int { Order(Exceeds(c, d), FallsShort(c, d)) }

  ghost predicate SameCounts(c: Clock, d: Clock) { forall u :: Get(c, u) == Get(d, u) }

  class VectorClock {
    var clock: Clock

    // An empty user name is no user.
    constructor (userId: Option<string>, initialClock: Option<Clock>)
      ensures var start := if initialClock.Some? then initialClock.value else map[];
              clock == if userId.Some? && userId.value != "" then Incremented(start, userId.value) else start
    {
      clock := if initialClock.Some? then initialClock.value else map[];
      new;
      if userId.Some? && userId.value != "" {
        Increment(userId.value);
      }
    }

    method Increment(userId: string)
      modifies this
      ensures clock == Incremented(old(clock), userId)
    {
      clock := clock[userId := Get(clock, userId) + 1];
    }

    method Compare(other: Clock) returns (r: int)
      ensures r == Compared(clock, other)
    {
      var thisGreater, otherGreater := false, false;
      var keys := clock.Keys;
      while keys != {}
        invariant keys <= clock.Keys
        invariant thisGreater ==> Exceeds(clock, other)
        invariant otherGreater ==> FallsShort(clock, other)
        invariant forall u :: u in clock && u !in keys ==> clock[u] <= Get(other, u) || thisGreater
        invariant forall u :: u in clock && u !in keys ==> clock[u] >= Get(other, u) || otherGreater
        decreases |keys|
      {
        var u :| u in keys;
        if clock[u] > Get(other, u) {
          thisGreater := true;
        } else if clock[u] < Get(other, u) {
          otherGreater := true;
        }
        keys := keys - {u};
      }
      keys := other.Keys;
      while keys != {}
        invariant keys <= other.Keys
        invariant otherGreater ==> FallsShort(clock, other)
        invariant forall u :: u in clock ==> clock[u] >= Get(other, u) || otherGreater
        invariant forall u :: u in other && u !in keys && u !in clock ==> other[u] <= 0 || otherGreater
        decreases |keys|
      {
        var u :| u in keys;
        if u !in clock && other[u] > 0 {
          otherGreater := true;
        }
        keys := keys - {u};
      }
      r := if thisGreater && !otherGreater then 1 else if !thisGreater && otherGreater then -1 else 0;
    }

    method Merge(other: Clock)
      modifies this
      ensures clock == Merged(old(clock), other)
    {
      ghost var start := clock;
      var keys := other.Keys;
      MergeEnds(start, other);
      while keys != {}
        invariant keys <= other.Keys
        invariant clock == MergedExcept(start, other, keys)
        decreases |keys|
      {
        var u :| u in keys;
        MergeStep(start, other, keys, u);
        clock := clock[u := Max(Get(clock, u), Get(other, u))];
        keys := keys - {u};
      }
    }

    method Equals(other: Clock) returns (same: bool)
      ensures same <==> SameCounts(clock, other)
    {
      var keys := clock.Keys;
      while keys != {}
        invariant keys <= clock.Keys
        invariant forall u :: u in clock && u !in keys ==> clock[u] == Get(other, u)
        decreases |keys|
      {
        var u :| u in keys;
        if Get(clock, u) != Get(other, u) {
          return false;
        }
        keys := keys - {u};
      }
      keys := other.Keys;
      while keys != {}
        invariant keys <= other.Keys
        invariant forall u :: u in other && u !in keys ==> other[u] == Get(clock, u)
        decreases |keys|
      {
        var u :| u in keys;
        if Get(other, u) != Get(clock, u) {
          return false;
        }
        keys := keys - {u};
      }
      return true;
    }
  }

  // ---- The conflict detector's own comparison ----

  // A missing count and a zero count both read as "not there".
  ghost predicate DetectorExceeds(c: Clock, d: Clock) { exists u :: u in c && (Get(d, u) == 0 || c[u] > d[u]) }

  ghost predicate DetectorFallsShort(c: Clock, d: Clock) {
    (exists u :: u in c && Get(d, u) != 0 && c[u] < d[u]) || (exists u :: u in d && Get(c, u) == 0)
  }

  ghost function DetectorCompared(c: Clock, d: Clock): int { Order(DetectorExceeds(c, d), DetectorFallsShort(c, d)) }

  method CompareVectorClocks(vc1: Clock, vc2: Clock) returns (r: int)
    ensures r == DetectorCompared(vc1, vc2)
  {
    var greater, less := false, false;
    var keys := vc1.Keys;
    while keys != {}
      invariant keys <= vc1.Keys
      invariant greater ==> DetectorExceeds(vc1, vc2)
      invariant less ==> DetectorFallsShort(vc1, vc2)
      invariant forall u :: u in vc1 && u !in keys ==> (Get(vc2, u) != 0 && vc1[u] <= vc2[u]) || greater
      invariant forall u :: u in vc1 && u !in keys ==> Get(vc2, u) == 0 || vc1[u] >= vc2[u] || less
      decreases |keys|
    {
      var u :| u in keys;
      if Get(vc2, u) == 0 || vc1[u] > vc2[u] {
        greater := true;
      } else if vc1[u] < vc2[u] {
        less := true;
      }
      keys := keys - {u};
    }
    keys := vc2.Keys;
    while keys != {}
      invariant keys <= vc2.Keys
      invariant less ==> DetectorFallsShort(vc1, vc2)
      invariant forall u :: u in vc1 ==> Get(vc2, u) == 0 || vc1[u] >= vc2[u] || less
      invariant forall u :: u in vc2 && u !in keys ==> Get(vc1, u) != 0 || less
      decreases |keys|
    {
      var u :| u in keys;
      if Get(vc1, u) == 0 {
        less := true;
      }
      keys := keys - {u};
    }
    r := if greater && !less then 1 else if !greater && less then -1 else 0;
  }

  // ---- The order of clocks ----

  // Every clock built by increments and merges from the empty one counts only upwards.
  ghost predicate Positive(c: Clock) { forall u :: u in c ==> c[u] > 0 }

  ghost predicate NonNegative(c: Clock) { forall u :: u in c ==> c[u] >= 0 }

  ghost predicate Leq(c: Clock, d: Clock) { forall u :: Get(c, u) <= Get(d, u) }

  lemma {:induction false} PositiveKept(c: Clock, d: Clock, u: string)
    requires Positive(c) && Positive(d)
    ensures Positive(Incremented(c, u)) && Positive(Merged(c, d))
  {
    forall w | w in Merged(c, d) ensures Merged(c, d)[w] > 0 {
      assert w in c || w in d;
    }
  }

  // What the comparison's flags mean on counts.
  lemma {:induction false} FlagsMean(c: Clock, d: Clock)
    requires NonNegative(c) && NonNegative(d)
    ensures Exceeds(c, d) <==> !Leq(c, d)
    ensures FallsShort(c, d) <==> !Leq(d, c)
  {
    if u :| Get(c, u) > Get(d, u) {
      assert u in c && c[u] > Get(d, u);
    }
    if u :| Get(d, u) > Get(c, u) {
      assert u in d;
      if u in c { assert c[u] < Get(d, u); }
    }
    if Exceeds(c, d) {
      var u :| u in c && c[u] > Get(d, u);
      assert Get(c, u) > Get(d, u);
    }
    if FallsShort(c, d) {
      if u :| u in c && c[u] < Get(d, u) {
        assert Get(c, u) < Get(d, u);
      } else {
        var u :| u in d && u !in c && d[u] > 0;
        assert Get(c, u) < Get(d, u);
      }
    }
  }

  /** The comparison is the pointwise order of the counts. */
  lemma {:induction false} ComparedMeans(c: Clock, d: Clock)
    requires NonNegative(c) && NonNegative(d)
    ensures Compared(c, d) == -1 <==> Leq(c, d) && !Leq(d, c)
    ensures Compared(c, d) == 1 <==> Leq(d, c) && !Leq(c, d)
    ensures Compared(c, d) == 0 <==> (Leq(c, d) <==> Leq(d, c))
  {
    FlagsMean(c, d);
  }

  /** "Before" is a strict partial order, and "after" is its converse. */
  lemma {:induction false} BeforeIsStrictOrder(c: Clock, d: Clock, e: Clock)
    requires NonNegative(c) && NonNegative(d) && NonNegative(e)
    ensures Compared(c, c) == 0
    ensures Compared(c, d) == -1 <==> Compared(d, c) == 1
    ensures Compared(c, d) == -1 && Compared(d, e) == -1 ==> Compared(c, e) == -1
  {
    ComparedMeans(c, c);
    ComparedMeans(c, d);
    ComparedMeans(d, c);
    ComparedMeans(d, e);
    ComparedMeans(c, e);
    if Leq(c, d) && Leq(d, e) {
      forall u ensures Get(c, u) <= Get(e, u) {
        assert Get(c, u) <= Get(d, u) <= Get(e, u);
      }
      if !Leq(d, c) {
        var u :| Get(d, u) > Get(c, u);
        assert Get(c, u) < Get(e, u);
      }
    }
  }

  lemma {:induction false} MergedGet(c: Clock, d: Clock, u: string)
    requires NonNegative(c) && NonNegative(d)
    ensures Get(Merged(c, d), u) == Max(Get(c, u), Get(d, u))
  {
  }

  /** Merging yields the least clock above both. */
  lemma {:induction false} MergedIsLeastUpperBound(c: Clock, d: Clock, e: Clock)
    requires NonNegative(c) && NonNegative(d)
    ensures Leq(c, Merged(c, d)) && Leq(d, Merged(c, d))
    ensures Leq(c, e) && Leq(d, e) ==> Leq(Merged(c, d), e)
  {
    forall u
      ensures Get(c, u) <= Get(Merged(c, d), u) && Get(d, u) <= Get(Merged(c, d), u)
      ensures Leq(c, e) && Leq(d, e) ==> Get(Merged(c, d), u) <= Get(e, u)
    {
      MergedGet(c, d, u);
      if Leq(c, e) && Leq(d, e) { assert Get(c, u) <= Get(e, u) && Get(d, u) <= Get(e, u); }
    }
  }

  // Two clocks over the same users with the same counts are one clock.
  lemma {:induction false} SameClock(c: Clock, d: Clock)
    requires c.Keys == d.Keys && forall u :: u in c ==> Get(c, u) == Get(d, u)
    ensures c == d
  {
    forall u | u in c ensures c[u] == d[u] {
      assert Get(c, u) == Get(d, u);
    }
  }

  /** The order in which clocks are merged, and merging one twice, make no difference. */
  lemma {:induction false} MergeOrder(c: Clock, d: Clock, e: Clock)
    requires NonNegative(c) && NonNegative(d) && NonNegative(e)
    ensures Merged(c, d) == Merged(d, c)
    ensures Merged(c, c) == c
    ensures Merged(Merged(c, d), e) == Merged(c, Merged(d, e))
  {
    forall u ensures Get(Merged(c, d), u) == Get(Merged(d, c), u) && Get(Merged(c, c), u) == Get(c, u) {
      MergedGet(c, d, u);
      MergedGet(d, c, u);
      MergedGet(c, c, u);
    }
    SameClock(Merged(c, d), Merged(d, c));
    SameClock(Merged(c, c), c);
    MergeAssociates(c, d, e);
  }

  lemma {:induction false} MergeAssociates(c: Clock, d: Clock, e: Clock)
    requires NonNegative(c) && NonNegative(d) && NonNegative(e)
    ensures Merged(Merged(c, d), e) == Merged(c, Merged(d, e))
  {
    forall u ensures Get(Merged(Merged(c, d), e), u) == Get(Merged(c, Merged(d, e)), u) {
      MergedGet(c, d, u);
      MergedGet(d, e, u);
      MergedGet(Merged(c, d), e, u);
      MergedGet(c, Merged(d, e), u);
    }
    SameClock(Merged(Merged(c, d), e), Merged(c, Merged(d, e)));
  }

  // What incrementing and merging do to each count, whatever the counts are.
  lemma {:induction false} IncrementedCounts(c: Clock, u: string, w: string)
    ensures Get(Incremented(c, u), w) == Get(c, w) + if w == u then 1 else 0
    ensures w in Incremented(c, u) <==> w in c || w == u
  {
  }

  lemma {:induction false} MergedCounts(c: Clock, d: Clock, u: string)
    ensures u in Merged(c, d) <==> u in c || u in d
    ensures u in d ==> Get(Merged(c, d), u) >= Get(c, u) && Get(Merged(c, d), u) >= Get(d, u)
    ensures u in d ==> Get(Merged(c, d), u) == Get(c, u) || Get(Merged(c, d), u) == Get(d, u)
    ensures u !in d ==> Get(Merged(c, d), u) == Get(c, u)
  {
  }

  // What the two comparisons find, whatever the counts are.
  lemma {:induction false} ComparisonsFind(c: Clock, d: Clock)
    ensures var above, below := exists u :: u in c && Get(c, u) > Get(d, u), exists u :: Get(c, u) < Get(d, u);
            && (Compared(c, d) == 1 <==> above && !below) && (Compared(c, d) == -1 <==> below && !above)
            && -1 <= Compared(c, d) <= 1
    ensures var above, below := exists u :: u in c && (Get(d, u) == 0 || Get(c, u) > Get(d, u)),
                                exists u :: (u in d && Get(c, u) == 0) ||
                                            (u in c && Get(d, u) != 0 && Get(c, u) < Get(d, u));
            && (DetectorCompared(c, d) == 1 <==> above && !below)
            && (DetectorCompared(c, d) == -1 <==> below && !above) && -1 <= DetectorCompared(c, d) <= 1
  {
    ExceedsFinds(c, d);
    FallsShortFinds(c, d);
    DetectorFinds(c, d);
  }

  lemma {:induction false} ExceedsFinds(c: Clock, d: Clock)
    ensures Exceeds(c, d) <==> exists u :: u in c && Get(c, u) > Get(d, u)
  {
    if Exceeds(c, d) {
      var u :| u in c && c[u] > Get(d, u);
      assert Get(c, u) > Get(d, u);
    }
    if u :| u in c && Get(c, u) > Get(d, u) {
      assert c[u] > Get(d, u);
    }
  }

  lemma {:induction false} FallsShortFinds(c: Clock, d: Clock)
    ensures FallsShort(c, d) <==> exists u :: Get(c, u) < Get(d, u)
  {
    if u :| Get(c, u) < Get(d, u) {
      assert if u in c then c[u] < Get(d, u) else u in d && d[u] > 0;
    }
    if FallsShort(c, d) {
      var u :| (u in c && c[u] < Get(d, u)) || (u in d && u !in c && d[u] > 0);
      assert Get(c, u) < Get(d, u);
    }
  }

  lemma {:induction false} DetectorFinds(c: Clock, d: Clock)
    ensures DetectorExceeds(c, d) <==> exists u :: u in c && (Get(d, u) == 0 || Get(c, u) > Get(d, u))
    ensures DetectorFallsShort(c, d) <==>
              exists u :: (u in d && Get(c, u) == 0) || (u in c && Get(d, u) != 0 && Get(c, u) < Get(d, u))
  {
    if u :| u in c && (Get(d, u) == 0 || Get(c, u) > Get(d, u)) {
      assert Get(d, u) == 0 || c[u] > d[u];
    }
    if DetectorExceeds(c, d) {
      var u :| u in c && (Get(d, u) == 0 || c[u] > d[u]);
      assert Get(d, u) == 0 || Get(c, u) > Get(d, u);
    }
    if u :| (u in d && Get(c, u) == 0) || (u in c && Get(d, u) != 0 && Get(c, u) < Get(d, u)) {
      assert (u in d && Get(c, u) == 0) || (u in c && Get(d, u) != 0 && c[u] < d[u]);
    }
    if DetectorFallsShort(c, d) {
      var u :| (u in c && Get(d, u) != 0 && c[u] < d[u]) || (u in d && Get(c, u) == 0);
      assert (u in d && Get(c, u) == 0) || (u in c && Get(d, u) != 0 && Get(c, u) < Get(d, u));
    }
  }

  // What the detector's flags mean on counts: a zero entry the other clock does not count exceeds it.
  lemma {:induction false} DetectorFlagsMean(c: Clock, d: Clock)
    requires NonNegative(c) && NonNegative(d)
    ensures DetectorExceeds(c, d) <==> !Leq(c, d) || exists u :: u in c && c[u] == 0 && Get(d, u) == 0
    ensures DetectorFallsShort(c, d) <==> !Leq(d, c) || exists u :: u in d && d[u] == 0 && Get(c, u) == 0
  {
    DetectorExceedsMeans(c, d);
    DetectorExceedsMeans(d, c);
    FallsShortIsExceeded(c, d);
  }

  lemma {:induction false} DetectorExceedsMeans(c: Clock, d: Clock)
    requires NonNegative(c) && NonNegative(d)
    ensures DetectorExceeds(c, d) <==> !Leq(c, d) || exists u :: u in c && c[u] == 0 && Get(d, u) == 0
  {
    if DetectorExceeds(c, d) {
      var u :| u in c && (Get(d, u) == 0 || c[u] > d[u]);
      assert Get(c, u) > Get(d, u) || (c[u] == 0 && Get(d, u) == 0);
    }
    if !Leq(c, d) {
      var u :| Get(c, u) > Get(d, u);
      assert u in c && (Get(d, u) == 0 || c[u] > d[u]);
    }
  }

  lemma {:induction false} FallsShortIsExceeded(c: Clock, d: Clock)
    requires NonNegative(c) && NonNegative(d)
    ensures DetectorFallsShort(c, d) == DetectorExceeds(d, c)
  {
    if DetectorFallsShort(c, d) {
      var u :| (u in c && Get(d, u) != 0 && c[u] < d[u]) || (u in d && Get(c, u) == 0);
      assert u in d && (Get(c, u) == 0 || d[u] > c[u]);
    }
    if DetectorExceeds(d, c) {
      var u :| u in d && (Get(c, u) == 0 || d[u] > c[u]);
      assert Get(c, u) != 0 ==> u in c && Get(d, u) != 0 && c[u] < d[u];
    }
  }

  /** The detector's comparison and the clock's own agree on every clock that counts only upwards. */
  lemma {:induction false} ComparisonsAgree(c: Clock, d: Clock)
    requires Positive(c) && Positive(d)
    ensures DetectorCompared(c, d) == Compared(c, d)
  {
    if DetectorExceeds(c, d) {
      var u :| u in c && (Get(d, u) == 0 || c[u] > d[u]);
      assert c[u] > Get(d, u);
    }
    if Exceeds(c, d) {
      var u :| u in c && c[u] > Get(d, u);
      assert Get(d, u) == 0 || c[u] > d[u];
    }
    if DetectorFallsShort(c, d) {
      if u :| u in c && Get(d, u) != 0 && c[u] < d[u] {
        assert c[u] < Get(d, u);
      } else {
        var u :| u in d && Get(c, u) == 0;
        assert u !in c && d[u] > 0;
      }
    }
    if FallsShort(c, d) {
      if u :| u in c && c[u] < Get(d, u) {
        assert Get(d, u) != 0 && c[u] < d[u];
      } else {
        var u :| u in d && u !in c && d[u] > 0;
        assert Get(c, u) == 0;
      }
    }
  }

  // A count of 0, which no run produces, is enough to set the two apart.
  lemma {:induction false} ZeroCountSetsThemApart()
    ensures var c: Clock, d: Clock := map["a" := 0], map[];
            Compared(c, d) == 0 && DetectorCompared(c, d) == 1
  {
    var c: Clock, d: Clock := map["a" := 0], map[];
    assert "a" in c && Get(d, "a") == 0;
  }
}

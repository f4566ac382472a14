/** How entries are grouped and merged, told from the entries themselves, and what each result means. */
module AggregationGroups {
  import opened AggregationMeaning
  import opened Bounds
  import opened CommandAggregator
  import opened Options

  // The sorted entries, cut where one does not merge with the first of its group.
  function GroupsOf(entries: seq<Entry>, d: nat): seq<seq<Entry>> {
    if entries == [] then []
    else
      var sorted := Sorted(entries, false);
      Groups([sorted[0]], sorted[1..], d)
  }

  // Place by place, and all but the last take one character.
  predicate Rising(group: seq<Entry>)
    requires AllDeletes(group)
  {
    && (forall i :: 0 <= i < |group| ==> Position(group[i]) == Position(group[0]) + i)
    && (forall i :: 0 <= i < |group| - 1 ==> group[i].command.length == 1)
  }

  // Each insertion starts no further than d before or behind where the one before it ends.
  predicate NearEnough(group: seq<Entry>, d: nat)
    requires AllInserts(group)
  {
    forall i :: 1 <= i < |group| ==> Position(group[i]) <= End(group[i - 1]) + d &&
                                     End(group[i - 1]) <= Position(group[i]) + d
  }

  predicate Mergeable(group: seq<Entry>, d: nat) {
    |group| <= 1 || (AllInserts(group) && NearEnough(group, d)) || (AllDeletes(group) && Rising(group))
  }

  // ---- Sorting what is sorted ----

  lemma {:induction false} PlacedFirst(e: Entry, entries: seq<Entry>)
    requires forall i :: 0 <= i < |entries| ==> Position(e) <= Position(entries[i])
    ensures Placed(e, entries, false) == [e] + entries
  {
  }

  lemma {:induction false} SortedStays(entries: seq<Entry>)
    requires InOrder(entries, false)
    ensures Sorted(entries, false) == entries
    decreases |entries|
  {
    if entries != [] {
      assert forall i :: 0 <= i < |entries[1..]| ==> entries[1..][i] == entries[i + 1];
      SortedStays(entries[1..]);
      PlacedFirst(entries[0], entries[1..]);
    }
  }

  /** Sorting leaves entries as they are exactly when they come in position order. */
  lemma {:induction false} SortedStaysIff(entries: seq<Entry>)
    ensures Sorted(entries, false) == entries <==> InOrder(entries, false)
  {
    SortedInOrder(entries, false);
    if InOrder(entries, false) {
      SortedStays(entries);
    }
  }

  // The entries at one position, in order.
  function AtPosition(entries: seq<Entry>, p: nat): seq<Entry> {
    if entries == [] then []
    else OneAt(entries[0], p) + AtPosition(entries[1..], p)
  }

  function OneAt(e: Entry, p: nat): seq<Entry> { if Position(e) == p then [e] else [] }

  lemma {:induction false} AtPositionNext(e: Entry, entries: seq<Entry>, p: nat)
    ensures AtPosition([e] + entries, p) == OneAt(e, p) + AtPosition(entries, p)
  {
    assert ([e] + entries)[1..] == entries;
  }

  lemma {:induction false} Exchanged(a: seq<Entry>, b: seq<Entry>, c: seq<Entry>)
    requires a == [] || b == []
    ensures a + (b + c) == b + (a + c)
  {
  }

  lemma {:induction false} PlacedBeforeTies(e: Entry, entries: seq<Entry>, descending: bool, p: nat)
    requires InOrder(entries, descending)
    ensures AtPosition(Placed(e, entries, descending), p) == OneAt(e, p) + AtPosition(entries, p)
    decreases |entries|
  {
    if entries == [] || (if descending then Position(entries[0]) <= Position(e)
                         else Position(e) <= Position(entries[0])) {
      AtPositionNext(e, entries, p);
    } else {
      PlacedBeforeTies(e, entries[1..], descending, p);
      AtPositionNext(entries[0], Placed(e, entries[1..], descending), p);
      Exchanged(OneAt(entries[0], p), OneAt(e, p), AtPosition(entries[1..], p));
    }
  }

  /** Sorting, either way, leaves entries at one position in their order of arrival. */
  lemma {:induction false} SortedKeepsTies(entries: seq<Entry>, descending: bool, p: nat)
    ensures AtPosition(Sorted(entries, descending), p) == AtPosition(entries, p)
    decreases |entries|
  {
    if entries != [] {
      SortedKeepsTies(entries[1..], descending, p);
      SortedInOrder(entries[1..], descending);
      PlacedBeforeTies(entries[0], Sorted(entries[1..], descending), descending, p);
    }
  }

  lemma {:induction false} FirstInOrder(entries: seq<Entry>, descending: bool, p: nat)
    requires InOrder(entries, descending) && AtPosition(entries, p) != []
    ensures entries != [] && if descending then p <= Position(entries[0]) else Position(entries[0]) <= p
    decreases |entries|
  {
    if entries != [] && Position(entries[0]) != p {
      assert forall i :: 0 <= i < |entries[1..]| ==> entries[1..][i] == entries[i + 1];
      FirstInOrder(entries[1..], descending, p);
      assert entries[1..][0] == entries[1];
    }
  }

  // Two lists in order with the same entries at every position are one list.
  lemma {:induction false} OrderDetermines(xs: seq<Entry>, ys: seq<Entry>, descending: bool)
    requires InOrder(xs, descending) && InOrder(ys, descending)
    requires forall p: nat :: AtPosition(xs, p) == AtPosition(ys, p)
    ensures xs == ys
    decreases |xs|
  {
    if xs == [] {
      if ys != [] {
        assert AtPosition(ys, Position(ys[0])) == AtPosition(xs, Position(ys[0]));
        assert false;
      }
    } else {
      SameFirst(xs, ys, descending);
      forall p: nat ensures AtPosition(xs[1..], p) == AtPosition(ys[1..], p) {
        assert AtPosition(xs, p) == AtPosition(ys, p);
        assert AtPosition(xs[1..], p) == AtPosition(xs, p)[|OneAt(xs[0], p)|..];
        assert AtPosition(ys[1..], p) == AtPosition(ys, p)[|OneAt(ys[0], p)|..];
      }
      OrderDetermines(xs[1..], ys[1..], descending);
    }
  }

  lemma {:induction false} SameFirst(xs: seq<Entry>, ys: seq<Entry>, descending: bool)
    requires InOrder(xs, descending) && InOrder(ys, descending) && xs != []
    requires forall p: nat :: AtPosition(xs, p) == AtPosition(ys, p)
    ensures ys != [] && ys[0] == xs[0]
  {
    var p := Position(xs[0]);
    assert AtPosition(xs, p)[0] == xs[0];
    FirstInOrder(ys, descending, p);
    var q := Position(ys[0]);
    assert AtPosition(xs, q) == AtPosition(ys, q) && AtPosition(ys, q)[0] == ys[0];
    FirstInOrder(xs, descending, q);
  }

  /** The sorted list is the only one that is in order and leaves entries at one position as they came. */
  lemma {:induction false} SortedIsOnlyOne(entries: seq<Entry>, descending: bool, list: seq<Entry>)
    requires InOrder(list, descending) && forall p: nat :: AtPosition(list, p) == AtPosition(entries, p)
    ensures list == Sorted(entries, descending)
  {
    SortedInOrder(entries, descending);
    forall p: nat ensures AtPosition(list, p) == AtPosition(Sorted(entries, descending), p) {
      SortedKeepsTies(entries, descending, p);
    }
    OrderDetermines(list, Sorted(entries, descending), descending);
  }

  // Sorting downwards what was sorted upwards is sorting downwards.
  lemma {:induction false} SortedTwice(entries: seq<Entry>)
    ensures Sorted(Sorted(entries, false), false) == Sorted(entries, false)
    ensures Sorted(Sorted(entries, false), true) == Sorted(entries, true)
  {
    SortedInOrder(entries, false);
    SortedStaysIff(Sorted(entries, false));
    SortedInOrder(entries, true);
    forall p: nat ensures AtPosition(Sorted(entries, true), p) == AtPosition(Sorted(entries, false), p) {
      SortedKeepsTies(entries, true, p);
      SortedKeepsTies(entries, false, p);
    }
    SortedIsOnlyOne(Sorted(entries, false), true, Sorted(entries, true));
  }

  /** Merging sorts first: entries in any order are merged into what they are merged into in position order. */
  lemma {:induction false} MergingSorts(entries: seq<Entry>, d: nat)
    ensures AllInserts(entries) ==>
              MergedInserts(entries, d).command == MergedInserts(Sorted(entries, false), d).command
    ensures AllDeletes(entries) ==> MergedDeletes(entries).command == MergedDeletes(Sorted(entries, false)).command
  {
    SortedTwice(entries);
  }

  /** Where a command counts as being: a command of another kind at its place, or at the start if it has none. */
  lemma {:induction false} PositionIs(e: Entry)
    ensures e.command.InsertText? || e.command.DeleteText? ==> Position(e) == e.command.position
    ensures e.command.Other? ==> Position(e) == if e.command.place == None then 0 else e.command.place.value
  {
  }

  /** Two entries are put in one section exactly when they name the same one, or neither names one but the default. */
  lemma {:induction false} SectionsIff(a: Entry, b: Entry)
    ensures SectionOf(a) == SectionOf(b) <==>
              || a.sectionId == b.sectionId
              || (a.sectionId in {None, Some(""), Some("default")} && b.sectionId in {None, Some(""), Some("default")})
    ensures a.sectionId.Some? && a.sectionId.value != "" ==> SectionOf(a) == a.sectionId.value
  {
  }

  // An entry no higher than any other goes after all that are higher.
  lemma {:induction false} PlacedLowest(e: Entry, entries: seq<Entry>) returns (k: nat)
    requires InOrder(entries, true) && forall i :: 0 <= i < |entries| ==> Position(e) <= Position(entries[i])
    ensures k <= |entries| && Placed(e, entries, true) == entries[..k] + [e] + entries[k..]
    ensures k < |entries| ==> Position(entries[k]) == Position(e)
    decreases |entries|
  {
    if entries == [] || Position(entries[0]) <= Position(e) {
      k := 0;
    } else {
      k := PlacedLowest(e, entries[1..]);
      assert entries[..k + 1] == [entries[0]] + entries[1..][..k];
      k := k + 1;
    }
  }

  lemma {:induction false} LastBackspaceIff(e: Entry, entries: seq<Entry>, longer: seq<Entry>)
    requires entries != [] && AllDeletes(entries) && e.command.DeleteText? && longer == entries + [e]
    ensures AllDeletes(longer)
    ensures Backspaces(longer) <==>
              && Backspaces(entries)
              && e.command.length == 1 && Position(entries[|entries| - 1]) == Position(e) + 1
  {
    var n := |entries|;
    assert longer[n] == e && longer[n - 1] == entries[n - 1];
    assert forall i :: 0 <= i < n ==> longer[i] == entries[i];
    if Backspaces(longer) {
      assert forall i :: 1 <= i < n ==>
          entries[i].command.length == 1 && Position(entries[i]) == Position(entries[i - 1]) - 1;
      assert longer[n].command.length == 1 && Position(longer[n]) == Position(longer[n - 1]) - 1;
    }
  }

  lemma {:induction false} LowestBackspacesIff(e: Entry, entries: seq<Entry>, placed: seq<Entry>)
    requires entries != [] && InOrder(entries, true) && AllDeletes(entries) && e.command.DeleteText?
    requires forall i :: 0 <= i < |entries| ==> Position(e) <= Position(entries[i])
    requires placed == Placed(e, entries, true)
    ensures AllDeletes(placed) && placed != []
    ensures Backspaces(placed) <==>
              && Backspaces(entries)
              && e.command.length == 1 && Position(entries[|entries| - 1]) == Position(e) + 1
    ensures Backspaces(placed) ==> placed == entries + [e]
  {
    var k := PlacedLowest(e, entries);
    if k < |entries| {
      assert placed[k] == e && placed[k + 1] == entries[k];
      assert Position(entries[|entries| - 1]) <= Position(entries[k]);
    } else {
      assert placed == entries + [e];
      LastBackspaceIff(e, entries, placed);
    }
  }

  function Reversed(entries: seq<Entry>): (r: seq<Entry>)
    ensures |r| == |entries|
  {
    if entries == [] then [] else Reversed(entries[1..]) + [entries[0]]
  }

  lemma {:induction false} ReversedEnds(entries: seq<Entry>)
    requires entries != []
    ensures Reversed(entries)[0] == entries[|entries| - 1] && Reversed(entries)[|entries| - 1] == entries[0]
    decreases |entries|
  {
    if |entries| > 1 {
      ReversedEnds(entries[1..]);
    }
  }

  // Downwards the deletions are backspaces exactly when upwards each takes the character before the next.
  lemma {:induction false} RisingBackspacesIff(group: seq<Entry>)
    requires group != [] && AllDeletes(group) && InOrder(group, false)
    ensures var sorted := Sorted(group, true);
            AllDeletes(sorted) && (Backspaces(sorted) <==> Rising(group))
    ensures Rising(group) ==> Sorted(group, true) == Reversed(group)
    decreases |group|
  {
    var rest := group[1..];
    if rest == [] {
      assert Sorted(rest, true) == [] && Reversed(rest) == [];
    } else {
      RisingBackspacesIff(rest);
      SortedInOrder(rest, true);
      SortedPermutes(rest, true);
      var lower := Sorted(rest, true);
      HigherThanFirst(group, lower);
      LowestBackspacesIff(group[0], lower, Sorted(group, true));
      RisingNext(group);
      if Rising(rest) {
        ReversedEnds(rest);
      }
    }
  }

  lemma {:induction false} RisingNext(group: seq<Entry>)
    requires |group| > 1 && AllDeletes(group)
    ensures Rising(group) <==>
              Rising(group[1..]) && group[0].command.length == 1 && Position(group[1]) == Position(group[0]) + 1
  {
    assert forall i :: 1 <= i < |group| ==> group[i] == group[1..][i - 1];
    assert forall i :: 0 <= i < |group[1..]| ==> group[1..][i] == group[i + 1];
  }

  lemma {:induction false} HigherThanFirst(group: seq<Entry>, others: seq<Entry>)
    requires group != [] && InOrder(group, false) && multiset(others) == multiset(group[1..])
    ensures forall i :: 0 <= i < |others| ==> Position(group[0]) <= Position(others[i])
  {
    forall i | 0 <= i < |others| ensures Position(group[0]) <= Position(others[i]) {
      assert others[i] in multiset(group[1..]);
      var j :| 0 <= j < |group[1..]| && group[1..][j] == others[i];
    }
  }

  // ---- Groups ----

  lemma {:induction false} AdjacentIff(group: seq<Entry>, d: nat)
    requires AllInserts(group)
    ensures Adjacent(group, d) <==> NearEnough(group, d)
  {
  }

  lemma {:induction false} InsertionsMergeIff(group: seq<Entry>, d: nat)
    requires InOrder(group, false) && AllInserts(group)
    ensures MergedInserts(group, d).command.Some? <==> |group| >= 2 && NearEnough(group, d)
  {
    SortedStaysIff(group);
    AdjacentIff(group, d);
  }

  lemma {:induction false} DeletionsMergeIff(group: seq<Entry>)
    requires InOrder(group, false) && AllDeletes(group) && group != []
    ensures MergedDeletes(group).command.Some? <==> |group| >= 2 && Rising(group)
  {
    RisingBackspacesIff(group);
  }

  // A group is merged exactly when it is such a run.
  lemma {:induction false} GroupMergesIff(group: seq<Entry>, d: nat)
    requires Group(group, d) && InOrder(group, false)
    ensures Merged(group, d).command.Some? || |group| <= 1 <==> Mergeable(group, d)
  {
    if AllInserts(group) {
      InsertionsMergeIff(group, d);
    } else if AllDeletes(group) {
      DeletionsMergeIff(group);
    }
  }

  ghost predicate Parts(groups: seq<seq<Entry>>, d: nat) {
    forall i :: 0 <= i < |groups| ==> Group(groups[i], d) && InOrder(groups[i], false)
  }

  // The two are told to be of one section only when both name one.
  predicate SectionsAllow(a: Entry, b: Entry) {
    a.sectionId.None? || a.sectionId.value == "" || b.sectionId.None? || b.sectionId.value == "" ||
    a.sectionId.value == b.sectionId.value
  }

  // An entry joins a group that starts with the first one: an insertion no further than d from where the first
  // one starts, a deletion no further than one from where the first one ends.
  predicate Joins(first: Entry, e: Entry, d: nat) {
    && first.command.documentId == e.command.documentId && first.command.userId == e.command.userId
    && SectionsAllow(first, e)
    && ((first.command.InsertText? && e.command.InsertText? &&
         e.command.position <= first.command.position + d && first.command.position <= e.command.position + d)
        || (first.command.DeleteText? && e.command.DeleteText? &&
            var end := first.command.position + first.command.length;
            (e.command.position == end || e.command.position == end + 1 || e.command.position + 1 == end)))
  }

  lemma {:induction false} CanMergeIff(first: Entry, e: Entry, d: nat)
    ensures CanMerge(first, e, d) <==> Joins(first, e, d)
  {
  }

  // The k-th group had to be begun.
  predicate Begun(groups: seq<seq<Entry>>, d: nat, k: nat)
    requires 0 < k < |groups|
  {
    groups[k] != [] && groups[k - 1] != [] && !CanMerge(groups[k - 1][0], groups[k][0], d)
  }

  lemma {:induction false} GroupsAreMaximal(group: seq<Entry>, rest: seq<Entry>, d: nat)
    requires group != []
    ensures var groups := Groups(group, rest, d);
            && groups != [] && groups[0] != [] && groups[0][0] == group[0]
            && forall k :: 0 < k < |groups| ==> Begun(groups, d, k)
    decreases |rest|
  {
    if rest != [] {
      if CanMerge(group[0], rest[0], d) {
        GroupsAreMaximal(group + [rest[0]], rest[1..], d);
      } else {
        var later := Groups([rest[0]], rest[1..], d);
        var groups := [group] + later;
        GroupsAreMaximal([rest[0]], rest[1..], d);
        forall k | 0 < k < |groups| ensures Begun(groups, d, k) {
          assert k > 1 ==> Begun(later, d, k - 1);
        }
      }
    }
  }

  /**
   * The results' groups are cut exactly where they must be: every entry of a group joins its first one, and
   * the first of each group does not join the first of the group before it.
   */
  lemma {:induction false} ResultsAreCut(entries: seq<Entry>, d: nat)
    ensures var results := Aggregated(entries, d);
            && (forall k, i :: 0 <= k < |results| && 1 <= i < |results[k].originalCommands| ==>
                  Joins(results[k].originalCommands[0], results[k].originalCommands[i], d))
            && (forall k :: 0 <= k < |results| ==> results[k].originalCommands != [])
            && (forall k :: 0 < k < |results| ==>
                  !Joins(results[k - 1].originalCommands[0], results[k].originalCommands[0], d))
  {
    var groups, results := GroupsOf(entries, d), Aggregated(entries, d);
    ResultsOfGroups(entries, d);
    MergedAllAt(groups, d);
    assert forall k :: 0 <= k < |results| ==> results[k].originalCommands == groups[k] && Group(groups[k], d);
    forall k, i | 0 <= k < |groups| && 1 <= i < |groups[k]| ensures Joins(groups[k][0], groups[k][i], d) {
      CanMergeIff(groups[k][0], groups[k][i], d);
    }
    if entries != [] {
      var sorted := Sorted(entries, false);
      GroupsAreMaximal([sorted[0]], sorted[1..], d);
      forall k | 0 < k < |groups| ensures !Joins(groups[k - 1][0], groups[k][0], d) {
        assert Begun(groups, d, k);
        CanMergeIff(groups[k - 1][0], groups[k][0], d);
      }
    }
  }

  lemma {:induction false} InOrderSplit(group: seq<Entry>, rest: seq<Entry>)
    requires InOrder(group + rest, false)
    ensures InOrder(group, false) && InOrder(rest, false)
  {
    var all := group + rest;
    assert forall i :: 0 <= i < |group| ==> group[i] == all[i];
    assert forall i :: 0 <= i < |rest| ==> rest[i] == all[|group| + i];
  }

  lemma {:induction false} GroupsAreParts(group: seq<Entry>, rest: seq<Entry>, d: nat)
    requires Group(group, d) && InOrder(group + rest, false)
    ensures Parts(Groups(group, rest, d), d)
    decreases |rest|
  {
    InOrderSplit(group, rest);
    if rest != [] {
      var e, later := rest[0], rest[1..];
      assert rest == [e] + later && group + rest == (group + [e]) + later;
      if CanMerge(group[0], e, d) {
        GroupsAreParts(group + [e], later, d);
      } else {
        GroupsAreParts([e], later, d);
      }
    }
  }

  lemma {:induction false} MergedAllAt(groups: seq<seq<Entry>>, d: nat)
    ensures |MergedAll(groups, d)| == |groups|
    ensures forall i :: 0 <= i < |groups| ==> MergedAll(groups, d)[i] == Merged(groups[i], d)
    decreases |groups|
  {
    if groups != [] {
      MergedAllAt(groups[1..], d);
      assert forall i :: 0 < i < |groups| ==> groups[i] == groups[1..][i - 1];
    }
  }

  lemma {:induction false} ResultsOfGroups(entries: seq<Entry>, d: nat)
    ensures Parts(GroupsOf(entries, d), d)
    ensures Aggregated(entries, d) == MergedAll(GroupsOf(entries, d), d)
  {
    if entries != [] {
      var sorted := Sorted(entries, false);
      SortedInOrder(entries, false);
      assert [sorted[0]] + sorted[1..] == sorted;
      GroupsAreParts([sorted[0]], sorted[1..], d);
      if |entries| == 1 {
        assert sorted[0] in sorted && sorted == entries == [sorted[0]] && sorted[1..] == [];
        MergedAllAt([entries], d);
      }
    }
  }

  /**
   * Executing the results brings the effect of every entry exactly when each group of two or more is a run
   * of insertions near enough to one another or a run of deletions of one character each, place by place,
   * the last of any length.
   */
  lemma {:induction false} ExecutionConservesIff(entries: seq<Entry>, d: nat)
    ensures multiset(CarriedAll(Aggregated(entries, d))) == multiset(entries)
       <==> forall i :: 0 <= i < |GroupsOf(entries, d)| ==> Mergeable(GroupsOf(entries, d)[i], d)
  {
    var groups, results := GroupsOf(entries, d), Aggregated(entries, d);
    ConservedWhenWhole(entries, d);
    ResultsOfGroups(entries, d);
    MergedAllAt(groups, d);
    forall i | 0 <= i < |groups|
      ensures results[i].command.Some? || |results[i].originalCommands| <= 1 <==> Mergeable(groups[i], d)
    {
      GroupMergesIff(groups[i], d);
    }
  }

  // ---- What each result means ----

  // A deletion merges only with places at most one from where the first one ends, so a run is short.
  lemma {:induction false} DeletionGroupIsShort(group: seq<Entry>, d: nat)
    requires Group(group, d) && AllDeletes(group) && Rising(group)
    ensures |group| <= 3
  {
    assert |group| > 3 ==> CanMerge(group[0], group[3], d);
  }

  // The merged insertion puts what the group puts in position order.
  predicate InsertsAsTyped(text: string, group: seq<Entry>)
    requires group != [] && AllInserts(group)
  {
    TypedText(group, |group|, Min(Position(group[0]), |text|)) == MergedText(group, |group|)
  }

  // The highest deletion takes no more and no less of the text than one character.
  predicate LastTakesOne(text: string, group: seq<Entry>)
    requires group != [] && AllDeletes(group)
  {
    var last := group[|group| - 1].command;
    Min(last.position + last.length, |text|) == Min(last.position + 1, |text|)
  }

  lemma {:induction false} InsertionGroupMeans(text: string, group: seq<Entry>, d: nat)
    requires InOrder(group, false) && AllInserts(group) && MergedInserts(group, d).command.Some?
    ensures After(text, MergedInserts(group, d).command.value) == Executed(text, group, |group|)
       <==> InsertsAsTyped(text, group)
  {
    SortedStaysIff(group);
    MergedInsertsIff(text, group, d);
  }

  lemma {:induction false} DeletionGroupMeans(text: string, group: seq<Entry>)
    requires InOrder(group, false) && AllDeletes(group) && MergedDeletes(group).command.Some?
    ensures Rising(group) && AllDeletes(Reversed(group))
    ensures After(text, MergedDeletes(group).command.value) == Executed(text, Reversed(group), |group|)
       <==> LastTakesOne(text, group)
  {
    RisingBackspacesIff(group);
    ReversedEnds(group);
    MergedDeletesIff(text, group);
  }

  /**
   * Every merged command among the results: it stands for insertions and means what they mean in position
   * order exactly when their own positions put the merged text together; or it stands for two or three
   * deletions and means what they mean from the highest down exactly when the highest takes one character.
   */
  lemma {:induction false} ResultMeansIff(text: string, entries: seq<Entry>, d: nat, k: nat)
    requires k < |Aggregated(entries, d)| && Aggregated(entries, d)[k].command.Some?
    ensures var r := Aggregated(entries, d)[k];
            var group := r.originalCommands;
            && |group| >= 2
            && if AllInserts(group) then
                 r.command.value.InsertText? &&
                 (After(text, r.command.value) == Executed(text, group, |group|) <==> InsertsAsTyped(text, group))
               else
                 && AllDeletes(group) && AllDeletes(Reversed(group)) && |group| <= 3 && r.command.value.DeleteText?
                 && (After(text, r.command.value) == Executed(text, Reversed(group), |group|)
                     <==> LastTakesOne(text, group))
  {
    ResultsOfGroups(entries, d);
    MergedAllAt(GroupsOf(entries, d), d);
    var group := GroupsOf(entries, d)[k];
    if AllInserts(group) {
      InsertionGroupMeans(text, group, d);
    } else {
      DeletionGroupMeans(text, group);
      DeletionGroupIsShort(group, d);
    }
  }

  // Where the n-th text of a merged run starts: behind the ones before it and the blanks for the gaps.
  function Offset(group: seq<Entry>, n: nat): nat
    requires AllInserts(group) && n < |group|
  {
    if n == 0 then 0
    else
      var before, e := group[n - 1].command, group[n].command;
      Offset(group, n - 1) + |before.text| + Max(0, e.position - (before.position + |before.text|))
  }

  lemma {:induction false} SpacesAreBlank(n: nat)
    ensures forall k :: 0 <= k < n ==> Spaces(n)[k] == ' '
  {
    if n > 0 {
      SpacesAreBlank(n - 1);
    }
  }

  lemma {:induction false} LastOfMerged(group: seq<Entry>, n: nat, before: string, at: nat, text: string)
    requires AllInserts(group) && 1 < n <= |group| && before == MergedText(group, n - 1)
    requires |before| == Offset(group, n - 2) + |group[n - 2].command.text|
    requires at == Offset(group, n - 1) && text == group[n - 1].command.text
    ensures at >= |before| && MergedText(group, n) == before + Spaces(at - |before|) + text
  {
  }

  lemma {:induction false} PiecesOf(before: string, blanks: string, text: string, merged: string)
    requires merged == before + blanks + text && forall k :: 0 <= k < |blanks| ==> blanks[k] == ' '
    ensures merged[..|before|] == before && merged[|before + blanks|..] == text
    ensures forall k :: |before| <= k < |before + blanks| ==> merged[k] == ' '
  {
  }

  // Each text is in the merged one at its offset, behind blanks that reach back to the one before it.
  ghost predicate ReadsAt(group: seq<Entry>, merged: string, i: nat)
    requires AllInserts(group) && i < |group|
  {
    var at := Offset(group, i);
    && at + |group[i].command.text| <= |merged|
    && merged[at..at + |group[i].command.text|] == group[i].command.text
    && (i > 0 ==> forall k :: Offset(group, i - 1) + |group[i - 1].command.text| <= k < at ==> merged[k] == ' ')
  }

  lemma {:induction false} ReadsFurther(group: seq<Entry>, before: string, merged: string, i: nat)
    requires AllInserts(group) && i < |group| && ReadsAt(group, before, i)
    requires |before| <= |merged| && merged[..|before|] == before
    ensures ReadsAt(group, merged, i)
  {
    var at := Offset(group, i);
    assert forall k :: 0 <= k < |before| ==> merged[k] == before[k];
    assert merged[at..at + |group[i].command.text|] == before[at..at + |group[i].command.text|];
  }

  lemma {:induction false} ReadsStep(group: seq<Entry>, n: nat, before: string, blanks: string, text: string,
                                     merged: string)
    requires AllInserts(group) && 1 < n <= |group| && text == group[n - 1].command.text
    requires merged == before + blanks + text && forall k :: 0 <= k < |blanks| ==> blanks[k] == ' '
    requires |before| == Offset(group, n - 2) + |group[n - 2].command.text|
    requires |before| + |blanks| == Offset(group, n - 1) && forall i :: 0 <= i < n - 1 ==> ReadsAt(group, before, i)
    ensures forall i :: 0 <= i < n ==> ReadsAt(group, merged, i)
  {
    PiecesOf(before, blanks, text, merged);
    forall i | 0 <= i < n ensures ReadsAt(group, merged, i) {
      if i < n - 1 {
        ReadsFurther(group, before, merged, i);
      } else {
        assert merged[|before + blanks|..] == merged[|before + blanks|..|before + blanks| + |text|];
      }
    }
  }

  lemma {:induction false} MergedTextReads(group: seq<Entry>, n: nat, merged: string)
    requires AllInserts(group) && 0 < n <= |group| && merged == MergedText(group, n)
    ensures |merged| == Offset(group, n - 1) + |group[n - 1].command.text|
    ensures forall i :: 0 <= i < n ==> ReadsAt(group, merged, i)
    decreases n
  {
    if n > 1 {
      var before, at, text := MergedText(group, n - 1), Offset(group, n - 1), group[n - 1].command.text;
      MergedTextReads(group, n - 1, before);
      LastOfMerged(group, n, before, at, text);
      SpacesAreBlank(at - |before|);
      ReadsStep(group, n, before, Spaces(at - |before|), text, merged);
    }
  }

  lemma {:induction false} MergedInsertionIs(group: seq<Entry>, d: nat)
    requires InOrder(group, false) && AllInserts(group) && MergedInserts(group, d).command.Some?
    ensures var c := MergedInserts(group, d).command.value;
            && group != [] && c.InsertText? && c.position == Position(group[0])
            && |c.text| == Offset(group, |group| - 1) + |group[|group| - 1].command.text|
            && forall i :: 0 <= i < |group| ==> ReadsAt(group, c.text, i)
  {
    SortedStaysIff(group);
    MergedTextReads(group, |group|, MergedText(group, |group|));
  }

  lemma {:induction false} MergedDeletionIs(group: seq<Entry>)
    requires InOrder(group, false) && AllDeletes(group) && MergedDeletes(group).command.Some?
    ensures var c := MergedDeletes(group).command.value;
            group != [] && c.DeleteText? && c.position == Position(group[0]) && c.length == |group|
  {
    RisingBackspacesIff(group);
    ReversedEnds(group);
  }

  /**
   * The merged command itself: it stands where the lowest one does; an insertion brings every text of the
   * run, at its offset, with blanks only between them; a deletion takes as many characters as there were
   * deletions.
   */
  lemma {:induction false} MergedCommandIs(entries: seq<Entry>, d: nat, k: nat)
    requires k < |Aggregated(entries, d)| && Aggregated(entries, d)[k].command.Some?
    ensures var r := Aggregated(entries, d)[k];
            var group, c := r.originalCommands, r.command.value;
            && group != [] && (AllInserts(group) || AllDeletes(group)) && (c.InsertText? || c.DeleteText?)
            && c.position == Position(group[0])
            && (AllInserts(group) ==>
                  c.InsertText? && |c.text| == Offset(group, |group| - 1) + |group[|group| - 1].command.text| &&
                  forall i :: 0 <= i < |group| ==> ReadsAt(group, c.text, i))
            && (AllDeletes(group) ==> c.DeleteText? && c.length == |group|)
  {
    ResultsOfGroups(entries, d);
    MergedAllAt(GroupsOf(entries, d), d);
    var group := GroupsOf(entries, d)[k];
    if AllInserts(group) {
      MergedInsertionIs(group, d);
    } else {
      MergedDeletionIs(group);
    }
  }

  /** A flush aggregates section by section, each one on its own, and the results follow one another. */
  lemma {:induction false} SectionsAggregateApart(sections: seq<Section>, last: Section, d: nat)
    ensures AggregatedSections([], d) == []
    ensures AggregatedSections(sections + [last], d) == AggregatedSections(sections, d) + Aggregated(last.entries, d)
  {
    assert (sections + [last])[..|sections|] == sections;
  }

  // ---- Runs in which aggregation changes what is done ----

  lemma {:induction false} PairOf(a: Entry, b: Entry, d: nat)
    requires Position(a) <= Position(b)
    ensures Sorted([a, b], false) == [a, b] && GroupsOf([a, b], d) == if CanMerge(a, b, d) then [[a, b]] else [[a], [b]]
    ensures Aggregated([a, b], d) == MergedAll(GroupsOf([a, b], d), d)
  {
    SortedStaysIff([a, b]);
    assert [a, b][1..] == [b] && [b][1..] == [] && [a] + [b] == [a, b];
    assert Groups([a, b], [], d) == [[a, b]] && Groups([b], [], d) == [[b]];
  }

  // Two deletions side by side form a group that does not merge, and the second is never executed.
  lemma {:induction false} UnmergedGroupLoses(a: Entry, b: Entry, document: string, user: string)
    requires a == Entry(0, DeleteText(document, user, 0, 2), None)
    requires b == Entry(1, DeleteText(document, user, 2, 2), None)
    ensures Aggregated([a, b], 50) == [Aggregation(None, [a, b])]
    ensures CarriedAll(Aggregated([a, b], 50)) == [a]
  {
    PairOf(a, b, 50);
    MergedAllAt([[a, b]], 50);
    GroupMergesIff([a, b], 50);
    var results := Aggregated([a, b], 50);
    assert results[1..] == [] && CarriedAll(results) == [a] + CarriedAll(results[1..]);
  }

  // The length of the highest deletion is dropped.
  lemma {:induction false} HighestLengthDropped(a: Entry, b: Entry, document: string, user: string)
    requires a == Entry(0, DeleteText(document, user, 0, 1), None)
    requires b == Entry(1, DeleteText(document, user, 1, 3), None)
    ensures Aggregated([a, b], 50) == [Aggregation(Some(DeleteText(document, user, 0, 2)), [a, b])]
    ensures After("abcd", DeleteText(document, user, 0, 2)) == "cd" && Executed("abcd", [b, a], 2) == ""
  {
    PairOf(a, b, 50);
    MergedAllAt([[a, b]], 50);
    GroupMergesIff([a, b], 50);
    RisingBackspacesIff([a, b]);
    ReversedEnds([a, b]);
    assert Executed("abcd", [b, a], 1) == "a";
  }

  // The gap between two insertions is filled with blanks nobody typed.
  lemma {:induction false} GapsFilled(a: Entry, b: Entry, document: string, user: string)
    requires a == Entry(0, InsertText(document, user, 0, "a"), None)
    requires b == Entry(1, InsertText(document, user, 3, "b"), None)
    ensures Aggregated([a, b], 50) == [Aggregation(Some(InsertText(document, user, 0, "a  b")), [a, b])]
    ensures After("xyz", InsertText(document, user, 0, "a  b")) == "a  bxyz" && Executed("xyz", [a, b], 2) == "axybz"
  {
    PairOf(a, b, 50);
    MergedAllAt([[a, b]], 50);
    GroupMergesIff([a, b], 50);
    FilledText(a, b);
    assert Executed("xyz", [a, b], 1) == "axyz";
  }

  lemma {:induction false} FilledText(a: Entry, b: Entry)
    requires a.command.InsertText? && a.command.text == "a" && Position(a) == 0
    requires b.command.InsertText? && b.command.text == "b" && Position(b) == 3
    ensures MergedText([a, b], 2) == "a  b"
  {
    assert Spaces(1) == " " && Spaces(2) == "  " && MergedText([a, b], 1) == "a";
  }
}

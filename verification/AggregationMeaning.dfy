/** Aggregation neither loses nor repeats a command, and when its merged commands mean what the originals mean. */
module AggregationMeaning {
  import opened Bounds
  import opened CommandAggregator
  import opened OperationalTransform
  import opened Options
  import opened Slices

  // ---- Conservation ----

  function Originals(results: seq<Aggregation>): seq<Entry> {
    if results == [] then [] else results[0].originalCommands + Originals(results[1..])
  }

  lemma {:induction false} OriginalsSplit(xs: seq<Aggregation>, ys: seq<Aggregation>)
    ensures Originals(xs + ys) == Originals(xs) + Originals(ys)
    decreases |xs|
  {
    if xs == [] {
      assert xs + ys == ys;
    } else {
      assert (xs + ys)[1..] == xs[1..] + ys;
      OriginalsSplit(xs[1..], ys);
    }
  }

  lemma {:induction false} SortedPermutes(entries: seq<Entry>, descending: bool)
    ensures multiset(Sorted(entries, descending)) == multiset(entries)
    decreases |entries|
  {
    if entries != [] {
      SortedPermutes(entries[1..], descending);
      PlacedAdds(entries[0], Sorted(entries[1..], descending), descending);
      assert entries == [entries[0]] + entries[1..];
    }
  }

  ghost predicate InOrder(entries: seq<Entry>, descending: bool) {
    forall i, j :: 0 <= i < j < |entries| ==>
      if descending then Position(entries[j]) <= Position(entries[i]) else Position(entries[i]) <= Position(entries[j])
  }

  lemma {:induction false} PlacedInOrder(e: Entry, entries: seq<Entry>, descending: bool)
    requires InOrder(entries, descending)
    ensures InOrder(Placed(e, entries, descending), descending)
    decreases |entries|
  {
    var r := Placed(e, entries, descending);
    if entries != [] && r != [e] + entries {
      var rest := Placed(e, entries[1..], descending);
      PlacedInOrder(e, entries[1..], descending);
      PlacedAdds(e, entries[1..], descending);
      forall j | 0 <= j < |rest|
        ensures if descending then Position(rest[j]) <= Position(entries[0])
                else Position(entries[0]) <= Position(rest[j])
      {
        assert rest[j] in rest;
      }
    }
  }

  lemma {:induction false} SortedInOrder(entries: seq<Entry>, descending: bool)
    ensures InOrder(Sorted(entries, descending), descending)
    decreases |entries|
  {
    if entries != [] {
      SortedInOrder(entries[1..], descending);
      PlacedInOrder(entries[0], Sorted(entries[1..], descending), descending);
    }
  }

  lemma {:induction false} GroupsConserve(group: seq<Entry>, rest: seq<Entry>, d: nat)
    requires group != []
    ensures Originals(MergedAll(Groups(group, rest, d), d)) == group + rest
    decreases |rest|
  {
    var groups := Groups(group, rest, d);
    if rest == [] {
      assert groups[1..] == [];
    } else if CanMerge(group[0], rest[0], d) {
      GroupsConserve(group + [rest[0]], rest[1..], d);
      assert (group + [rest[0]]) + rest[1..] == group + rest;
    } else {
      assert groups[1..] == Groups([rest[0]], rest[1..], d);
      GroupsConserve([rest[0]], rest[1..], d);
      assert [rest[0]] + rest[1..] == rest;
    }
  }

  /** Every buffered command ends in exactly one result, and the results follow the positions. */
  lemma {:induction false} AggregationConserves(entries: seq<Entry>, d: nat)
    ensures Originals(Aggregated(entries, d)) == Sorted(entries, false)
    ensures multiset(Originals(Aggregated(entries, d))) == multiset(entries)
  {
    SortedPermutes(entries, false);
    var sorted := Sorted(entries, false);
    if |entries| == 1 {
      assert entries[1..] == [];
      assert Originals([Aggregation(None, entries)]) == entries + Originals([Aggregation(None, entries)][1..]);
    } else if |entries| > 1 {
      GroupsConserve([sorted[0]], sorted[1..], d);
      assert [sorted[0]] + sorted[1..] == sorted;
    }
  }

  // All of one kind, document and user.
  ghost predicate Alike(entries: seq<Entry>) {
    forall i, j :: 0 <= i < |entries| && 0 <= j < |entries| ==>
      && SameKind(entries[i].command, entries[j].command)
      && entries[i].command.documentId == entries[j].command.documentId
      && entries[i].command.userId == entries[j].command.userId
  }

  // A merged command stands for at least two commands, and is of their kind, document and user.
  ghost predicate Representative(r: Aggregation) {
    && Alike(r.originalCommands)
    && (r.command.Some? ==> |r.originalCommands| > 1 && forall i :: 0 <= i < |r.originalCommands| ==>
          && SameKind(r.command.value, r.originalCommands[i].command)
          && r.command.value.documentId == r.originalCommands[i].command.documentId
          && r.command.value.userId == r.originalCommands[i].command.userId)
  }

  lemma {:induction false} GroupIsAlike(entries: seq<Entry>, d: nat)
    requires Group(entries, d)
    ensures Alike(entries)
  {
    forall i | 0 <= i < |entries|
      ensures SameKind(entries[0].command, entries[i].command)
      ensures entries[i].command.documentId == entries[0].command.documentId
      ensures entries[i].command.userId == entries[0].command.userId
    {
      assert i > 0 ==> CanMerge(entries[0], entries[i], d);
    }
  }

  lemma {:induction false} MergedRepresents(entries: seq<Entry>, d: nat)
    requires Group(entries, d)
    ensures Representative(Merged(entries, d))
  {
    GroupIsAlike(entries, d);
    var lowest, highest := Sorted(entries, false), Sorted(entries, true);
    assert |entries| > 0 && lowest[0] in lowest && highest[|highest| - 1] in highest;
    var i :| 0 <= i < |entries| && entries[i] == lowest[0];
    var j :| 0 <= j < |entries| && entries[j] == highest[|highest| - 1];
  }

  lemma {:induction false} GroupsRepresent(group: seq<Entry>, rest: seq<Entry>, d: nat)
    requires Group(group, d)
    ensures forall r :: r in MergedAll(Groups(group, rest, d), d) ==> Representative(r)
    decreases |rest|
  {
    var groups := Groups(group, rest, d);
    if rest == [] {
      MergedRepresents(group, d);
      assert groups[1..] == [];
    } else if CanMerge(group[0], rest[0], d) {
      GroupsRepresent(group + [rest[0]], rest[1..], d);
    } else {
      MergedRepresents(group, d);
      GroupsRepresent([rest[0]], rest[1..], d);
      assert groups[1..] == Groups([rest[0]], rest[1..], d);
    }
  }

  /**
   * Only commands of one kind, document and user are merged, and the merged command is of that kind, document
   * and user.
   */
  lemma {:induction false} AggregationSeparates(entries: seq<Entry>, d: nat)
    ensures forall r :: r in Aggregated(entries, d) ==> Representative(r)
  {
    if |entries| > 1 {
      var sorted := Sorted(entries, false);
      GroupsRepresent([sorted[0]], sorted[1..], d);
    } else if |entries| == 1 {
      GroupIsAlike(entries, d);
    }
  }

  lemma {:induction false} SectionHolds(entries: seq<Entry>, id: string, e: Entry)
    ensures multiset(OfSection(entries, id))[e] == if SectionOf(e) == id then multiset(entries)[e] else 0
    decreases |entries|
  {
    if entries != [] {
      var init, last := entries[..|entries| - 1], entries[|entries| - 1];
      SectionHolds(init, id, e);
      assert entries == init + [last];
      assert multiset(entries) == multiset(init) + multiset{last};
    }
  }

  lemma {:induction false} LastSectionAdds(init: seq<Section>, last: Section, d: nat, e: Entry)
    ensures multiset(Originals(AggregatedSections(init + [last], d)))[e]
         == multiset(Originals(AggregatedSections(init, d)))[e] + multiset(last.entries)[e]
  {
    var front, back := AggregatedSections(init, d), Aggregated(last.entries, d);
    assert (init + [last])[..|init|] == init;
    assert AggregatedSections(init + [last], d) == front + back;
    OriginalsSplit(front, back);
    AggregationConserves(last.entries, d);
    assert multiset(Originals(front) + Originals(back))[e]
        == multiset(Originals(front))[e] + multiset(Originals(back))[e];
  }

  lemma {:induction false} LastIdIsNew(init: seq<Section>, last: Section)
    requires DistinctIds(init + [last])
    ensures DistinctIds(init) && !HasId(init, last.id)
  {
    var sections := init + [last];
    assert sections[|init|] == last && forall i :: 0 <= i < |init| ==> sections[i] == init[i];
  }

  lemma {:induction false} SectionsHold(entries: seq<Entry>, sections: seq<Section>, d: nat, e: Entry)
    requires DistinctIds(sections)
    requires forall i :: 0 <= i < |sections| ==> sections[i].entries == OfSection(entries, sections[i].id)
    ensures multiset(Originals(AggregatedSections(sections, d)))[e]
         == if HasId(sections, SectionOf(e)) then multiset(entries)[e] else 0
    decreases |sections|
  {
    if sections != [] {
      var init, last := sections[..|sections| - 1], sections[|sections| - 1];
      assert sections == init + [last];
      LastIdIsNew(init, last);
      SectionsHold(entries, init, d, e);
      LastSectionAdds(init, last, d, e);
      SectionHolds(entries, last.id, e);
      HasIdLast(init, last, SectionOf(e));
    }
  }

  lemma {:induction false} HasIdLast(init: seq<Section>, last: Section, id: string)
    ensures HasId(init + [last], id) <==> HasId(init, id) || last.id == id
  {
    if i :| 0 <= i < |init| && init[i].id == id {
      assert (init + [last])[i].id == id;
    }
    assert (init + [last])[|init|] == last;
  }

  /** Flushing a buffer conserves it: over all sections, the results carry every buffered command exactly once. */
  lemma {:induction false} FlushConserves(entries: seq<Entry>, sections: seq<Section>, d: nat)
    requires Grouped(entries, sections)
    ensures multiset(Originals(AggregatedSections(sections, d))) == multiset(entries)
  {
    var flushed := multiset(Originals(AggregatedSections(sections, d)));
    forall e: Entry ensures flushed[e] == multiset(entries)[e] {
      SectionsHold(entries, sections, d, e);
      if e in multiset(entries) {
        assert e in entries;
        var k :| 0 <= k < |entries| && entries[k] == e;
        assert HasId(sections, SectionOf(entries[k]));
      }
    }
  }

  // ---- Execution ----

  // The entries whose effect one result brings when it is executed: all of them when they are merged, else the first.
  function Carried(r: Aggregation): seq<Entry> {
    if r.command.Some? || |r.originalCommands| <= 1 then r.originalCommands else [r.originalCommands[0]]
  }

  function CarriedAll(results: seq<Aggregation>): seq<Entry> {
    if results == [] then [] else Carried(results[0]) + CarriedAll(results[1..])
  }

  // Merged, or of a single command.
  ghost predicate AllWhole(results: seq<Aggregation>) {
    forall i :: 0 <= i < |results| ==> results[i].command.Some? || |results[i].originalCommands| <= 1
  }

  lemma {:induction false} CarriedLength(results: seq<Aggregation>)
    ensures |CarriedAll(results)| <= |Originals(results)|
    ensures !AllWhole(results) ==> |CarriedAll(results)| < |Originals(results)|
    ensures AllWhole(results) ==> CarriedAll(results) == Originals(results)
    decreases |results|
  {
    if results != [] {
      CarriedLength(results[1..]);
      assert AllWhole(results) <==> Carried(results[0]) == results[0].originalCommands && AllWhole(results[1..]) by {
        assert forall i :: 0 <= i < |results[1..]| ==> results[1..][i] == results[i + 1];
        assert forall i :: 1 <= i < |results| ==> results[i] == results[1..][i - 1];
      }
    }
  }

  lemma {:induction false} ConservedWhenWhole(entries: seq<Entry>, d: nat)
    ensures multiset(CarriedAll(Aggregated(entries, d))) == multiset(entries) <==> AllWhole(Aggregated(entries, d))
  {
    var results := Aggregated(entries, d);
    AggregationConserves(entries, d);
    CarriedLength(results);
    assert |multiset(CarriedAll(results))| == |CarriedAll(results)| && |multiset(entries)| == |entries|;
    assert |multiset(Originals(results))| == |Originals(results)|;
  }

  // ---- What the commands do ----

  function AsOperation(e: Entry): Operation
    requires !e.command.Other?
  {
    match e.command
    case InsertText(_, _, p, s) => Insert(p, s)
    case DeleteText(_, _, p, n) => Delete(p, n)
  }

  predicate TextEdits(entries: seq<Entry>) { forall i :: 0 <= i < |entries| ==> !entries[i].command.Other? }

  // The text after the first n commands, executed in order.
  function Executed(text: string, entries: seq<Entry>, n: nat): string
    requires TextEdits(entries) && n <= |entries|
  {
    if n == 0 then text else Apply(Executed(text, entries, n - 1), AsOperation(entries[n - 1]))
  }

  function After(text: string, c: Command): string
    requires !c.Other?
  {
    Apply(text, AsOperation(Entry(0, c, None)))
  }

  // ---- Backspaces ----

  lemma {:induction false} BackspacesErase(text: string, sorted: seq<Entry>, n: nat, p: nat, end: nat)
    requires AllDeletes(sorted) && Backspaces(sorted) && 1 <= n <= |sorted|
    requires p + n == Position(sorted[0]) + 1 && end == Position(sorted[0]) + sorted[0].command.length
    ensures Position(sorted[n - 1]) == p
    ensures Executed(text, sorted, n) == Take(text, p) + Drop(text, end)
  {
    BackspacesDescend(sorted, n - 1);
    ExecutedNext(text, sorted, n);
    if n > 1 {
      BackspacesErase(text, sorted, n - 1, p + 1, end);
      BackspaceBefore(text, p, end, Executed(text, sorted, n - 1), Executed(text, sorted, n));
    }
  }

  lemma {:induction false} ExecutedNext(text: string, sorted: seq<Entry>, n: nat)
    requires AllDeletes(sorted) && 1 <= n <= |sorted|
    ensures Executed(text, sorted, 0) == text
    ensures Executed(text, sorted, n)
         == Apply(Executed(text, sorted, n - 1), Delete(Position(sorted[n - 1]), sorted[n - 1].command.length))
  {
  }

  lemma {:induction false} BackspaceBefore(text: string, p: nat, end: nat, t: string, u: string)
    requires p + 1 <= end && t == Take(text, p + 1) + Drop(text, end) && u == Apply(t, Delete(p, 1))
    ensures u == Take(text, p) + Drop(text, end)
  {
    if p < |text| {
      assert t[..p] == text[..p] && t[p + 1..] == Drop(text, end);
    } else {
      assert t == text;
    }
  }

  /**
   * A run of backspaces, merged into one deletion, erases what executing them from the highest position
   * down erases, exactly when the highest one erases no more and no less text than one character. The
   * merge looks at the length of every deletion but that one.
   */
  lemma {:induction false} MergedDeletesIff(text: string, entries: seq<Entry>)
    requires AllDeletes(entries) && MergedDeletes(entries).command.Some?
    ensures var sorted := Sorted(entries, true);
            var highest := sorted[0].command;
            After(text, MergedDeletes(entries).command.value) == Executed(text, sorted, |sorted|)
            <==> Min(highest.position + highest.length, |text|) == Min(highest.position + 1, |text|)
  {
    var sorted := Sorted(entries, true);
    var c := MergedDeletes(entries).command.value;
    BackspacesDescend(sorted, |sorted| - 1);
    DeletesIff(text, sorted, c);
  }

  lemma {:induction false} DeletesIff(text: string, sorted: seq<Entry>, c: Command)
    requires AllDeletes(sorted) && Backspaces(sorted) && sorted != []
    requires c.DeleteText? && c.position + |sorted| == Position(sorted[0]) + 1 == c.position + c.length
    ensures After(text, c) == Executed(text, sorted, |sorted|)
       <==> Min(Position(sorted[0]) + sorted[0].command.length, |text|) == Min(Position(sorted[0]) + 1, |text|)
  {
    BackspacesIff(text, sorted, c.position, c.position + c.length, Position(sorted[0]) + sorted[0].command.length);
    AfterDelete(text, c);
  }

  lemma {:induction false} BackspacesIff(text: string, sorted: seq<Entry>, p: nat, a: nat, b: nat)
    requires AllDeletes(sorted) && Backspaces(sorted) && sorted != []
    requires p + |sorted| == Position(sorted[0]) + 1 == a && b == Position(sorted[0]) + sorted[0].command.length
    ensures Take(text, p) + Drop(text, a) == Executed(text, sorted, |sorted|) <==> Min(b, |text|) == Min(a, |text|)
  {
    BackspacesErase(text, sorted, |sorted|, p, b);
    EqualDrops(text, p, a, b);
  }

  lemma {:induction false} AfterDelete(text: string, c: Command)
    requires c.DeleteText?
    ensures After(text, c) == Take(text, c.position) + Drop(text, c.position + c.length)
  {
  }

  lemma {:induction false} EqualDrops(text: string, p: nat, a: nat, b: nat)
    ensures Take(text, p) + Drop(text, a) == Take(text, p) + Drop(text, b) <==> Min(b, |text|) == Min(a, |text|)
  {
    assert |Take(text, p) + Drop(text, a)| == |Take(text, p)| + |text| - Min(a, |text|);
    assert |Take(text, p) + Drop(text, b)| == |Take(text, p)| + |text| - Min(b, |text|);
  }

  // ---- Insertions ----

  predicate GapFree(sorted: seq<Entry>)
    requires AllInserts(sorted)
  {
    forall i :: 1 <= i < |sorted| ==> Position(sorted[i]) == End(sorted[i - 1])
  }

  predicate Overlapping(sorted: seq<Entry>)
    requires AllInserts(sorted)
  {
    exists i :: 1 <= i < |sorted| && Position(sorted[i]) < End(sorted[i - 1])
  }

  // The text the first n insertions leave when each is executed where it says, counting positions from base.
  function TypedText(sorted: seq<Entry>, n: nat, base: nat): string
    requires AllInserts(sorted) && n <= |sorted|
  {
    if n == 0 then ""
    else
      var typed, at := TypedText(sorted, n - 1, base), Max(0, Position(sorted[n - 1]) - base);
      Take(typed, at) + sorted[n - 1].command.text + Drop(typed, at)
  }

  // No insertion starts past the end of the one before it.
  predicate Connected(sorted: seq<Entry>)
    requires AllInserts(sorted)
  {
    forall i :: 1 <= i < |sorted| ==> Position(sorted[i]) <= End(sorted[i - 1])
  }

  lemma {:induction false} SplitInside(left: string, middle: string, right: string, at: nat)
    requires at <= |middle|
    ensures (left + middle + right)[..|left| + at] == left + middle[..at]
    ensures (left + middle + right)[|left| + at..] == middle[at..] + right
  {
  }

  lemma {:induction false} Regroup(a: string, b: string, c: string, d: string, e: string)
    ensures (a + b) + c + (d + e) == a + (b + c + d) + e
  {
  }

  lemma {:induction false} InsertInto(left: string, typed: string, right: string, at: nat, s: string,
                                      next: string, u: string, v: string)
    requires at <= |typed| || right == ""
    requires u == left + typed + right && v == Apply(u, Insert(|left| + at, s))
    requires next == Take(typed, at) + s + Drop(typed, at)
    ensures v == left + next + right
  {
    if at <= |typed| {
      SplitInside(left, typed, right, at);
      Regroup(left, typed[..at], s, typed[at..], right);
    } else {
      assert Take(u, |left| + at) == left + typed && Drop(u, |left| + at) == "" && right == "";
      Regroup(left, typed, s, "", right);
    }
  }

  lemma {:induction false} ExecutedInsert(text: string, sorted: seq<Entry>, n: nat)
    requires AllInserts(sorted) && 1 <= n <= |sorted|
    ensures Executed(text, sorted, n)
         == Apply(Executed(text, sorted, n - 1), Insert(Position(sorted[n - 1]), sorted[n - 1].command.text))
  {
  }

  lemma {:induction false} TypedTextNext(sorted: seq<Entry>, n: nat, base: nat, typed: string, at: nat, s: string)
    requires AllInserts(sorted) && 1 <= n <= |sorted| && typed == TypedText(sorted, n - 1, base)
    requires s == sorted[n - 1].command.text && base + at == Position(sorted[n - 1])
    ensures TypedText(sorted, n, base) == Take(typed, at) + s + Drop(typed, at)
  {
  }

  // The n-th insertion of a connected run lies within the text typed before it.
  lemma {:induction false} RunStaysInside(sorted: seq<Entry>, n: nat)
    requires AllInserts(sorted) && Connected(sorted) && 1 <= n <= |sorted|
    ensures End(sorted[n - 1]) <= Position(sorted[0]) + TextLength(sorted, n)
  {
    if n > 1 {
      RunStaysInside(sorted, n - 1);
    }
  }

  lemma {:induction false} PlaceInRun(sorted: seq<Entry>, n: nat, base: nat, typed: string)
    requires AllInserts(sorted) && Connected(sorted) && 1 <= n <= |sorted| && base == Position(sorted[0])
    requires typed == TypedText(sorted, n - 1, base)
    ensures Position(sorted[n - 1]) <= base + |typed|
  {
    TypedLength(sorted, n - 1, base);
    if n > 1 {
      RunStaysInside(sorted, n - 1);
    }
  }

  lemma {:induction false} RunStep(left: string, right: string, sorted: seq<Entry>, n: nat, u: string, v: string)
    requires AllInserts(sorted) && Connected(sorted) && 1 <= n <= |sorted|
    requires Position(sorted[0]) <= Position(sorted[n - 1])
    requires |left| <= Position(sorted[0]) && (|left| == Position(sorted[0]) || right == "")
    requires u == left + TypedText(sorted, n - 1, |left|) + right
    requires v == Apply(u, Insert(Position(sorted[n - 1]), sorted[n - 1].command.text))
    ensures v == left + TypedText(sorted, n, |left|) + right
  {
    var at, s := Position(sorted[n - 1]) - |left|, sorted[n - 1].command.text;
    var typed := TypedText(sorted, n - 1, |left|);
    TypedTextNext(sorted, n, |left|, typed, at, s);
    if right != "" {
      PlaceInRun(sorted, n, |left|, typed);
    }
    InsertInto(left, typed, right, at, s, TypedText(sorted, n, |left|), u, v);
  }

  // A connected run only ever changes what it typed itself.
  lemma {:induction false} RunTypes(doc: string, left: string, right: string, sorted: seq<Entry>, n: nat)
    requires AllInserts(sorted) && InOrder(sorted, false) && Connected(sorted) && n <= |sorted|
    requires sorted != [] && |left| <= Position(sorted[0]) && (|left| == Position(sorted[0]) || right == "")
    requires doc == left + "" + right
    ensures Executed(doc, sorted, n) == left + TypedText(sorted, n, |left|) + right
  {
    if n > 0 {
      RunTypes(doc, left, right, sorted, n - 1);
      ExecutedInsert(doc, sorted, n);
      RunStep(left, right, sorted, n, Executed(doc, sorted, n - 1), Executed(doc, sorted, n));
    }
  }

  // How much text the insertions bring, and how many blanks the merge adds to it.
  function TextLength(sorted: seq<Entry>, n: nat): nat
    requires AllInserts(sorted) && n <= |sorted|
  {
    if n == 0 then 0 else TextLength(sorted, n - 1) + |sorted[n - 1].command.text|
  }

  lemma {:induction false} TypedLength(sorted: seq<Entry>, n: nat, base: nat)
    requires AllInserts(sorted) && n <= |sorted|
    ensures |TypedText(sorted, n, base)| == TextLength(sorted, n)
  {
    if n > 0 {
      TypedLength(sorted, n - 1, base);
    }
  }

  lemma {:induction false} ExecutedLength(text: string, sorted: seq<Entry>, n: nat)
    requires AllInserts(sorted) && n <= |sorted|
    ensures |Executed(text, sorted, n)| == |text| + TextLength(sorted, n)
  {
    if n > 0 {
      ExecutedLength(text, sorted, n - 1);
      ApplyInsertLength(Executed(text, sorted, n - 1), Position(sorted[n - 1]), sorted[n - 1].command.text);
    }
  }

  // Every gap adds blanks.
  lemma {:induction false} MergedLength(sorted: seq<Entry>, n: nat)
    requires AllInserts(sorted) && n <= |sorted|
    ensures |MergedText(sorted, n)| >= TextLength(sorted, n)
    ensures forall i :: 1 <= i < n && Position(sorted[i]) > End(sorted[i - 1]) ==>
            |MergedText(sorted, n)| > TextLength(sorted, n)
  {
    if n > 0 {
      MergedLength(sorted, n - 1);
    }
  }

  lemma {:induction false} ApplyInsertLength(text: string, p: nat, s: string)
    ensures |Apply(text, Insert(p, s))| == |text| + |s|
  {
  }

  lemma {:induction false} InsertAt(text: string, p: nat, s: string)
    ensures var base := Min(p, |text|); Apply(text, Insert(p, s)) == text[..base] + s + text[base..]
  {
  }

  lemma {:induction false} AfterInsert(text: string, c: Command)
    requires c.InsertText?
    ensures After(text, c) == Apply(text, Insert(c.position, c.text))
  {
  }

  lemma {:induction false} RunIff(text: string, sorted: seq<Entry>, base: nat, merged: string)
    requires AllInserts(sorted) && InOrder(sorted, false) && sorted != []
    requires base == Min(Position(sorted[0]), |text|) && merged == MergedText(sorted, |sorted|)
    ensures Apply(text, Insert(Position(sorted[0]), merged)) == Executed(text, sorted, |sorted|)
       <==> TypedText(sorted, |sorted|, base) == merged
  {
    var n := |sorted|;
    InsertAt(text, Position(sorted[0]), merged);
    if Connected(sorted) {
      assert text == text[..base] + "" + text[base..];
      RunTypes(text, text[..base], text[base..], sorted, n);
      PutBack(text[..base], TypedText(sorted, n, base), text[base..], merged);
    } else {
      TypedLength(sorted, n, base);
      ExecutedLength(text, sorted, n);
      MergedLength(sorted, n);
      ApplyInsertLength(text, Position(sorted[0]), merged);
    }
  }

  /**
   * A run of insertions, merged into one, puts what executing them in position order puts, exactly when
   * the text they leave by their own positions is the merged text. Where the run meets the document
   * matters only through its end, where positions are clamped.
   */
  lemma {:induction false} MergedInsertsIff(text: string, entries: seq<Entry>, maxMergeDistance: nat)
    requires AllInserts(entries) && MergedInserts(entries, maxMergeDistance).command.Some?
    ensures var sorted := Sorted(entries, false);
            After(text, MergedInserts(entries, maxMergeDistance).command.value) == Executed(text, sorted, |sorted|)
            <==> TypedText(sorted, |sorted|, Min(Position(sorted[0]), |text|)) == MergedText(sorted, |sorted|)
  {
    var sorted := Sorted(entries, false);
    SortedInOrder(entries, false);
    AfterInsert(text, MergedInserts(entries, maxMergeDistance).command.value);
    RunIff(text, sorted, Min(Position(sorted[0]), |text|), MergedText(sorted, |sorted|));
  }

  lemma {:induction false} MergedTextNext(sorted: seq<Entry>, n: nat)
    requires AllInserts(sorted) && 1 < n <= |sorted| && Position(sorted[n - 1]) <= End(sorted[n - 2])
    ensures MergedText(sorted, n) == MergedText(sorted, n - 1) + sorted[n - 1].command.text
  {
    assert Spaces(Gap(sorted[n - 2], sorted[n - 1])) == "";
  }

  lemma {:induction false} GapFreeTypes(sorted: seq<Entry>, n: nat, base: nat)
    requires AllInserts(sorted) && GapFree(sorted) && 1 <= n <= |sorted| && base <= Position(sorted[0])
    ensures TypedText(sorted, n, base) == MergedText(sorted, n)
    ensures End(sorted[n - 1]) >= base + |MergedText(sorted, n)|
  {
    var s := sorted[n - 1].command.text;
    if n == 1 {
      TypedTextNext(sorted, 1, base, "", Position(sorted[0]) - base, s);
    } else {
      GapFreeTypes(sorted, n - 1, base);
      MergedTextNext(sorted, n);
      var typed, at := MergedText(sorted, n - 1), Position(sorted[n - 1]) - base;
      TypedTextNext(sorted, n, base, typed, at, s);
      assert Take(typed, at) == typed && Drop(typed, at) == "";
    }
  }

  lemma {:induction false} ApartTypesIff(sorted: seq<Entry>, base: nat)
    requires AllInserts(sorted) && sorted != [] && !Overlapping(sorted) && base <= Position(sorted[0])
    ensures TypedText(sorted, |sorted|, base) == MergedText(sorted, |sorted|) <==> GapFree(sorted)
  {
    if GapFree(sorted) {
      GapFreeTypes(sorted, |sorted|, base);
    } else {
      var i :| 1 <= i < |sorted| && Position(sorted[i]) != End(sorted[i - 1]);
      assert Position(sorted[i]) > End(sorted[i - 1]);
      TypedLength(sorted, |sorted|, base);
      MergedLength(sorted, |sorted|);
    }
  }

  /**
   * When no insertion starts inside the one before it, that is exactly when no two leave a gap: the
   * blanks standing for a gap are text nobody typed.
   */
  lemma {:induction false} MergedApartIff(text: string, entries: seq<Entry>, maxMergeDistance: nat)
    requires AllInserts(entries) && MergedInserts(entries, maxMergeDistance).command.Some?
    requires !Overlapping(Sorted(entries, false))
    ensures var sorted := Sorted(entries, false);
            After(text, MergedInserts(entries, maxMergeDistance).command.value) == Executed(text, sorted, |sorted|)
            <==> GapFree(sorted)
  {
    MergedInsertsIff(text, entries, maxMergeDistance);
    ApartTypesIff(Sorted(entries, false), Min(Position(Sorted(entries, false)[0]), |text|));
  }

  // The second text commutes with the part of the first it is put before, and there is no gap between the two.
  predicate SecondCommutes(sorted: seq<Entry>, base: nat)
    requires AllInserts(sorted) && |sorted| == 2
  {
    var s, t := sorted[0].command.text, sorted[1].command.text;
    var rest := Drop(s, Max(0, Position(sorted[1]) - base));
    Position(sorted[1]) <= End(sorted[0]) && rest + t == t + rest
  }

  lemma {:induction false} PairTypesIff(sorted: seq<Entry>, base: nat)
    requires AllInserts(sorted) && |sorted| == 2 && base <= Position(sorted[0]) <= Position(sorted[1])
    ensures TypedText(sorted, |sorted|, base) == MergedText(sorted, |sorted|) <==> SecondCommutes(sorted, base)
  {
    var s, t, at := sorted[0].command.text, sorted[1].command.text, Position(sorted[1]) - base;
    PairTyped(sorted, base, s, t, at);
    PairMerged(sorted, s, t);
    if Position(sorted[1]) <= End(sorted[0]) {
      PairTextsIff(s, t, at);
    } else {
      assert |Take(s, at) + t + Drop(s, at)| == |s| + |t|;
    }
  }

  lemma {:induction false} PairTyped(sorted: seq<Entry>, base: nat, s: string, t: string, at: nat)
    requires AllInserts(sorted) && |sorted| == 2 && base <= Position(sorted[0]) && base + at == Position(sorted[1])
    requires s == sorted[0].command.text && t == sorted[1].command.text
    ensures TypedText(sorted, 2, base) == Take(s, at) + t + Drop(s, at)
  {
    TypedTextNext(sorted, 1, base, "", Position(sorted[0]) - base, s);
    TypedTextNext(sorted, 2, base, s, at, t);
  }

  lemma {:induction false} PairMerged(sorted: seq<Entry>, s: string, t: string)
    requires AllInserts(sorted) && |sorted| == 2 && s == sorted[0].command.text && t == sorted[1].command.text
    ensures if Position(sorted[1]) <= End(sorted[0]) then MergedText(sorted, 2) == s + t
            else |MergedText(sorted, 2)| > |s| + |t|
  {
    if Position(sorted[1]) <= End(sorted[0]) {
      MergedTextNext(sorted, 2);
    }
  }

  lemma {:induction false} PairTextsIff(s: string, t: string, at: nat)
    ensures Take(s, at) + t + Drop(s, at) == s + t <==> Drop(s, at) + t == t + Drop(s, at)
  {
    var left, rest := Take(s, at), Drop(s, at);
    assert s + t == left + (rest + t) + "";
    assert left + t + rest == left + (t + rest) + "";
    PutBack(left, rest + t, "", t + rest);
  }

  /**
   * For two insertions that is exactly when they leave no gap and the second text commutes with the part
   * of the first it is put before; two insertions at one place must commute outright.
   */
  lemma {:induction false} MergedPairIff(text: string, entries: seq<Entry>, maxMergeDistance: nat)
    requires AllInserts(entries) && |entries| == 2 && MergedInserts(entries, maxMergeDistance).command.Some?
    ensures var sorted := Sorted(entries, false);
            After(text, MergedInserts(entries, maxMergeDistance).command.value) == Executed(text, sorted, |sorted|)
            <==> SecondCommutes(sorted, Min(Position(sorted[0]), |text|))
  {
    var sorted := Sorted(entries, false);
    SortedInOrder(entries, false);
    MergedInsertsIff(text, entries, maxMergeDistance);
    PairTypesIff(sorted, Min(Position(sorted[0]), |text|));
  }
}

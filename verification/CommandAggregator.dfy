/**
 * Buffered text commands, grouped by section and merged. Formatting commands are not part of the
 * model; commands of other kinds are kept and never merged.
 */
module CommandAggregator {
  import opened Bounds
  import opened Options

  datatype Command =
    | InsertText(documentId: string, userId: string, position: nat, text: string)
    | DeleteText(documentId: string, userId: string, position: nat, length: nat)
    | Other(documentId: string, userId: string, name: string, place: Option<nat>)

  // The ticket stands for the caller waiting for the command's result.
  datatype Entry = Entry(ticket: nat, command: Command, sectionId: Option<string>)

  datatype Aggregation = Aggregation(command: Option<Command>, originalCommands: seq<Entry>)

  datatype Section = Section(id: string, entries: seq<Entry>)

  function Position(e: Entry): nat {
    match e.command
    case InsertText(_, _, p, _) => p
    case DeleteText(_, _, p, _) => p
    case Other(_, _, _, place) => if place.Some? then place.value else 0
  }

  predicate SameKind(a: Command, b: Command) {
    match a
    case InsertText(_, _, _, _) => b.InsertText?
    case DeleteText(_, _, _, _) => b.DeleteText?
    case Other(_, _, name, _) => b.Other? && b.name == name
  }

  function Abs(n: int): nat { if n < 0 then -n else n }

  // ---- Sections ----

  function SectionOf(e: Entry): string {
    if e.sectionId.Some? && e.sectionId.value != "" then e.sectionId.value else "default"
  }

  function OfSection(entries: seq<Entry>, id: string): seq<Entry> {
    if entries == [] then []
    else
      var last := entries[|entries| - 1];
      OfSection(entries[..|entries| - 1], id) + if SectionOf(last) == id then [last] else []
  }

  // Every section once, with its entries in the order of arrival.
  ghost predicate Grouped(entries: seq<Entry>, sections: seq<Section>) {
    && DistinctIds(sections)
    && (forall i :: 0 <= i < |sections| ==> sections[i].entries == OfSection(entries, sections[i].id) != [])
    && (forall k :: 0 <= k < |entries| ==> HasId(sections, SectionOf(entries[k])))
  }

  ghost predicate DistinctIds(sections: seq<Section>) {
    forall i, j :: 0 <= i < j < |sections| ==> sections[i].id != sections[j].id
  }

  ghost predicate HasId(sections: seq<Section>, id: string) { exists i :: 0 <= i < |sections| && sections[i].id == id }

  // Where the first entry of the section is; the length when there is none.
  function FirstOf(entries: seq<Entry>, id: string): (k: nat)
    ensures k <= |entries|
  {
    if entries == [] then 0
    else
      var k := FirstOf(entries[..|entries| - 1], id);
      if k < |entries| - 1 || SectionOf(entries[|entries| - 1]) == id then k else |entries|
  }

  // The sections come in the order in which their first entries came.
  ghost predicate InOrderOfArrival(entries: seq<Entry>, sections: seq<Section>) {
    && (forall i :: 0 <= i < |sections| ==> FirstOf(entries, sections[i].id) < |entries|)
    && (forall i, j :: 0 <= i < j < |sections| ==>
          FirstOf(entries, sections[i].id) < FirstOf(entries, sections[j].id))
  }

  lemma {:induction false} FirstOfNext(entries: seq<Entry>, entry: Entry, id: string)
    ensures FirstOf(entries, id) < |entries| ==> FirstOf(entries + [entry], id) == FirstOf(entries, id)
    ensures FirstOf(entries, id) == |entries| ==>
              FirstOf(entries + [entry], id) == |entries| + if SectionOf(entry) == id then 0 else 1
  {
    assert (entries + [entry])[..|entries|] == entries;
  }

  lemma {:induction false} NoneBefore(entries: seq<Entry>, id: string)
    requires forall k :: 0 <= k < |entries| ==> SectionOf(entries[k]) != id
    ensures FirstOf(entries, id) == |entries|
    decreases |entries|
  {
    if entries != [] {
      NoneBefore(entries[..|entries| - 1], id);
    }
  }

  lemma {:induction false} ArrivalNext(entries: seq<Entry>, entry: Entry, before: seq<Section>, i: nat)
    requires Grouped(entries, before) && InOrderOfArrival(entries, before) && i <= |before|
    requires forall k :: 0 <= k < i ==> before[k].id != SectionOf(entry)
    requires i < |before| ==> before[i].id == SectionOf(entry)
    ensures InOrderOfArrival(entries + [entry], WithEntry(before, i, entry))
  {
    var sections := WithEntry(before, i, entry);
    assert forall j :: 0 <= j < |before| ==> sections[j].id == before[j].id;
    forall j | 0 <= j < |sections|
      ensures FirstOf(entries + [entry], sections[j].id)
           == if j < |before| then FirstOf(entries, before[j].id) else |entries|
    {
      FirstOfNext(entries, entry, sections[j].id);
      if j == |before| {
        forall k | 0 <= k < |entries| ensures SectionOf(entries[k]) != SectionOf(entry) {
          assert HasId(before, SectionOf(entries[k]));
        }
        NoneBefore(entries, SectionOf(entry));
      }
    }
  }

  // The place of the section, or the number of sections when it is a new one.
  method FindSection(sections: seq<Section>, id: string) returns (i: nat)
    ensures i <= |sections| && forall k :: 0 <= k < i ==> sections[k].id != id
    ensures i < |sections| ==> sections[i].id == id
  {
    i := 0;
    while i < |sections| && sections[i].id != id
      invariant 0 <= i <= |sections| && forall k :: 0 <= k < i ==> sections[k].id != id
    {
      i := i + 1;
    }
  }

  ghost predicate GroupedByArrival(entries: seq<Entry>, sections: seq<Section>) {
    Grouped(entries, sections) && InOrderOfArrival(entries, sections)
  }

  lemma {:induction false} GroupedByArrivalNext(entries: seq<Entry>, entry: Entry, before: seq<Section>, i: nat)
    requires GroupedByArrival(entries, before) && i <= |before|
    requires forall k :: 0 <= k < i ==> before[k].id != SectionOf(entry)
    requires i < |before| ==> before[i].id == SectionOf(entry)
    ensures GroupedByArrival(entries + [entry], WithEntry(before, i, entry))
  {
    GroupedNext(entries, entry, before, i);
    ArrivalNext(entries, entry, before, i);
  }

  // One more entry, behind the others of its section, or in a new section behind the others.
  method AddToSection(sections: seq<Section>, entry: Entry, ghost earlier: seq<Entry>) returns (more: seq<Section>)
    requires GroupedByArrival(earlier, sections)
    ensures GroupedByArrival(earlier + [entry], more)
  {
    var i := FindSection(sections, SectionOf(entry));
    GroupedByArrivalNext(earlier, entry, sections, i);
    more := WithEntry(sections, i, entry);
  }

  method GroupBySection(entries: seq<Entry>) returns (sections: seq<Section>)
    ensures GroupedByArrival(entries, sections)
  {
    sections := [];
    for n := 0 to |entries|
      invariant GroupedByArrival(entries[..n], sections)
    {
      sections := AddToSection(sections, entries[n], entries[..n]);
      assert entries[..n + 1] == entries[..n] + [entries[n]];
    }
    assert entries[..|entries|] == entries;
  }

  lemma {:induction false} NoneOfSection(entries: seq<Entry>, id: string)
    requires forall k :: 0 <= k < |entries| ==> SectionOf(entries[k]) != id
    ensures OfSection(entries, id) == []
    decreases |entries|
  {
    if entries != [] {
      NoneOfSection(entries[..|entries| - 1], id);
    }
  }

  // One more entry, in the i-th section or in a new one.
  function WithEntry(before: seq<Section>, i: nat, entry: Entry): seq<Section>
    requires i <= |before|
  {
    if i < |before| then before[i := Section(before[i].id, before[i].entries + [entry])]
    else before + [Section(SectionOf(entry), [entry])]
  }

  lemma {:induction false} GroupedNext(entries: seq<Entry>, entry: Entry, before: seq<Section>, i: nat)
    requires Grouped(entries, before) && i <= |before|
    requires forall k :: 0 <= k < i ==> before[k].id != SectionOf(entry)
    requires i < |before| ==> before[i].id == SectionOf(entry)
    ensures Grouped(entries + [entry], WithEntry(before, i, entry))
  {
    var longer, sections := entries + [entry], WithEntry(before, i, entry);
    assert longer[..|longer| - 1] == entries;
    if i == |before| {
      forall k | 0 <= k < |entries| ensures SectionOf(entries[k]) != SectionOf(entry) {
        assert HasId(before, SectionOf(entries[k]));
      }
      NoneOfSection(entries, SectionOf(entry));
    }
    forall j | 0 <= j < |sections| ensures sections[j].entries == OfSection(longer, sections[j].id) != [] {
      assert j != i ==> sections[j] == before[j] && sections[j].id != SectionOf(entry);
    }
    forall k | 0 <= k < |longer| ensures HasId(sections, SectionOf(longer[k])) {
      if k < |entries| {
        assert HasId(before, SectionOf(entries[k]));
        var j :| 0 <= j < |before| && before[j].id == SectionOf(entries[k]);
        assert sections[j].id == SectionOf(longer[k]);
      } else {
        assert sections[i].id == SectionOf(longer[k]);
      }
    }
  }

  // ---- Sorting by position, equal positions in their old order ----

  function Placed(e: Entry, entries: seq<Entry>, descending: bool): seq<Entry> {
    if entries == []
       || (if descending then Position(entries[0]) <= Position(e) else Position(e) <= Position(entries[0]))
    then [e] + entries
    else [entries[0]] + Placed(e, entries[1..], descending)
  }

  function Sorted(entries: seq<Entry>, descending: bool): (r: seq<Entry>)
    ensures |r| == |entries| && forall e :: e in r ==> e in entries
    ensures AllInserts(entries) ==> AllInserts(r)
    ensures AllDeletes(entries) ==> AllDeletes(r)
  {
    if entries == [] then []
    else
      var rest := Sorted(entries[1..], descending);
      PlacedAdds(entries[0], rest, descending);
      var r := Placed(entries[0], rest, descending);
      assert forall i :: 0 <= i < |r| ==> r[i] in r;
      r
  }

  lemma {:induction false} PlacedAdds(e: Entry, entries: seq<Entry>, descending: bool)
    ensures multiset(Placed(e, entries, descending)) == multiset{e} + multiset(entries)
    ensures |Placed(e, entries, descending)| == |entries| + 1
    ensures forall x :: x in Placed(e, entries, descending) ==> x == e || x in entries
    decreases |entries|
  {
    if entries != [] {
      assert entries == [entries[0]] + entries[1..];
      PlacedAdds(e, entries[1..], descending);
    }
  }

  // ---- Merging one group ----

  predicate AllInserts(entries: seq<Entry>) { forall i :: 0 <= i < |entries| ==> entries[i].command.InsertText? }

  predicate AllDeletes(entries: seq<Entry>) { forall i :: 0 <= i < |entries| ==> entries[i].command.DeleteText? }

  // Where the text of an insertion ends.
  function End(e: Entry): nat
    requires e.command.InsertText?
  {
    e.command.position + |e.command.text|
  }

  predicate Adjacent(sorted: seq<Entry>, maxMergeDistance: nat)
    requires AllInserts(sorted)
  {
    forall i :: 1 <= i < |sorted| ==> Abs(Position(sorted[i]) - End(sorted[i - 1])) <= maxMergeDistance
  }

  function Spaces(n: nat): (r: string)
    ensures |r| == n
  {
    if n == 0 then "" else Spaces(n - 1) + " "
  }

  // The blanks standing for what lies between an insertion and the one before it.
  function Gap(before: Entry, e: Entry): nat
    requires before.command.InsertText?
  {
    if Position(e) > End(before) then Position(e) - End(before) else 0
  }

  // The text of the first n insertions, with blanks in the gaps.
  function MergedText(sorted: seq<Entry>, n: nat): string
    requires AllInserts(sorted) && n <= |sorted|
  {
    if n == 0 then ""
    else if n == 1 then sorted[0].command.text
    else MergedText(sorted, n - 1) + Spaces(Gap(sorted[n - 2], sorted[n - 1])) + sorted[n - 1].command.text
  }

  function MergedInserts(entries: seq<Entry>, maxMergeDistance: nat): Aggregation
    requires AllInserts(entries)
  {
    var sorted := Sorted(entries, false);
    if |entries| < 2 || !Adjacent(sorted, maxMergeDistance) then Aggregation(None, entries)
    else
      var first := sorted[0].command;
      var text := MergedText(sorted, |sorted|);
      Aggregation(Some(InsertText(first.documentId, first.userId, first.position, text)), entries)
  }

  method InsertsAreAdjacent(sorted: seq<Entry>, maxMergeDistance: nat) returns (adjacent: bool)
    requires AllInserts(sorted) && sorted != []
    ensures adjacent == Adjacent(sorted, maxMergeDistance)
  {
    for i := 1 to |sorted|
      invariant forall k :: 1 <= k < i ==> Abs(Position(sorted[k]) - End(sorted[k - 1])) <= maxMergeDistance
    {
      var expectedPosition := sorted[i - 1].command.position + |sorted[i - 1].command.text|;
      if Abs(sorted[i].command.position - expectedPosition) > maxMergeDistance {
        return false;
      }
    }
    adjacent := true;
  }

  method JoinInserts(sorted: seq<Entry>) returns (mergedText: string)
    requires AllInserts(sorted) && sorted != []
    ensures mergedText == MergedText(sorted, |sorted|)
  {
    mergedText := sorted[0].command.text;
    var lastPosition := sorted[0].command.position + |sorted[0].command.text|;
    for i := 1 to |sorted|
      invariant mergedText == MergedText(sorted, i) && lastPosition == End(sorted[i - 1])
    {
      var command := sorted[i].command;
      var blanks := "";
      if command.position > lastPosition {
        blanks := Spaces(command.position - lastPosition);
      }
      assert blanks == Spaces(Gap(sorted[i - 1], sorted[i]));
      mergedText := mergedText + blanks + command.text;
      lastPosition := command.position + |command.text|;
    }
  }

  method MergeInsertTextCommands(entries: seq<Entry>, maxMergeDistance: nat) returns (r: Aggregation)
    requires AllInserts(entries)
    ensures r == MergedInserts(entries, maxMergeDistance)
  {
    if |entries| < 2 {
      return Aggregation(None, entries);
    }
    var sorted := Sorted(entries, false);
    var adjacent := InsertsAreAdjacent(sorted, maxMergeDistance);
    if !adjacent {
      return Aggregation(None, entries);
    }
    var firstCommand := sorted[0].command;
    var mergedText := JoinInserts(sorted);
    var merged := InsertText(firstCommand.documentId, firstCommand.userId, firstCommand.position, mergedText);
    r := Aggregation(Some(merged), entries);
  }

  // Each deletion after the highest takes the one character before the place of the one before it.
  predicate Backspaces(sorted: seq<Entry>)
    requires AllDeletes(sorted)
  {
    forall i :: 1 <= i < |sorted| ==>
        sorted[i].command.length == 1 && Position(sorted[i]) == Position(sorted[i - 1]) - 1
  }

  function MergedDeletes(entries: seq<Entry>): Aggregation
    requires AllDeletes(entries)
  {
    var sorted := Sorted(entries, true);
    if |entries| < 2 || !Backspaces(sorted) then Aggregation(None, entries)
    else
      var lowest, highest := sorted[|sorted| - 1].command, sorted[0].command;
      BackspacesDescend(sorted, |sorted| - 1);
      var length := highest.position - lowest.position + 1;
      Aggregation(Some(DeleteText(lowest.documentId, lowest.userId, lowest.position, length)), entries)
  }

  lemma {:induction false} BackspacesDescend(sorted: seq<Entry>, i: nat)
    requires AllDeletes(sorted) && Backspaces(sorted) && i < |sorted|
    ensures Position(sorted[i]) + i == Position(sorted[0])
  {
    if i > 0 {
      BackspacesDescend(sorted, i - 1);
    }
  }

  method MergeDeleteTextCommands(entries: seq<Entry>) returns (r: Aggregation)
    requires AllDeletes(entries)
    ensures r == MergedDeletes(entries)
  {
    if |entries| < 2 {
      return Aggregation(None, entries);
    }
    var sorted := Sorted(entries, true);
    var isConsecutiveBackspaces := true;
    var previousPosition: int := sorted[0].command.position;
    var i := 1;
    while i < |sorted|
      invariant 1 <= i <= |sorted| && isConsecutiveBackspaces
      invariant previousPosition == Position(sorted[i - 1])
      invariant forall k :: 1 <= k < i ==>
                sorted[k].command.length == 1 && Position(sorted[k]) == Position(sorted[k - 1]) - 1
    {
      var command := sorted[i].command;
      if command.length != 1 || command.position != previousPosition - 1 {
        isConsecutiveBackspaces := false;
        break;
      }
      previousPosition := command.position;
      i := i + 1;
    }
    if isConsecutiveBackspaces {
      var firstCommand, lastCommand := sorted[|sorted| - 1].command, sorted[0].command;
      BackspacesDescend(sorted, |sorted| - 1);
      return Aggregation(Some(DeleteText(firstCommand.documentId, firstCommand.userId, firstCommand.position,
                                         lastCommand.position - firstCommand.position + 1)), entries);
    }
    r := Aggregation(None, entries);
  }

  // ---- Grouping ----

  predicate CanMerge(first: Entry, e: Entry, maxMergeDistance: nat) {
    && SameKind(first.command, e.command)
    && first.command.documentId == e.command.documentId
    && (first.sectionId.Some? && first.sectionId.value != "" && e.sectionId.Some? && e.sectionId.value != "" ==>
          first.sectionId == e.sectionId)
    && first.command.userId == e.command.userId
    && match first.command
       case InsertText(_, _, p, _) => Abs(Position(e) - p) <= maxMergeDistance
       case DeleteText(_, _, p, n) => Abs(Position(e) - (p + n)) <= 1
       case Other(_, _, _, _) => false
  }

  // The group a first entry opens: as long as entries follow that merge with it.
  ghost predicate Group(entries: seq<Entry>, maxMergeDistance: nat) {
    entries != [] && forall i :: 1 <= i < |entries| ==> CanMerge(entries[0], entries[i], maxMergeDistance)
  }

  function Merged(entries: seq<Entry>, maxMergeDistance: nat): (r: Aggregation)
    ensures r.originalCommands == entries
  {
    if |entries| <= 1 then Aggregation(None, entries)
    else if entries[0].command.InsertText? && AllInserts(entries) then MergedInserts(entries, maxMergeDistance)
    else if entries[0].command.DeleteText? && AllDeletes(entries) then MergedDeletes(entries)
    else Aggregation(None, entries)
  }

  method MergeCommandGroup(entries: seq<Entry>, maxMergeDistance: nat) returns (r: Aggregation)
    requires Group(entries, maxMergeDistance)
    ensures r == Merged(entries, maxMergeDistance)
  {
    if |entries| == 1 {
      return Aggregation(None, entries);
    }
    match entries[0].command
    case InsertText(_, _, _, _) => r := MergeInsertTextCommands(entries, maxMergeDistance);
    case DeleteText(_, _, _, _) => r := MergeDeleteTextCommands(entries);
    case Other(_, _, _, _) => r := Aggregation(None, entries);
  }

  // The open group followed by the entries still to come, cut where an entry does not merge.
  function Groups(group: seq<Entry>, rest: seq<Entry>, maxMergeDistance: nat): seq<seq<Entry>>
    requires group != []
    decreases |rest|
  {
    if rest == [] then [group]
    else if CanMerge(group[0], rest[0], maxMergeDistance) then Groups(group + [rest[0]], rest[1..], maxMergeDistance)
    else [group] + Groups([rest[0]], rest[1..], maxMergeDistance)
  }

  function MergedAll(groups: seq<seq<Entry>>, maxMergeDistance: nat): seq<Aggregation> {
    if groups == [] then [] else [Merged(groups[0], maxMergeDistance)] + MergedAll(groups[1..], maxMergeDistance)
  }

  function Aggregated(entries: seq<Entry>, maxMergeDistance: nat): seq<Aggregation> {
    if entries == [] then []
    else if |entries| == 1 then [Aggregation(None, entries)]
    else
      var sorted := Sorted(entries, false);
      MergedAll(Groups([sorted[0]], sorted[1..], maxMergeDistance), maxMergeDistance)
  }

  method AggregateCommands(entries: seq<Entry>, maxMergeDistance: nat) returns (results: seq<Aggregation>)
    ensures results == Aggregated(entries, maxMergeDistance)
  {
    if |entries| <= 1 {
      return if |entries| == 0 then [] else [Aggregation(None, entries)];
    }
    var sorted := Sorted(entries, false);
    results := [];
    var currentGroup := [sorted[0]];
    for i := 1 to |sorted|
      invariant Group(currentGroup, maxMergeDistance)
      invariant results + MergedAll(Groups(currentGroup, sorted[i..], maxMergeDistance), maxMergeDistance)
             == Aggregated(entries, maxMergeDistance)
    {
      var entry := sorted[i];
      assert sorted[i..][1..] == sorted[i + 1..];
      if CanMerge(currentGroup[0], entry, maxMergeDistance) {
        currentGroup := currentGroup + [entry];
      } else {
        var merged := MergeCommandGroup(currentGroup, maxMergeDistance);
        ghost var later := Groups([entry], sorted[i + 1..], maxMergeDistance);
        assert ([currentGroup] + later)[1..] == later;
        results := results + [merged];
        currentGroup := [entry];
      }
    }
    var merged := MergeCommandGroup(currentGroup, maxMergeDistance);
    assert [currentGroup][1..] == [];
    results := results + [merged];
  }

  // Section by section, in the order in which the sections came.
  ghost predicate Flushed(buffered: seq<Entry>, results: seq<Aggregation>, maxMergeDistance: nat) {
    exists sections ::
      GroupedByArrival(buffered, sections) && results == AggregatedSections(sections, maxMergeDistance)
  }

  method AggregateSections(sections: seq<Section>, maxMergeDistance: nat) returns (results: seq<Aggregation>)
    ensures results == AggregatedSections(sections, maxMergeDistance)
  {
    results := [];
    for i := 0 to |sections|
      invariant results == AggregatedSections(sections[..i], maxMergeDistance)
    {
      var more := AggregateCommands(sections[i].entries, maxMergeDistance);
      assert sections[..i + 1][..i] == sections[..i];
      results := results + more;
    }
    assert sections[..|sections|] == sections;
  }

  /** The buffers, one for each document, and the buffer size that adapts to success and failure. */
  class CommandAggregator {
    const maxBufferSize: nat
    const maxMergeDistance: nat
    const enableAdaptiveBuffering: bool
    var commandBuffer: map<string, seq<Entry>>
    var adaptiveBufferSize: nat

    ghost predicate Valid() reads this { maxBufferSize >= 1 ==> 1 <= adaptiveBufferSize <= maxBufferSize }

    constructor (maxBufferSize: nat, maxMergeDistance: nat, enableAdaptiveBuffering: bool)
      ensures Valid() && commandBuffer == map[] && adaptiveBufferSize == maxBufferSize
      ensures this.maxBufferSize == maxBufferSize && this.maxMergeDistance == maxMergeDistance
      ensures this.enableAdaptiveBuffering == enableAdaptiveBuffering
    {
      this.maxBufferSize, this.maxMergeDistance := maxBufferSize, maxMergeDistance;
      this.enableAdaptiveBuffering := enableAdaptiveBuffering;
      commandBuffer, adaptiveBufferSize := map[], maxBufferSize;
    }

    method AddToBuffer(entry: Entry)
      requires Valid()
      modifies this
      ensures Valid() && adaptiveBufferSize == old(adaptiveBufferSize)
      ensures var id := entry.command.documentId;
              var buffered := if id in old(commandBuffer) then old(commandBuffer)[id] else [];
              commandBuffer == old(commandBuffer)[id := buffered + [entry]]
    {
      var id := entry.command.documentId;
      if id !in commandBuffer {
        commandBuffer := commandBuffer[id := []];
      }
      commandBuffer := commandBuffer[id := commandBuffer[id] + [entry]];
    }

    // What executing the results brings is a parameter: whether it failed.
    method FlushBuffer(documentId: string, failed: bool) returns (results: seq<Aggregation>)
      requires Valid()
      modifies this
      ensures Valid()
      ensures commandBuffer == if documentId in old(commandBuffer) && old(commandBuffer)[documentId] != []
                               then old(commandBuffer) - {documentId} else old(commandBuffer)
      ensures var buffered := if documentId in old(commandBuffer) then old(commandBuffer)[documentId] else [];
              Flushed(buffered, results, maxMergeDistance)
      ensures adaptiveBufferSize ==
                if !enableAdaptiveBuffering || documentId !in old(commandBuffer) || old(commandBuffer)[documentId] == []
                then old(adaptiveBufferSize)
                else if failed then Max(1, old(adaptiveBufferSize) - 1)
                else Min(maxBufferSize, old(adaptiveBufferSize) + 1)
    {
      results := [];
      if documentId !in commandBuffer || |commandBuffer[documentId]| == 0 {
        assert GroupedByArrival([], []) && AggregatedSections([], maxMergeDistance) == [];
        return;
      }
      var bufferEntries := commandBuffer[documentId];
      commandBuffer := commandBuffer - {documentId};
      var sections := GroupBySection(bufferEntries);
      results := AggregateSections(sections, maxMergeDistance);
      if enableAdaptiveBuffering {
        if failed {
          adaptiveBufferSize := Max(1, adaptiveBufferSize - 1);
        } else {
          adaptiveBufferSize := Min(maxBufferSize, adaptiveBufferSize + 1);
        }
      }
    }
  }

  function AggregatedSections(sections: seq<Section>, maxMergeDistance: nat): seq<Aggregation> {
    if sections == [] then []
    else AggregatedSections(sections[..|sections| - 1], maxMergeDistance)
         + Aggregated(sections[|sections| - 1].entries, maxMergeDistance)
  }
}

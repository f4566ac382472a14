# Consistency layer of a collaborative text editor: model and proofs

The project models the parts of the editor that keep many users' views of a document consistent, and
proves what they are for.

- **Concurrent edits.** `OperationalTransform` has the three edits, the transformation of one edit
  against another, and execution. `Convergence` proves that any batch of edits that are pairwise apart
  (by the detector's overlap test) or deletions gives one document in whatever order a replica
  integrates it, and that this document is the one an independent reading of the batch describes,
  position by position (`Rendered`, over `Joins`). `TransformTwice` proves that two executed edits may
  be met in either order. `TransformExactness` states, for all nine pairs of edit kinds, exactly when
  two replicas that exchange one edit each converge, and `TransformMeaning` what the transformed edit is
  and which document a replica ends with, for every pair, overlapping or not.
- **Conflict detection and merging.** `ConflictDetector` models the detector with its early exits, and
  `ConflictMerge` connects it to merging by transformation: what is found apart merges to one text, and
  what goes unreported otherwise converges exactly when the edits agree. `ConflictMeaning` gives every
  verdict its own condition and ties the detector's order to causality.
- **Clocks.** `VectorClocks` and `HybridLogicalClocks` are classes over the two clocks. `Causality`
  has runs of a distributed system and the happened-before relation; `VectorClockCausality` and
  `HybridClockCausality` prove what the clocks say about it in every run. `ClockReadings` says what a
  hybrid clock reads after every event and what it makes of any stamp.
- **Cursors.** `CursorManager` is the class that moves carets and selections; `CursorTracking` says
  which text a selection covers afterwards and ties carets to the transformation.
- **Undo and redo.** `CommandInverter` has the text commands, their inverses and exactly when an
  inverse restores the text. `CommandHistory` is the class with the bounded list and the position;
  `HistoryRuns` proves the whole-run claims about it, `HistorySteps` what one step does to any history.
- **Event replay.** `EventReplay` has replay and its algebra, `ReplayedFields` what a replayed state holds
  field by field, `EventStore` the store with snapshot jobs
  that read, write and end at separate times and batches that commit or roll back among other appends,
  `StoreSteps` what each step does, `SnapshotSafety` what holds in every interleaving, `LateEvents` when a snapshot survives an event that
  is committed after events of later versions.
- **Smaller protocols.** `GrammarCorrections` and `CorrectionEdits` (the positional difference of two
  texts), `CommandAggregator`, `AggregationMeaning`, `AggregationGroups` and `ArrivalOrder` (buffering and
  merging of commands, what the results mean, and what executing them in position order changes),
  `Bulkhead` (the shared concurrency counter).

Objects whose methods change fields are classes here; each method's contract gives the new state by a
specification function, and the lemmas are about those functions. Concurrency is modelled as a state
machine over atomic steps. The current time, the tenant, the automatic colour and the outcome of a
command that runs elsewhere are parameters. Positions and lengths are natural numbers; slices clamp to
the end of the text as the source's do. `Options`, `Bounds` and `Slices` hold the small shared helpers.

## Where the code and its documentation differ

- The architecture note promises convergence of any two operations
  (docs/dev/architecture/OperationalTransform.md:276) and a transformation that takes a priority to break
  ties (docs/dev/architecture/OperationalTransform.md:41-47). The code has no priority and shifts both of
  two insertions at one position. The model follows the code; `TransformExactness.ConvergesIff` is the
  exact region in which the promise is kept, `ConflictMerge.OverlapDiverges` a pair outside it.
- `EventStore.appendEvents` starts a snapshot job inside the transaction that stores the batch, so the job
  can read before the batch is committed. `SnapshotSafety.ReadStaysRightIff` gives the exact condition under
  which a snapshot stays right, `SnapshotSafety.EarlyReadLosesBatch` a run in which it does not.
- Nothing keeps versions in the order of the commits. `LateEvents.LateEventIff` says exactly when a snapshot
  survives an event that comes late, `LateEvents.LateEventLost` gives one that is lost.
- The merge of deletions does not look at the length of the highest one, and the merge of insertions fills
  gaps with blanks. `AggregationMeaning.MergedDeletesIff` and `AggregationMeaning.MergedInsertsIff` say
  exactly when the merged command means what the originals mean, `AggregationGroups.ResultMeansIff` applies
  both to the results; `AggregationGroups.HighestLengthDropped` and `AggregationGroups.GapsFilled` are inputs
  on which it does not.
- Of a group of several commands that is not merged only the first is executed, though all are settled.
  `AggregationGroups.ExecutionConservesIff` says exactly when nothing is lost that way,
  `AggregationGroups.UnmergedGroupLoses` gives two deletions of which one is lost.
- Commands are executed by position, not in the order they were issued. `ArrivalOrder.ArrivalKeptIff` and
  `ArrivalOrder.ArrivalKeptForAllIff` say exactly when that changes nothing for two commands,
  `ArrivalOrder.LaterComesFirst` gives two insertions for which it does.
- Undoing a replacement fails although the inverter can invert it: its undo type has no handler.
  `HistoryRuns.UndoKeeps` includes that failure, `HistoryRuns.ReplacementStays` is an instance.

## Model

| member | source | states |
|---|---|---|
| Convergence.TransformAdjusts | src/collaborative/OperationalTransform.ts:46-270 | against a compatible edit, the whole case analysis amounts to leaving the edit alone, shifting it, or keeping what the other deletion leaves |
| Convergence.TransformReads | src/collaborative/OperationalTransform.ts:46-270 | a transformed edit removes and types, at every position's new place, what it removed and typed at its old one, and touches nothing the other edit put there |
| Convergence.TransformKeepsMember | src/collaborative/OperationalTransform.ts:46-270 | a transformed edit is in bounds of the changed document and still effective |
| Convergence.TransformKeepsCompatible | src/collaborative/OperationalTransform.ts:46-270 | transforming two compatible edits against a third leaves them compatible |
| Convergence.ExecuteKeepsRendered | src/collaborative/OperationalTransform.ts:275-286 | executing one edit of a batch and transforming the others keeps the document the batch describes |
| Convergence.ReplicaRenders | src/collaborative/OperationalTransform.ts:46-286 | a replica that transforms each incoming edit against all it executed ends in the described document |
| Convergence.ReplicasConverge | src/collaborative/OperationalTransform.ts:46-286 | a batch of pairwise compatible edits integrated in any two orders gives one and the same document, the one the batch describes |
| Convergence.DeletionsRemoveTheirUnion | src/collaborative/OperationalTransform.ts:154-203 | any number of arbitrarily overlapping deletions, in any order, leaves exactly the characters none of them covers |
| Convergence.PairConverges | src/collaborative/OperationalTransform.ts:46-286 | two compatible edits converge, on the document both describe |
| TransformTwice.TransformTwiceAgrees | src/collaborative/OperationalTransform.ts:46-270 | transforming an edit against two executed ones in either order gives the same edit, up to where an empty deletion sits |
| TransformTwice.EmptyDeletionIsNeutral | src/collaborative/OperationalTransform.ts:46-270 | a deletion of nothing transforms every edit to itself |
| TransformTwice.EmptyDeletionStays | src/collaborative/OperationalTransform.ts:154-203 | a deletion of nothing stays one against every compatible edit |
| TransformExactness.ConvergesIff | src/collaborative/OperationalTransform.ts:46-286 | for every pair of in-bounds edits of any kinds on any document, the two replicas converge if and only if a condition on the two edits alone holds |
| TransformExactness.OutOfBoundsDiverges | src/collaborative/OperationalTransform.ts:275-286 | past the end of the document edits that agree can diverge, so the bounds are needed |
| TransformMeaning.TransformMeans | src/collaborative/OperationalTransform.ts:46-270 | for any two edits whatever, overlapping or not: the transformed edit keeps its kind, starts where its start is carried, cuts what it would have cut and the text of the other exactly when it reaches over both its sides, and loses of its own text what stands for characters that are gone |
| TransformMeaning.MeansDetermine | src/collaborative/OperationalTransform.ts:46-270 | these facts leave no other edit |
| TransformMeaning.TransformedLeaves | src/collaborative/OperationalTransform.ts:46-286 | for any two in-bounds edits, the document of a replica that executes one and then the other as transformed, told without any transformation |
| TransformMeaning.TypedInside | src/collaborative/OperationalTransform.ts:46-286 | a text put inside what another edit takes away is gone on one replica and stays on the other |
| TransformMeaning.ReplaceIsDeleteThenInsert | src/collaborative/OperationalTransform.ts:275-286 | wherever it is made, a replacement does what a deletion and an insertion at its place do |
| ConflictDetector.DetectConflict | src/conflicts/ConflictDetector.ts:33-197 | the verdict: same author or document, time window, version and clocks first, then the regions and kinds |
| ConflictDetector.DetectConflicts | src/conflicts/ConflictDetector.ts:204-218 | the two nested loops return the list the next three lemmas describe |
| ConflictDetector.PairsInOrder | src/conflicts/ConflictDetector.ts:204-218 | the list has each pair of places whose operations conflict once, in order of place, the earlier operation first, and no others |
| ConflictDetector.PairsExactly | src/conflicts/ConflictDetector.ts:204-218 | two operations are returned as a pair exactly when they conflict and one stands before the other |
| ConflictDetector.NoPairs | src/conflicts/ConflictDetector.ts:204-218 | nothing is returned exactly when no two operations conflict |
| ConflictDetector.DetectionMirrors | src/conflicts/ConflictDetector.ts:33-197 | the verdict does not depend on the order of the two operations: before and after change places, a conflict keeps its kind and region |
| ConflictMeaning.FirstSourceCounts | src/conflicts/ConflictDetector.ts:223-276 | position, length, kind and attributes are each taken from the first source that is there, the own one before the nested one |
| ConflictMeaning.SettledIff | src/conflicts/ConflictDetector.ts:33-117 | every outcome before the regions are compared, by the condition under which it is reported |
| ConflictMeaning.ConflictIff | src/conflicts/ConflictDetector.ts:119-171 | a conflict is reported exactly when nothing settles the pair earlier, some position lies in both regions (or an empty region strictly inside the other), and the two do not format different attributes |
| ConflictMeaning.RegionIsShared | src/conflicts/ConflictDetector.ts:139-141 | the region reported is exactly the positions in both regions |
| ConflictMeaning.TypeIsOfStronger | src/conflicts/ConflictDetector.ts:143-180 | which kinds give which type of conflict |
| ConflictMeaning.DetectorOrdersCausally | src/conflicts/ConflictDetector.ts:98-117 | for operations with the clocks of two events of one run, the detector orders them exactly as they happened, and goes on to the regions exactly when neither knew of the other |
| ConflictMerge.DetectorMeasures | src/conflicts/ConflictDetector.ts:223-266 | the detector's getters read an edit's position, width and kind, from either form an edit comes in |
| ConflictMerge.DetectorSoundForMerging | src/conflicts/ConflictResolver.ts:269-293 | when the detector finds two edits apart, merging gives one content whichever is local, the one both describe on the base, and the operations each merge reports reproduce it from the base |
| ConflictMerge.MergeMeans | src/conflicts/ConflictResolver.ts:278-292 | for any content and any two operations: the local one is reported as it is, the remote one as what is left of it beside the local one, and the content is the local one with that executed |
| ConflictMerge.MergeLeaves | src/conflicts/ConflictResolver.ts:269-293 | the merged content itself, for any two in-bounds operations on the base |
| ConflictMerge.MergeSymmetricIff | src/conflicts/ConflictResolver.ts:269-293 | it does not depend on which operation is local exactly when the two agree |
| ConflictMerge.MergedDeletions | src/conflicts/ConflictResolver.ts:269-293 | of any two deletions the merge leaves the characters neither takes |
| ConflictMerge.MergedInside | src/conflicts/ConflictResolver.ts:269-293 | a text inserted inside what the other operation takes away is lost when local and kept when remote |
| ConflictMerge.NoConflictsConverge | src/conflicts/ConflictDetector.ts:117-136 | a batch of pairwise concurrent edits, none settled by author, document, time, version or clock, in which no conflict is detected converges at every replica in every order |
| ConflictMerge.UnreportedConvergeIff | src/conflicts/ConflictDetector.ts:33-197 | for every pair without a conflict, settled early or not: it converges exactly when the detector compared the regions or the two edits agree |
| ConflictMerge.SameAuthorDiverges | src/conflicts/ConflictDetector.ts:35-42 | two insertions of one author that are never reported and diverge |
| ConflictMerge.OverlapDiverges | src/conflicts/ConflictResolver.ts:278-285 | two overlapping replacements whose merge depends on which one is local |
| VectorClocks.VectorClock.constructor | src/collaborative/VectorClock.ts:13-21 | starts from the given counts, counting one event of a named user |
| VectorClocks.VectorClock.Increment | src/collaborative/VectorClock.ts:27-29 | adds one to the user's count and changes no other |
| VectorClocks.VectorClock.Compare | src/collaborative/VectorClock.ts:43-77 | the two loops compute the comparison that the order lemmas below are about |
| VectorClocks.VectorClock.Merge | src/collaborative/VectorClock.ts:83-89 | the loop yields the merged clock, shown below to be the least upper bound |
| VectorClocks.VectorClock.Equals | src/collaborative/VectorClock.ts:95-113 | true exactly when every user has the same count, missing read as zero |
| VectorClocks.IncrementedCounts | src/collaborative/VectorClock.ts:27-29 | what an increment does to every count |
| VectorClocks.MergedCounts | src/collaborative/VectorClock.ts:83-89 | what a merge does to every count, whatever the counts are |
| VectorClocks.ComparisonsFind | src/collaborative/VectorClock.ts:43-77 | what both comparisons find, whatever the counts are |
| VectorClocks.PositiveKept | src/collaborative/VectorClock.ts:27-29 | increments and merges keep every entry positive |
| VectorClocks.ComparedMeans | src/collaborative/VectorClock.ts:43-77 | the comparison is the pointwise order of the counts |
| VectorClocks.BeforeIsStrictOrder | src/collaborative/VectorClock.ts:43-77 | before is irreflexive, transitive, and the converse of after |
| VectorClocks.MergedIsLeastUpperBound | src/collaborative/VectorClock.ts:83-89 | the merge is above both clocks and below every clock that is |
| VectorClocks.MergeOrder | src/collaborative/VectorClock.ts:83-89 | merging is commutative, associative and idempotent |
| VectorClocks.CompareVectorClocks | src/conflicts/ConflictDetector.ts:294-324 | the detector's own loops compute its own comparison |
| VectorClocks.DetectorFlagsMean | src/conflicts/ConflictDetector.ts:294-324 | the detector's flags are the pointwise order, but a zero entry the other clock does not count exceeds it |
| VectorClocks.ComparisonsAgree | src/conflicts/ConflictDetector.ts:294-324 | the two independently written comparisons agree on every clock that counts only upwards |
| VectorClocks.ZeroCountSetsThemApart | src/conflicts/ConflictDetector.ts:294-324 | a zero entry, which no run produces, makes them differ |
| VectorClockCausality.ClocksCharacteriseCausality | src/collaborative/VectorClock.ts:27-89 | in every run, one event's clock compares as before another's exactly when it happened before it |
| VectorClockCausality.CountIsCausalPast | src/collaborative/VectorClock.ts:27-89 | a node's count for u is the number of u's events in its causal past, never above u's own |
| HybridLogicalClocks.HybridLogicalClock.constructor | src/transactions/TransactionManager.ts:19-23 | an initial time of zero is replaced by the current time |
| HybridLogicalClocks.HybridLogicalClock.Tick | src/transactions/TransactionManager.ts:29-42 | the new reading and the stamp written for it |
| HybridLogicalClocks.HybridLogicalClock.Update | src/transactions/TransactionManager.ts:49-66 | the new reading after receiving any stamp, one that cannot be read included |
| HybridLogicalClocks.HybridLogicalClock.Compare | src/transactions/TransactionManager.ts:95-106 | the verdict on any two stamps; for those a clock writes it is the order of the readings |
| HybridLogicalClocks.NumbersAreStamps | src/transactions/TransactionManager.ts:29-106 | on readings that are numbers the clock works on stamps, and comparing is their lexicographic order in all three directions |
| HybridLogicalClocks.LostForGood | src/transactions/TransactionManager.ts:29-66 | a wall time stops being a number exactly by receiving one that is none, and then never is one again |
| HybridLogicalClocks.TickAdvances | src/transactions/TransactionManager.ts:29-42 | a local event strictly advances the clock |
| HybridLogicalClocks.UpdateAdvances | src/transactions/TransactionManager.ts:49-66 | a reception exceeds the remote stamp always, and the local one exactly unless local time is ahead of both |
| HybridLogicalClocks.FormatReadsBack | src/transactions/TransactionManager.ts:71-87 | what a clock writes, from any reading, parses back to it, and to its name exactly when the name has no dash |
| ClockReadings.TickIsLeast | src/transactions/TransactionManager.ts:29-42 | a local event takes the clock to the least stamp above its own that is not behind the time |
| ClockReadings.UpdateIsLeast | src/transactions/TransactionManager.ts:49-66 | a reception takes it to the least wall time not behind any of the three, and to which counter |
| ClockReadings.WithoutWall | src/transactions/TransactionManager.ts:29-66 | what a clock without a wall time, or receiving none, reads |
| ClockReadings.WithoutCounter | src/transactions/TransactionManager.ts:29-66 | where a counter that is no number is passed on, and where it is not used |
| ClockReadings.ComparesInTurn | src/transactions/TransactionManager.ts:95-106 | any two readings: the wall times decide if they can, then the counters if they can |
| ClockReadings.NumberIsRead | src/transactions/TransactionManager.ts:79-87 | digits are read behind blanks and a plus sign and up to the first character that is none |
| ClockReadings.NoNumberIsRead | src/transactions/TransactionManager.ts:79-87 | anything else is no number |
| ClockReadings.DigitsCount | src/transactions/TransactionManager.ts:79-87 | digits are read as decimal |
| ClockReadings.StampParts | src/transactions/TransactionManager.ts:79-87 | which parts of a stamp are read, and what is missing |
| ClockReadings.StampLooks | src/transactions/TransactionManager.ts:71-73 | the written form on an example |
| HybridClockCausality.WallNeverAhead | src/transactions/TransactionManager.ts:29-66 | with a shared non-decreasing time, and clocks created at any time not ahead of it, no clock runs ahead of it and the counter is never reset on reception |
| HybridClockCausality.StampsFollowCausality | src/transactions/TransactionManager.ts:29-66 | stamps strictly increase along every causal chain of every such run |
| HybridClockCausality.TimeGoingBackFallsBehind | src/transactions/TransactionManager.ts:56-63 | when physical time goes back a reception can fall behind the node's own last stamp |
| HybridClockCausality.AdvancesForAllIff | src/transactions/TransactionManager.ts:49-66 | the next reception is sure to advance a clock, whatever it brings that is not ahead of the time, exactly when the clock itself is not ahead of it |
| CursorManager.CursorManager.UpdateCursorPosition | src/collaboration/CursorManager.ts:127-176 | stores the cursor with its fallbacks for name and colour and its time, and changes no other cursor |
| CursorManager.CursorManager.CursorAfterInsertion | src/collaboration/CursorManager.ts:276-311 | one cursor's new caret and selection after an insertion |
| CursorManager.CursorManager.CursorAfterDeletion | src/collaboration/CursorManager.ts:344-403 | one cursor's new caret and selection after a deletion, all six branches |
| CursorManager.CursorManager.AdjustCursorsForInsertion | src/collaboration/CursorManager.ts:251-312 | every cursor of the document but the excluded user's is adjusted, no other document's |
| CursorManager.CursorManager.AdjustCursorsForDeletion | src/collaboration/CursorManager.ts:317-404 | every cursor of the document but the excluded user's is adjusted, no other document's |
| CursorTracking.DeletionMovesBothEnds | src/collaboration/CursorManager.ts:357-393 | the six branches move each end as a caret moves: for all forward selections, and for backward ones under an exact condition |
| CursorTracking.InsertionMovesEnds | src/collaboration/CursorManager.ts:285-301 | which end of any selection an insertion moves, and by how much |
| CursorTracking.DeletionOfForward | src/collaboration/CursorManager.ts:357-393 | where each end of any forward selection goes |
| CursorTracking.DeletionOfBackward | src/collaboration/CursorManager.ts:357-393 | what becomes of any backward selection |
| CursorTracking.SelectionFollows | src/collaboration/CursorManager.ts:251-404 | a cursor's new selection is decided by its old one alone |
| CursorTracking.CursorSelectsSpan | src/collaboration/CursorManager.ts:251-404 | a cursor selects after an edit what the edit leaves of the text it selected, and nothing else of it changes |
| CursorTracking.AllCursorsFollow | src/collaboration/CursorManager.ts:251-404 | for every user of the document: the named user's cursor stays, every other one selects what the edit leaves of the text it selected |
| CursorTracking.SessionSelectsSpans | src/collaboration/CursorManager.ts:251-404 | so at every step of every session |
| CursorTracking.SelectionKeepsSurvivors | src/collaboration/CursorManager.ts:357-393 | after a deletion the selection covers exactly the surviving characters of the old one, in order |
| CursorTracking.SelectionAroundInsertion | src/collaboration/CursorManager.ts:285-301 | after an insertion the selection covers the same text, with the new text in it exactly when put strictly inside |
| CursorTracking.CaretAgreesWithTransform | src/collaboration/CursorManager.ts:251-404 | over any list of insertions and deletions a caret stays where a pending insertion would be transformed to |
| CursorTracking.CursorStaysWithin | src/collaboration/CursorManager.ts:251-404 | over any session carets and selections stay in bounds and selections stay ordered |
| CursorTracking.AllInsertionsUndone | src/collaboration/CursorManager.ts:251-404 | inserting and then deleting the same span restores every caret and selection, backward ones included |
| CommandInverter.InsertUndoneIff | src/history/CommandInverter.ts:72-86 | undoing an insertion restores the text exactly when it was made inside the text or was empty |
| CommandInverter.DeleteUndoneIff | src/history/CommandInverter.ts:91-114 | undoing a deletion restores the text exactly when it carries the text it deleted; without one it fails |
| CommandInverter.ReplaceUndoneIff | src/history/CommandInverter.ts:165-183 | the exact condition, for all positions, under which inverting a replacement restores the text |
| CommandInverter.MoveUndone | src/history/CommandInverter.ts:189-221 | undoing a move restores the text, forward and backward |
| CommandInverter.MoveInvertedTwiceIff | src/history/CommandInverter.ts:189-221 | inverting a move twice gives it back exactly when its target is not strictly inside the moved range |
| CommandInverter.InvertedTwice | src/history/CommandInverter.ts:72-183 | what inverting an insertion, a deletion or a replacement twice gives |
| CommandInverter.MoveInverseStarts | src/history/CommandInverter.ts:189-221 | a move's inverse takes the text from where the move puts it, all of it |
| CommandInverter.InverseFindsItsHandler | src/history/CommandHistory.ts:381-392 | whenever an inverse and a handler for its type can be had, the handler is that of the inverse |
| CommandInverter.ExecutesAsEdit | src/collaborative/OperationalTransform.ts:275-286 | commands do to a text what the edits of the collaboration layer do |
| CommandHistory.CommandHistory.AddToHistory | src/history/CommandHistory.ts:113-172 | truncates after the position, appends, drops the oldest entry past the cap, and leaves other documents alone |
| CommandHistory.CommandHistory.Undo | src/history/CommandHistory.ts:179-256 | the new state and result of an undo, with failures, for this document alone; ends despite the mutual recursion |
| CommandHistory.CommandHistory.SkipToPreviousUndoable | src/history/CommandHistory.ts:399-418 | finds the last entry that can be undone and undoes it |
| CommandHistory.CommandHistory.Redo | src/history/CommandHistory.ts:263-336 | the new state and result of a redo, with failures, for this document alone; ends despite the mutual recursion |
| CommandHistory.CommandHistory.SkipToNextRedoable | src/history/CommandHistory.ts:425-444 | finds the first undone entry after the position and redoes it |
| CommandHistory.LastUndoable | src/history/CommandHistory.ts:404-415 | the place found can be undone and none between it and the position can |
| CommandHistory.NextUndone | src/history/CommandHistory.ts:430-441 | the place found is undone and none between the position and it is |
| HistorySteps.CapacityIs | src/history/CommandHistory.ts:147-150 | a history given no size holds a hundred entries |
| HistorySteps.RecordingIs | src/history/CommandHistory.ts:113-172 | what recording does to any history: entries kept, the one dropped, position, version |
| HistorySteps.UndoIs | src/history/CommandHistory.ts:179-256 | what undo does to any history: which entry, the new text, marks, position and version, and every failure |
| HistorySteps.RedoIs | src/history/CommandHistory.ts:263-336 | the same of redo |
| HistorySteps.UndoFailsWith | src/history/CommandHistory.ts:179-256 | what an undo fails with in a run, and where it then stands |
| HistorySteps.VersionCountsChanges | src/history/CommandHistory.ts:113-336 | in every run the version is the number of steps that changed something |
| HistoryRuns.StuckIff | src/history/CommandHistory.ts:381-392 | exactly deletions without their text and replacements have no inverse that can be executed |
| HistoryRuns.ReplacementStays | src/history/CommandHistory.ts:381-392 | a replacement whose inverse would restore the text and whose undo fails |
| HistoryRuns.UndoKeeps | src/history/CommandHistory.ts:179-256 | undo keeps the invariant even when it fails, marks at most one entry, and fails, succeeds or finds nothing under exact conditions |
| HistoryRuns.RedoKeeps | src/history/CommandHistory.ts:263-336 | redo keeps the invariant, never fails, and clears the mark of the first undone entry if there is one |
| HistoryRuns.DoKeeps | src/history/CommandHistory.ts:113-172 | executing and recording a faithful command keeps the invariant, the base moving on by the command the cap drops |
| HistoryRuns.RunReplays | src/history/CommandHistory.ts:113-336 | in every state of every run the text is the replay of the commands up to the position, and an entry is undone exactly when it can be and lies after it |
| HistoryRuns.BaseStays | src/history/CommandHistory.ts:147-150 | as long as the cap is not passed the replay starts from the run's first text |
| HistoryRuns.UndoThenRedo | src/history/CommandHistory.ts:179-336 | k undos and k redos restore the text and every mark, for every k |
| HistoryRuns.UndoRestoresIffFaithful | src/history/CommandHistory.ts:200-221 | recording and undoing a command restores the text exactly when the command is faithful |
| EventReplay.TailAfter | src/events/EventStore.ts:266-293 | with increasing versions the events after a version are the log without the events up to it |
| EventReplay.EventsBetweenExactly | src/events/EventStore.ts:266-293 | reading a version range gives the logged events of those versions and no others |
| EventReplay.AbsorbedTwice | src/events/EventStore.ts:514-530 | by default, replaying again events a state already absorbed changes nothing |
| EventReplay.ResumesForAllIff | src/events/EventStore.ts:566-584 | for all handlers alike, resuming is right exactly when the state absorbed exactly the events not replayed |
| ReplayedFields.FieldsAfterReplay | src/events/EventStore.ts:514-530 | by default, from any state: the three fields of the last event, and for every other field the value of the last event that carries it |
| ReplayedFields.HandlersDecide | src/events/EventStore.ts:483-505 | an event with a handler is applied by it alone |
| ReplayedFields.RangeInOrder | src/events/EventStore.ts:266-293 | the range query goes through the log in order and keeps each event of a version in the range |
| ReplayedFields.InsertedInPlace | src/events/EventStore.ts:283-286 | an event is behind those of its version or an earlier one and before the others |
| ReplayedFields.NotFoundIff | src/events/EventStore.ts:538-592 | when an aggregate is not found, and what is replayed otherwise |
| EventStore.EventStore.AppendEvent | src/events/EventStore.ts:129-186 | logs the event in version order and may start a job; a foreign tenant changes nothing |
| EventStore.EventStore.AppendEvents | src/events/EventStore.ts:193-257 | refuses a foreign tenant and a batch for several aggregates; otherwise opens a transaction beside those already open, and may start a job for the batch's last event before it is committed |
| EventStore.EventStore.CheckAndCreateSnapshot | src/events/EventStore.ts:408-432 | starts a job exactly at the frequency, with none running for the aggregate and fewer than the maximum in all |
| EventStore.EventStore.RebuildStateFromEvents | src/events/EventStore.ts:483-505 | the loop computes the replay from the empty state |
| EventStore.EventStore.ReadForSnapshot | src/events/EventStore.ts:459-464 | a job's read replays what is committed by then, under its own label |
| EventStore.EventStore.ReconstructState | src/events/EventStore.ts:538-592 | the replay after the snapshot, or the error for an aggregate with neither; overriding handlers do not outlive the call |
| EventStore.Latest | src/events/EventStore.ts:307-313 | a snapshot of the highest version, if there is any |
| StoreSteps.JobStartsIff | src/events/EventStore.ts:408-432 | a job starts exactly at a multiple of the frequency, with none running for the aggregate and room for one, and nothing else changes |
| StoreSteps.AppendDoes | src/events/EventStore.ts:129-186 | where an appended event is logged, and the job it starts |
| StoreSteps.OpenDoes | src/events/EventStore.ts:216-256 | a batch logs nothing while it is open, and starts a job of its last version |
| StoreSteps.CommitDoes | src/events/EventStore.ts:216-256 | committed in order its events follow the log, and only that batch is no longer open |
| StoreSteps.CommitInserts | src/events/EventStore.ts:216-256 | committed out of order they are put in their places one after the other |
| StoreSteps.RollBackDoes | src/events/EventStore.ts:216-256 | rolled back nothing of it is left |
| StoreSteps.NoBatchNoEnd | src/events/EventStore.ts:216-256 | a batch that is not open cannot end |
| StoreSteps.JobDoes | src/events/EventStore.ts:439-475 | a job replays all that is logged when it reads, stores that under the version it started with, and makes room when it ends |
| StoreSteps.JobStepsInOrder | src/events/EventStore.ts:459-475 | a job reads once and writes once |
| StoreSteps.StepKeepsOrder | src/events/EventStore.ts:129-293 | whatever is appended and committed, every log is in the order of the versions |
| SnapshotSafety.StepKeepsSafe | src/events/EventStore.ts:129-475 | every step keeps, also while batches are open on the aggregate: each snapshot and each pending write absorbed at least all events up to its label; a read does when the log holds the event of its label |
| SnapshotSafety.StepKeepsSeen | src/events/EventStore.ts:129-475 | a job goes on seeing the event it is labelled with through every step, and only a batch can start one that does not |
| SnapshotSafety.JobsStayPaced | src/events/EventStore.ts:408-432 | in every run no more jobs run at once than the maximum, and every job and snapshot is labelled with a version at the frequency |
| SnapshotSafety.SnapshotsReconstruct | src/events/EventStore.ts:538-592 | in every interleaving of appends, several open batches, commits, roll-backs and jobs, in which no job started by a batch reads before the log holds its event, reconstruction from any snapshot equals full replay, also when the snapshot absorbed later events |
| SnapshotSafety.AppendsReconstruct | src/events/EventStore.ts:129-186 | when events are appended one at a time that holds in every interleaving, with nothing asked of the reads |
| SnapshotSafety.ReadStaysRightIff | src/events/EventStore.ts:459-475 | a snapshot stays right however the log grows exactly when its read saw an event of its label's version or later |
| SnapshotSafety.RightForAllHandlersIff | src/events/EventStore.ts:538-592 | for all handlers alike, a snapshot is right exactly when it absorbed the events up to its label and no others |
| SnapshotSafety.EarlyReadLosesBatch | src/events/EventStore.ts:216-256 | a run in which a batch's own job reads before the commit and the batch is lost to reconstruction |
| LateEvents.LateEventIff | src/events/EventStore.ts:538-592 | an event committed after a snapshot, in whatever place of the version order, is not lost to reconstruction from it exactly when its version is above the label or what it writes is written over later or was there already |
| LateEvents.LateEventLost | src/events/EventStore.ts:140-170 | an event of version 1 committed after a snapshot labelled 2 is lost |
| GrammarCorrections.NextMatch | src/ai/commands/grammar-check-command.ts:95-103 | the first agreeing position within reach, if there is one |
| GrammarCorrections.ParseCorrections | src/ai/commands/grammar-check-command.ts:65-127 | the loop returns exactly the runs of differing positions, apart from one another, all but the last preserving length |
| GrammarCorrections.PatchingRestores | src/ai/commands/grammar-check-command.ts:65-127 | putting each correction in place of the text it covers gives the corrected text |
| GrammarCorrections.NoCorrectionsIffSame | src/ai/commands/grammar-check-command.ts:65-127 | there are no corrections exactly when the texts are the same |
| CorrectionEdits.CorrectionsInAnyOrder | src/ai/commands/grammar-check-command.ts:65-127 | made as concurrent edits and integrated in any order, the corrections make the corrected text |
| CommandAggregator.GroupBySection | src/aggregation/CommandAggregator.ts:283-297 | every section once, in the order in which their first entries came, each with its entries in the order of arrival, and no entry without a section |
| CommandAggregator.MergeInsertTextCommands | src/aggregation/CommandAggregator.ts:403-468 | merges when each insertion starts within the distance of the one before it ends, filling gaps with blanks |
| CommandAggregator.MergeDeleteTextCommands | src/aggregation/CommandAggregator.ts:476-536 | merges when each deletion after the highest takes the one character before the last |
| CommandAggregator.AggregateCommands | src/aggregation/CommandAggregator.ts:305-349 | sorts by position and cuts into groups that merge with their first entry |
| CommandAggregator.CommandAggregator.AddToBuffer | src/aggregation/CommandAggregator.ts:146-154 | appends to the buffer of the command's document only |
| CommandAggregator.CommandAggregator.FlushBuffer | src/aggregation/CommandAggregator.ts:188-226 | empties the document's buffer into the aggregates of its sections and adapts the buffer size within its limits |
| AggregationMeaning.AggregationConserves | src/aggregation/CommandAggregator.ts:305-349 | the results carry every entry exactly once, in position order |
| AggregationMeaning.SortedInOrder | src/aggregation/CommandAggregator.ts:316-320 | the entries are sorted by position |
| AggregationMeaning.FlushConserves | src/aggregation/CommandAggregator.ts:188-226 | over all sections the results carry every buffered entry exactly once |
| AggregationMeaning.AggregationSeparates | src/aggregation/CommandAggregator.ts:624-680 | only commands of one kind, document and user are merged, and the merged command is of that kind, document and user |
| AggregationMeaning.MergedDeletesIff | src/aggregation/CommandAggregator.ts:476-536 | the merged deletion erases what the run erases highest first exactly when the highest one erases one character's worth |
| AggregationMeaning.MergedInsertsIff | src/aggregation/CommandAggregator.ts:403-468 | for every run that is merged, overlapping or not: the merged insertion puts what the run puts in position order exactly when the text the run leaves by its own positions is the merged text |
| AggregationMeaning.MergedApartIff | src/aggregation/CommandAggregator.ts:403-468 | for a run without overlaps that is exactly when there are no gaps |
| AggregationMeaning.MergedPairIff | src/aggregation/CommandAggregator.ts:403-468 | for two insertions it is exactly when they leave no gap and the second text commutes with the part of the first it is put before |
| AggregationGroups.ExecutionConservesIff | src/aggregation/CommandAggregator.ts:234-275 | executing the results brings the effect of every entry exactly when each group of two or more is a run of insertions near enough to one another, or of deletions place by place of one character each, the last of any length |
| AggregationGroups.GroupMergesIff | src/aggregation/CommandAggregator.ts:358-397 | a group is merged exactly when it is such a run, told from its entries in position order |
| AggregationGroups.ResultMeansIff | src/aggregation/CommandAggregator.ts:305-536 | every merged command among the results: for insertions it means what they mean exactly when their own positions put the merged text together, for deletions, never more than three, exactly when the highest takes one character |
| AggregationGroups.SortedStaysIff | src/aggregation/CommandAggregator.ts:316-320 | sorting changes nothing exactly when the entries come in position order |
| AggregationGroups.SortedKeepsTies | src/aggregation/CommandAggregator.ts:316-320 | entries at one position stay in the order in which they came |
| AggregationGroups.SortedIsOnlyOne | src/aggregation/CommandAggregator.ts:316-320 | no other list is in order and does that |
| AggregationGroups.MergingSorts | src/aggregation/CommandAggregator.ts:403-536 | entries in any order are merged into what they are merged into in position order |
| AggregationGroups.PositionIs | src/aggregation/CommandAggregator.ts:721-727 | where a command counts as being |
| AggregationGroups.SectionsIff | src/aggregation/CommandAggregator.ts:283-297 | when two entries are put in one section |
| AggregationGroups.ResultsAreCut | src/aggregation/CommandAggregator.ts:624-680 | every entry of a group joins its first one, and the first of each group does not join the first of the one before it |
| AggregationGroups.MergedCommandIs | src/aggregation/CommandAggregator.ts:403-536 | the merged command itself: where it stands, every text at its offset with blanks only between them, as many characters as there were deletions |
| AggregationGroups.SectionsAggregateApart | src/aggregation/CommandAggregator.ts:188-226 | a flush aggregates each section on its own, one after the other |
| AggregationGroups.UnmergedGroupLoses | src/aggregation/CommandAggregator.ts:245-262 | two deletions side by side of which the second is never executed |
| AggregationGroups.HighestLengthDropped | src/aggregation/CommandAggregator.ts:496-525 | two deletions merged into one that leaves text they take |
| AggregationGroups.GapsFilled | src/aggregation/CommandAggregator.ts:439-452 | two insertions merged into one that puts blanks nobody typed |
| ArrivalOrder.EditedIsApplied | src/collaborative/OperationalTransform.ts:275-286 | an insertion or a deletion executed by slices does what it does character by character |
| ArrivalOrder.ArrivalKeptIff | src/aggregation/CommandAggregator.ts:316-320 | two insertions or deletions at any positions: sorting them keeps what they do to a text exactly when they came in position order, or the text by which the first would miss its place looks the same either way |
| ArrivalOrder.ArrivalKeptForAllIff | src/aggregation/CommandAggregator.ts:316-320 | on every text alike exactly when they came in position order or one of the two does nothing |
| ArrivalOrder.DeletionErases | src/aggregation/CommandAggregator.ts:316-320 | of three commands the last can erase on every text what the order of the first two changed |
| ArrivalOrder.LaterComesFirst | src/aggregation/CommandAggregator.ts:316-320 | two insertions that are not merged, change places and leave another text |
| Bulkhead.CounterStore.IncrementCounter | src/circuit-breaker/redis-store.ts:129-145 | adds one to that counter and returns it |
| Bulkhead.CounterStore.DecrementCounter | src/circuit-breaker/redis-store.ts:147-165 | takes one off, never leaving the counter below zero |
| Bulkhead.CounterStore.ExecuteWithBulkhead | src/circuit-breaker/adaptive-breaker.ts:167-194 | alone, a call is refused exactly at the limit, and leaves every counter as it was whatever the outcome (one below zero comes back to zero) |
| Bulkhead.BulkheadHolds | src/circuit-breaker/adaptive-breaker.ts:167-194 | in every interleaving the counter is the number in flight, no more than l run under limits of at most l, and the clamp never acts |
| Bulkhead.StepLeads | src/circuit-breaker/adaptive-breaker.ts:167-194 | a caller's course step by step, no other caller touched |
| Bulkhead.TurnedAwayIff | src/circuit-breaker/adaptive-breaker.ts:174-184 | at every check of every run, however late, a caller is turned away exactly when its limit of callers were in flight when it arrived |
| Bulkhead.TurnedAwayWhileNoneRuns | src/circuit-breaker/adaptive-breaker.ts:174-194 | callers turned away still count, so one can be turned away while nobody runs |

## Left out

- HybridClockCausality.StampsFollowCausality: initial wall times ahead of the shared physical time are excluded, since stamps can then fall behind (`HybridClockCausality.AdvancesForAllIff`); initial times that are no number, and the precision of very large numbers, are not modelled.
- CommandAggregator.CommandAggregator.FlushBuffer: whether executing the results fails is a parameter; executing them is not modelled, nor are timers and the flush of all buffers, which does nothing.
- EventStore.EventStore.AppendEvents: schema checks, which accept every event in the source, and identifiers made up for events.
- SnapshotSafety.SnapshotsReconstruct: rests on versions that increase from one commit to the next (`LateEvents.LateEventIff` is about the others), and on jobs started by a batch reading only once the log holds their event; the store itself enforces neither (`SnapshotSafety.EarlyReadLosesBatch`).
- SnapshotSafety.AppendsReconstruct: rests on increasing versions alone.
- LateEvents.LateEventIff: a late event has a version no logged event has; handlers are the default ones.
- ArrivalOrder.ArrivalKeptForAllIff: is about two commands; of three, a deletion can erase what the order of the other two changed (`ArrivalOrder.DeletionErases`).
- HistoryRuns.RunReplays: commands of other kinds leave the text alone; formatting commands and clearing a history are not in the model.
- Authors and time stamps of edits, which the transformation copies and never reads, and the composition of edits, which the source marks as a placeholder.
- The text-based merge, the token merge, and the reconstruction of a base text whose result merging does not use.
- The detector's confidence score, a floating-point number.
- Negative and not-a-number positions and lengths of edits and carets, history sizes and buffer sizes.
- What a handler does with the data of another type's command: here it fails.
- Clocks that share one record with their creator, and user names that are names of built-in record members.
- The tenant-less calls that every operation refuses; documents are named by a key that includes the tenant.
- Transactions, metrics, compliance logs, cursor clean-up timers, the choice of the automatic colour.
- Formatting commands in the aggregator, and the computation of a command's section from its position.
- Two aggregates whose tenant and identifier run together to one text share a job slot in the source; here they do not.
- The expiry of the bulkhead's counter, store calls that fail, and the breaker's own states.
- The second vector clock under src/conflicts, the projection cache, training and feature-flag code.

/** What each step does to any history, faithful or not: positions, versions and failures. */
module HistorySteps {
  import opened CommandHistory
  import opened CommandInverter
  import opened HistoryRuns
  import opened Options

  /** A history given no size holds a hundred entries. */
  lemma {:induction false} CapacityIs(maxHistorySize: nat)
    ensures maxHistorySize == 0 ==> Capacity(maxHistorySize) == 100
    ensures maxHistorySize > 0 ==> Capacity(maxHistorySize) == maxHistorySize
  {
  }

  /**
   * Recording keeps the entries up to the position, in order, puts the new one behind them and stands on
   * it; only when they would be more than the capacity the oldest one goes.
   */
  lemma {:induction false} RecordingIs(s: State, c: Command, capacity: nat)
    requires Addresses(s) && capacity > 0
    ensures var after, dropped := Added(s, c, capacity), if s.position + 2 > capacity then 1 else 0;
            && |after.entries| == s.position + 2 - dropped
            && after.position == |after.entries| - 1
            && (forall i :: 0 <= i < |after.entries| - 1 ==> after.entries[i] == s.entries[i + dropped])
            && after.entries[after.position] == Entry(c, !c.Custom?, false)
            && after.version == s.version + 1 && after.text == s.text
  {
  }

  // The entry an undo is about: the one at the position, or the last one before it that can be undone.
  function UndoTarget(s: State): int
    requires Addresses(s)
  {
    if s.position >= 0 && s.entries[s.position].canUndo then s.position else LastUndoable(s.entries, s.position)
  }

  function RedoTarget(s: State): int
    requires Addresses(s)
  {
    NextUndone(s.entries, s.position)
  }

  /** Undo, on any history: what it answers, and what is then different. */
  lemma {:induction false} UndoIs(s: State)
    requires Addresses(s)
    ensures var q, u := UndoTarget(s), Undone(s);
            if q < 0 then u == Outcome(s, Ok(false))
            else
              var c := s.entries[q].command;
              if Invert(c).Err? then u == Outcome(s.(position := q), Err(Invert(c).error))
              else
                var ran := ExecuteAs(InverseType(c), s.text, Invert(c).value);
                if ran.Err? then u == Outcome(s.(position := q), Err(ran.error))
                else
                  && u.result == Ok(true) && u.state.text == ran.value
                  && u.state.position == q - 1 && u.state.version == s.version + 1
                  && u.state.entries == s.entries[q := s.entries[q].(undone := true)]
  {
    assert s.position >= 0 && s.entries[s.position].canUndo ==> s.(position := s.position) == s;
  }

  /** Redo, on any history. */
  lemma {:induction false} RedoIs(s: State)
    requires Addresses(s)
    ensures var q, r := RedoTarget(s), Redone(s);
            if q == |s.entries| then r == Outcome(s, Ok(false))
            else
              var c := s.entries[q].command;
              var ran := ExecuteAs(TypeOf(c), s.text, c);
              if ran.Err? then r == Outcome(s.(position := q - 1), Err(ran.error))
              else
                && r.result == Ok(true) && r.state.text == ran.value
                && r.state.position == q && r.state.version == s.version + 1
                && r.state.entries == s.entries[q := s.entries[q].(undone := false)]
  {
    if s.position + 1 < |s.entries| && s.entries[s.position + 1].undone {
      assert s.(position := s.position) == s;
    }
  }

  /** What undo fails with: a deletion for want of its text, a replacement for want of a handler. */
  lemma {:induction false} UndoFailsWith(base: string, s: State, capacity: nat)
    requires Invariant(base, s, capacity) && Undone(s).result.Err?
    ensures var q := LastUndoable(s.entries, s.position);
            && q >= 0 && Undone(s).state == s.(position := q)
            && var c := s.entries[q].command;
               Undone(s).result == if c.DeleteText? then Err(MissingOldText)
                                   else Err(Unregistered(UndoOf(REPLACE_TEXT)))
  {
    UndoKeeps(base, s, capacity);
    UndoIs(s);
  }

  // ---- Versions ----

  // The step records, undoes or redoes something.
  predicate Changes(s: State, step: Step)
    requires Addresses(s)
  {
    match step
    case Do(c) => Execute(s.text, c).Ok?
    case Undo => Undone(s).result == Ok(true)
    case Redo => Redone(s).result == Ok(true)
  }

  lemma {:induction false} StepVersion(s: State, step: Step, capacity: nat)
    requires Addresses(s)
    ensures Next(s, step, capacity).version == s.version + if Changes(s, step) then 1 else 0
  {
    match step
    case Do(_) =>
    case Undo => UndoIs(s);
    case Redo => RedoIs(s);
  }

  function ChangesBefore(states: seq<State>, steps: seq<Step>, k: nat): nat
    requires k <= |steps| < |states| && forall i :: 0 <= i < |states| ==> Addresses(states[i])
  {
    if k == 0 then 0 else ChangesBefore(states, steps, k - 1) + if Changes(states[k - 1], steps[k - 1]) then 1 else 0
  }

  /** In every run, the version is the number of steps so far that changed something. */
  lemma {:induction false} VersionCountsChanges(states: seq<State>, steps: seq<Step>, capacity: nat, k: nat)
    requires IsRun(states, steps, capacity) && k < |states| && states[0].version == 0
    ensures states[k].version == ChangesBefore(states, steps, k)
  {
    if k > 0 {
      VersionCountsChanges(states, steps, capacity, k - 1);
      assert states[k - 1 + 1] == Next(states[k - 1], steps[k - 1], capacity);
      StepVersion(states[k - 1], steps[k - 1], capacity);
    }
  }
}

/**
 * Undo and redo. A document has a list of recorded commands and a position in it: the command at the
 * position is the last one in effect. Every document is named by its tenant and identifier together.
 */
module CommandHistory {
  import opened CommandInverter
  import opened Options

  datatype Entry = Entry(command: Command, canUndo: bool, undone: bool)

  /** What is kept for one document, with the text its commands act on. */
  datatype State = State(entries: seq<Entry>, position: int, version: nat, text: string)

  datatype Outcome = Outcome(state: State, result: Result<bool, Error>)

  const EMPTY := State([], -1, 0, "")

  // ---- Recording a command ----

  function Capacity(maxHistorySize: nat): nat { if maxHistorySize == 0 then 100 else maxHistorySize }

  // What lies after the position is dropped, the command is appended, and the oldest entry makes room for it.
  function Recorded(entries: seq<Entry>, position: int, command: Command, capacity: nat): seq<Entry>
    requires -1 <= position
  {
    var kept := if position < |entries| - 1 then entries[..position + 1] else entries;
    var longer := kept + [Entry(command, CanUndo(command), false)];
    if |longer| > capacity then longer[1..] else longer
  }

  function Added(s: State, command: Command, capacity: nat): State
    requires -1 <= s.position
  {
    var entries := Recorded(s.entries, s.position, command, capacity);
    State(entries, |entries| - 1, s.version + 1, s.text)
  }

  // ---- Undo ----

  // The last place at or before p holding an entry that can be undone and is not; -1 when there is none.
  function LastUndoable(entries: seq<Entry>, p: int): (q: int)
    requires -1 <= p < |entries|
    ensures -1 <= q <= p
    ensures q >= 0 ==> entries[q].canUndo && !entries[q].undone
    ensures forall i :: q < i <= p ==> !(entries[i].canUndo && !entries[i].undone)
    decreases p + 1
  {
    if p < 0 || (entries[p].canUndo && !entries[p].undone) then p else LastUndoable(entries, p - 1)
  }

  predicate Addresses(s: State) { -1 <= s.position < |s.entries| }

  // Undoing the entry at the position.
  function UndoneHere(s: State): (r: Outcome)
    requires 0 <= s.position < |s.entries|
    ensures Addresses(r.state) && |r.state.entries| == |s.entries|
  {
    var entry := s.entries[s.position];
    match Invert(entry.command)
    case Err(e) => Outcome(s, Err(e))
    case Ok(inverse) =>
      match ExecuteAs(InverseType(entry.command), s.text, inverse)
      case Err(e) => Outcome(s, Err(e))
      case Ok(text) =>
        Outcome(State(s.entries[s.position := entry.(undone := true)], s.position - 1, s.version + 1, text), Ok(true))
  }

  function SkippedBack(s: State): (r: Outcome)
    requires Addresses(s)
    ensures Addresses(r.state) && |r.state.entries| == |s.entries|
  {
    var q := LastUndoable(s.entries, s.position);
    if q < 0 then Outcome(s, Ok(false)) else UndoneHere(s.(position := q))
  }

  function Undone(s: State): (r: Outcome)
    requires Addresses(s)
    ensures Addresses(r.state) && |r.state.entries| == |s.entries|
  {
    if s.position < 0 then Outcome(s, Ok(false))
    else if s.entries[s.position].canUndo then UndoneHere(s)
    else SkippedBack(s)
  }

  // ---- Redo ----

  // The first place after p holding an undone entry; the length when there is none.
  function NextUndone(entries: seq<Entry>, p: int): (q: int)
    requires -1 <= p < |entries|
    ensures p < q <= |entries|
    ensures q < |entries| ==> entries[q].undone
    ensures forall i :: p < i < q ==> !entries[i].undone
    decreases |entries| - p
  {
    if p + 1 == |entries| || entries[p + 1].undone then p + 1 else NextUndone(entries, p + 1)
  }

  // Redoing the entry after the position.
  function RedoneHere(s: State): (r: Outcome)
    requires -1 <= s.position < |s.entries| - 1
    ensures Addresses(r.state) && |r.state.entries| == |s.entries|
  {
    var entry := s.entries[s.position + 1];
    match ExecuteAs(TypeOf(entry.command), s.text, entry.command)
    case Err(e) => Outcome(s, Err(e))
    case Ok(text) =>
      var entries := s.entries[s.position + 1 := entry.(undone := false)];
      Outcome(State(entries, s.position + 1, s.version + 1, text), Ok(true))
  }

  function SkippedForward(s: State): (r: Outcome)
    requires Addresses(s)
    ensures Addresses(r.state) && |r.state.entries| == |s.entries|
  {
    var q := NextUndone(s.entries, s.position);
    if q == |s.entries| then Outcome(s, Ok(false)) else RedoneHere(s.(position := q - 1))
  }

  function Redone(s: State): (r: Outcome)
    requires Addresses(s)
    ensures Addresses(r.state) && |r.state.entries| == |s.entries|
  {
    if s.position >= |s.entries| - 1 then Outcome(s, Ok(false))
    else if s.entries[s.position + 1].undone then RedoneHere(s)
    else SkippedForward(s)
  }

  class CommandHistory {
    var history: map<string, seq<Entry>>
    var historyPosition: map<string, int>
    var documentVersions: map<string, nat>
    var documents: map<string, string>
    const maxHistorySize: nat

    function Entries(key: string): seq<Entry> reads this { if key in history then history[key] else [] }

    function Position(key: string): int reads this { if key in historyPosition then historyPosition[key] else -1 }

    function Version(key: string): nat reads this { if key in documentVersions then documentVersions[key] else 0 }

    // The text the registered command handlers keep for the document.
    function Document(key: string): string reads this { if key in documents then documents[key] else "" }

    ghost function View(key: string): State
      reads this
    {
      State(Entries(key), Position(key), Version(key), Document(key))
    }

    constructor (maxHistorySize: nat)
      ensures this.maxHistorySize == maxHistorySize
      ensures forall key :: View(key) == EMPTY
    {
      this.maxHistorySize := maxHistorySize;
      history, historyPosition, documentVersions, documents := map[], map[], map[], map[];
    }

    method IncrementDocumentVersion(key: string)
      modifies this`documentVersions
      ensures documentVersions == old(documentVersions)[key := old(Version(key)) + 1]
    {
      documentVersions := documentVersions[key := Version(key) + 1];
    }

    // The command registry: the handler found under the type changes the document, or nothing happens.
    method RegistryExecute(key: string, commandType: CommandType, command: Command) returns (done: Result<bool, Error>)
      modifies this`documents
      ensures var ran := ExecuteAs(commandType, old(Document(key)), command);
              if ran.Ok? then done == Ok(true) && documents == old(documents)[key := ran.value]
              else done == Err(ran.error) && documents == old(documents)
    {
      var ran := ExecuteAs(commandType, Document(key), command);
      if ran.Err? {
        return Err(ran.error);
      }
      documents := documents[key := ran.value];
      done := Ok(true);
    }

    method AddToHistory(key: string, command: Command) returns (entry: Entry)
      requires Addresses(View(key))
      modifies this
      ensures Addresses(View(key))
      ensures View(key) == Added(old(View(key)), command, Capacity(maxHistorySize))
      ensures forall k :: k != key ==> View(k) == old(View(k))
      ensures entry == Entry(command, CanUndo(command), false)
    {
      var documentHistory := Entries(key);
      var position := Position(key);
      if position < |documentHistory| - 1 {
        documentHistory := documentHistory[..position + 1];
        history := history[key := documentHistory];
      }
      entry := Entry(command, CanUndo(command), false);
      documentHistory := documentHistory + [entry];
      if |documentHistory| > Capacity(maxHistorySize) {
        documentHistory := documentHistory[1..];
      }
      history := history[key := documentHistory];
      historyPosition := historyPosition[key := |documentHistory| - 1];
      IncrementDocumentVersion(key);
    }

    method Undo(key: string) returns (r: Result<bool, Error>)
      requires Addresses(View(key))
      modifies this
      ensures Addresses(View(key))
      ensures Outcome(View(key), r) == Undone(old(View(key)))
      ensures forall k :: k != key ==> View(k) == old(View(k))
      decreases if 0 <= Position(key) < |Entries(key)| && Entries(key)[Position(key)].canUndo then 0 else 2
    {
      var documentHistory := Entries(key);
      var position := Position(key);
      if position < 0 || |documentHistory| == 0 {
        return Ok(false);
      }
      var entry := documentHistory[position];
      if !entry.canUndo {
        r := SkipToPreviousUndoable(key);
        return;
      }
      var inverse := Invert(entry.command);
      if inverse.Err? {
        return Err(inverse.error);
      }
      r := RegistryExecute(key, InverseType(entry.command), inverse.value);
      if r.Err? {
        return;
      }
      documentHistory := documentHistory[position := entry.(undone := true)];
      historyPosition := historyPosition[key := position - 1];
      history := history[key := documentHistory];
      IncrementDocumentVersion(key);
    }

    method SkipToPreviousUndoable(key: string) returns (r: Result<bool, Error>)
      requires Addresses(View(key))
      modifies this
      ensures Addresses(View(key))
      ensures Outcome(View(key), r) == SkippedBack(old(View(key)))
      ensures forall k :: k != key ==> View(k) == old(View(k))
      decreases 1
    {
      var documentHistory := Entries(key);
      var position := Position(key);
      while position >= 0
        invariant -1 <= position < |documentHistory|
        invariant LastUndoable(documentHistory, position) == LastUndoable(documentHistory, Position(key))
        invariant unchanged(this)
      {
        var entry := documentHistory[position];
        if entry.canUndo && !entry.undone {
          historyPosition := historyPosition[key := position];
          assert View(key) == old(View(key)).(position := position);
          r := Undo(key);
          return;
        }
        position := position - 1;
      }
      r := Ok(false);
    }

    method Redo(key: string) returns (r: Result<bool, Error>)
      requires Addresses(View(key))
      modifies this
      ensures Addresses(View(key))
      ensures Outcome(View(key), r) == Redone(old(View(key)))
      ensures forall k :: k != key ==> View(k) == old(View(k))
      decreases if -1 <= Position(key) < |Entries(key)| - 1 && Entries(key)[Position(key) + 1].undone then 0 else 2
    {
      var documentHistory := Entries(key);
      var position := Position(key);
      if position >= |documentHistory| - 1 {
        return Ok(false);
      }
      var entry := documentHistory[position + 1];
      if !entry.undone {
        r := SkipToNextRedoable(key);
        return;
      }
      r := RegistryExecute(key, TypeOf(entry.command), entry.command);
      if r.Err? {
        return;
      }
      documentHistory := documentHistory[position + 1 := entry.(undone := false)];
      historyPosition := historyPosition[key := position + 1];
      history := history[key := documentHistory];
      IncrementDocumentVersion(key);
    }

    method SkipToNextRedoable(key: string) returns (r: Result<bool, Error>)
      requires Addresses(View(key))
      modifies this
      ensures Addresses(View(key))
      ensures Outcome(View(key), r) == SkippedForward(old(View(key)))
      ensures forall k :: k != key ==> View(k) == old(View(k))
      decreases 1
    {
      var documentHistory := Entries(key);
      var position := Position(key);
      while position < |documentHistory| - 1
        invariant -1 <= position < |documentHistory|
        invariant NextUndone(documentHistory, position) == NextUndone(documentHistory, Position(key))
        invariant unchanged(this)
      {
        var entry := documentHistory[position + 1];
        if entry.undone {
          historyPosition := historyPosition[key := position];
          assert View(key) == old(View(key)).(position := position);
          r := Redo(key);
          return;
        }
        position := position + 1;
      }
      r := Ok(false);
    }
  }
}

/**
 * Whole runs of recording, undoing and redoing: the text is always the replay of the commands up to
 * the position, and undoing any number of commands and redoing as many restores it.
 */
module HistoryRuns {
  import opened CommandHistory
  import opened CommandInverter
  import opened Options
  import opened Slices

  // ---- Replaying commands ----

  function Effect(text: string, c: Command): string {
    var ran := Execute(text, c);
    if ran.Ok? then ran.value else text
  }

  function Replay(base: string, commands: seq<Command>): string
    decreases |commands|
  {
    if commands == [] then base else Replay(Effect(base, commands[0]), commands[1..])
  }

  // The command says the truth about the text it acts on: it inserts inside it, or carries what it deletes.
  predicate Faithful(text: string, c: Command) {
    match c
    case InsertText(p, s) => p <= |text| || s == ""
    case DeleteText(p, n, Some(gone)) => gone == Take(Drop(text, p), n)
    case _ => true
  }

  predicate Sound(base: string, commands: seq<Command>)
    decreases |commands|
  {
    commands == [] ||
    (Execute(base, commands[0]).Ok? && Faithful(base, commands[0]) && Sound(Effect(base, commands[0]), commands[1..]))
  }

  lemma {:induction false} ReplaySplit(base: string, xs: seq<Command>, ys: seq<Command>)
    ensures Replay(base, xs + ys) == Replay(Replay(base, xs), ys)
    ensures Sound(base, xs + ys) <==> Sound(base, xs) && Sound(Replay(base, xs), ys)
    decreases |xs|
  {
    if xs == [] {
      assert xs + ys == ys;
    } else {
      assert (xs + ys)[1..] == xs[1..] + ys;
      ReplaySplit(Effect(base, xs[0]), xs[1..], ys);
    }
  }

  lemma {:induction false} ReplayNeutral(base: string, commands: seq<Command>)
    requires forall i :: 0 <= i < |commands| ==> commands[i].Custom?
    ensures Replay(base, commands) == base
    decreases |commands|
  {
    if commands != [] {
      ReplayNeutral(base, commands[1..]);
    }
  }

  function Commands(entries: seq<Entry>): (r: seq<Command>)
    ensures |r| == |entries|
    ensures forall i :: 0 <= i < |entries| ==> r[i] == entries[i].command
  {
    if entries == [] then [] else [entries[0].command] + Commands(entries[1..])
  }

  // ---- The invariant ----

  /** An entry is undone exactly when it can be undone and lies after the position. */
  ghost predicate Zones(s: State, capacity: nat) {
    && Addresses(s) && |s.entries| <= capacity
    && forall i :: 0 <= i < |s.entries| ==>
         && s.entries[i].canUndo == CanUndo(s.entries[i].command)
         && s.entries[i].undone == (s.entries[i].canUndo && i > s.position)
  }

  /** Beside the zones: the text is the replay, on the base text, of the commands up to the position. */
  ghost predicate Invariant(base: string, s: State, capacity: nat) {
    && Zones(s, capacity)
    && Sound(base, Commands(s.entries))
    && s.text == Replay(base, Commands(s.entries)[..s.position + 1])
  }

  // ---- One inverse ----

  // A faithful command's inverse, when it is found and run, restores the text.
  lemma {:induction false} InverseRestores(text: string, c: Command)
    requires Execute(text, c).Ok? && Faithful(text, c)
    requires Invert(c).Ok? && Registered(InverseType(c))
    ensures Execute(Effect(text, c), Invert(c).value) == Ok(text)
  {
    match c
    case InsertText(p, s) => InsertUndoneIff(text, p, s);
    case DeleteText(p, n, gone) => DeleteUndoneIff(text, p, n, gone.value);
    case MoveText(s, t, n) => MoveUndone(text, s, t, n);
    case _ =>
  }

  // ---- Moving the position over entries that cannot be undone ----

  lemma {:induction false} SlideKeeps(base: string, s: State, p: int, capacity: nat)
    requires Invariant(base, s, capacity) && -1 <= p < |s.entries|
    requires forall i :: p < i <= s.position || s.position < i <= p ==> !s.entries[i].canUndo
    ensures Invariant(base, s.(position := p), capacity)
  {
    var low, high := if p < s.position then p else s.position, if p < s.position then s.position else p;
    ReplayOver(base, Commands(s.entries), low + 1, high + 1);
  }

  lemma {:induction false} ReplayOver(base: string, commands: seq<Command>, low: nat, high: nat)
    requires low <= high <= |commands| && forall i :: low <= i < high ==> commands[i].Custom?
    ensures Replay(base, commands[..high]) == Replay(base, commands[..low])
  {
    assert commands[..high] == commands[..low] + commands[low..high];
    ReplaySplit(base, commands[..low], commands[low..high]);
    ReplayNeutral(Replay(base, commands[..low]), commands[low..high]);
  }

  // The text before the command at p, and its effect there.
  lemma {:induction false} SoundAt(base: string, commands: seq<Command>, p: nat)
    requires Sound(base, commands) && p < |commands|
    ensures var before := Replay(base, commands[..p]);
            Execute(before, commands[p]).Ok? && Faithful(before, commands[p]) &&
            Effect(before, commands[p]) == Replay(base, commands[..p + 1])
  {
    assert commands == commands[..p] + commands[p..];
    ReplaySplit(base, commands[..p], commands[p..]);
    assert commands[..p + 1] == commands[..p] + [commands[p]];
    ReplaySplit(base, commands[..p], [commands[p]]);
    var before, c := Replay(base, commands[..p]), commands[p];
    assert Replay(before, [c]) == Replay(Effect(before, c), [c][1..]);
  }

  lemma {:induction false} MarkKeepsCommands(entries: seq<Entry>, p: nat, undone: bool)
    requires p < |entries|
    ensures Commands(entries[p := entries[p].(undone := undone)]) == Commands(entries)
  {
  }

  // ---- Undo ----

  // Commands whose inverse cannot be had: a deletion without its text, and a replacement, whose undo type has
  // no handler.
  predicate Stuck(c: Command) { c.ReplaceText? || (c.DeleteText? && c.oldText.None?) }

  lemma {:induction false} StuckIff(c: Command)
    requires !c.Custom?
    ensures Stuck(c) <==> !(Invert(c).Ok? && Registered(InverseType(c)))
  {
  }

  lemma {:induction false} UndoneHereIs(base: string, s: State, capacity: nat)
    requires Invariant(base, s, capacity) && s.position >= 0 && s.entries[s.position].canUndo
    ensures var e, u := s.entries[s.position], UndoneHere(s);
            if Stuck(e.command) then u.state == s && u.result.Err?
            else u == Outcome(State(s.entries[s.position := e.(undone := true)], s.position - 1, s.version + 1,
                                    Replay(base, Commands(s.entries)[..s.position])), Ok(true))
  {
    var c := s.entries[s.position].command;
    SoundAt(base, Commands(s.entries), s.position);
    StuckIff(c);
    if !Stuck(c) {
      InverseRestores(Replay(base, Commands(s.entries)[..s.position]), c);
    }
  }

  lemma {:induction false} MarkedInvariant(base: string, s: State, capacity: nat, p: nat, undone: bool, s': State)
    requires Zones(s, capacity) && Sound(base, Commands(s.entries)) && p < |s.entries| && s.entries[p].canUndo
    requires s'.entries == s.entries[p := s.entries[p].(undone := undone)]
    requires if undone then p == s.position && s'.position == p - 1 else p == s.position + 1 && s'.position == p
    requires s'.text == Replay(base, Commands(s.entries)[..s'.position + 1])
    ensures Invariant(base, s', capacity)
  {
    MarkKeepsCommands(s.entries, p, undone);
  }

  lemma {:induction false} UndoneHereKeeps(base: string, s: State, capacity: nat)
    requires Invariant(base, s, capacity) && s.position >= 0 && s.entries[s.position].canUndo
    ensures Invariant(base, UndoneHere(s).state, capacity)
  {
    UndoneHereIs(base, s, capacity);
    if !Stuck(s.entries[s.position].command) {
      MarkedInvariant(base, s, capacity, s.position, true, UndoneHere(s).state);
    }
  }

  lemma {:induction false} UndoFinds(s: State, capacity: nat, q: int)
    requires Zones(s, capacity) && q == LastUndoable(s.entries, s.position)
    ensures forall i :: q < i <= s.position ==> !s.entries[i].canUndo
    ensures Undone(s) == if q < 0 then Outcome(s, Ok(false)) else UndoneHere(s.(position := q))
  {
    if s.position >= 0 && s.entries[s.position].canUndo {
      assert q == s.position;
      assert s.(position := q) == s;
    }
  }

  /**
   * Undo keeps the invariant, also when it fails; it reports true exactly when it marks one entry, the
   * last one at or before the position that can be undone.
   */
  lemma {:induction false} UndoKeeps(base: string, s: State, capacity: nat)
    requires Invariant(base, s, capacity)
    ensures var q, u := LastUndoable(s.entries, s.position), Undone(s);
            && Invariant(base, u.state, capacity)
            && (u.result == Ok(true) ==> q >= 0 && u.state.position == q - 1 && u.state.version == s.version + 1 &&
                                         u.state.entries == s.entries[q := s.entries[q].(undone := true)])
            && (u.result != Ok(true) ==>
                u.state.entries == s.entries && u.state.text == s.text && u.state.version == s.version)
            && (u.result == Ok(false) <==> q < 0)
            && (u.result.Err? <==> q >= 0 && Stuck(s.entries[q].command))
  {
    var q := LastUndoable(s.entries, s.position);
    UndoFinds(s, capacity, q);
    if q >= 0 {
      SlideKeeps(base, s, q, capacity);
      UndoneHereKeeps(base, s.(position := q), capacity);
      UndoneHereIs(base, s.(position := q), capacity);
    }
  }

  // A replacement recorded on "a" and undone: the inverse would restore the text, but its type has no handler.
  lemma {:induction false} ReplacementStays(c: Command, s: State)
    requires c == ReplaceText(0, 1, "x", "a") && s == Added(State([], -1, 0, "x"), c, 100)
    ensures Execute("a", c) == Ok("x") && ThereAndBack("a", c) == Ok("a")
    ensures Undone(s) == Outcome(s, Err(Unregistered(InverseType(c))))
  {
    assert Recorded([], -1, c, 100) == [Entry(c, true, false)];
    assert Take("a", 0) + "x" + Drop("a", 1) == "x" && Take("x", 0) + "a" + Drop("x", 1) == "a";
  }

  // ---- Redo ----

  lemma {:induction false} RedoneHereKeeps(base: string, s: State, capacity: nat, r: Outcome)
    requires Invariant(base, s, capacity) && s.position + 1 < |s.entries| && s.entries[s.position + 1].undone
    requires r == RedoneHere(s)
    ensures r.result == Ok(true) && Invariant(base, r.state, capacity)
    ensures r.state.position == s.position + 1 && r.state.version == s.version + 1
    ensures r.state.entries == s.entries[s.position + 1 := s.entries[s.position + 1].(undone := false)]
  {
    var c := s.entries[s.position + 1].command;
    SoundAt(base, Commands(s.entries), s.position + 1);
    RedoneHereIs(s, c, Effect(s.text, c));
    MarkedInvariant(base, s, capacity, s.position + 1, false, r.state);
  }

  lemma {:induction false} RedoneHereIs(s: State, c: Command, text: string)
    requires -1 <= s.position < |s.entries| - 1 && c == s.entries[s.position + 1].command && !c.Custom?
    requires Execute(s.text, c) == Ok(text)
    ensures RedoneHere(s) == Outcome(State(s.entries[s.position + 1 := s.entries[s.position + 1].(undone := false)],
                                           s.position + 1, s.version + 1, text), Ok(true))
  {
  }

  lemma {:induction false} RedoFinds(s: State, capacity: nat, q: int, s': State)
    requires Zones(s, capacity) && q == NextUndone(s.entries, s.position)
    requires s' == State(s.entries, q - 1, s.version, s.text)
    ensures forall i :: s.position < i < q ==> !s.entries[i].canUndo
    ensures Redone(s) == if q == |s.entries| then Outcome(s, Ok(false)) else RedoneHere(s')
  {
    if s.position + 1 < |s.entries| && s.entries[s.position + 1].undone {
      assert q == s.position + 1;
      assert s' == s;
    }
  }

  lemma {:induction false} SlidToNext(base: string, s: State, capacity: nat, q: int, s': State)
    requires Invariant(base, s, capacity) && q == NextUndone(s.entries, s.position)
    requires s' == State(s.entries, q - 1, s.version, s.text)
    requires forall i :: s.position < i < q ==> !s.entries[i].canUndo
    ensures Invariant(base, s', capacity)
  {
    SlideKeeps(base, s, q - 1, capacity);
  }

  lemma {:induction false} RedoSome(base: string, s: State, capacity: nat, q: int, s': State, r: Outcome)
    requires Invariant(base, s', capacity) && 0 <= q < |s.entries| && s.entries[q].undone
    requires s' == State(s.entries, q - 1, s.version, s.text) && r == RedoneHere(s')
    ensures r.result == Ok(true) && Invariant(base, r.state, capacity)
    ensures r.state.position == q && r.state.version == s.version + 1
    ensures r.state.entries == s.entries[q := s.entries[q].(undone := false)]
  {
    RedoneHereKeeps(base, s', capacity, r);
  }

  /** Redo keeps the invariant and never fails; it clears the mark of the first undone entry, if there is one. */
  lemma {:induction false} RedoKeeps(base: string, s: State, capacity: nat)
    requires Invariant(base, s, capacity)
    ensures var q, r := NextUndone(s.entries, s.position), Redone(s);
            && Invariant(base, r.state, capacity)
            && r.result == Ok(q < |s.entries|)
            && (q < |s.entries| ==> r.state.position == q && r.state.version == s.version + 1 &&
                                    r.state.entries == s.entries[q := s.entries[q].(undone := false)])
            && (q == |s.entries| ==> r.state == s)
  {
    var q := NextUndone(s.entries, s.position);
    var s' := State(s.entries, q - 1, s.version, s.text);
    RedoFinds(s, capacity, q, s');
    if q < |s.entries| {
      SlidToNext(base, s, capacity, q, s');
      RedoSome(base, s, capacity, q, s', Redone(s));
    }
  }

  // ---- Recording ----

  // The commands up to the position, and after them one more.
  function Extended(s: State, c: Command): seq<Command>
    requires Addresses(s)
  {
    Commands(s.entries)[..s.position + 1] + [c]
  }

  lemma {:induction false} RecordedCommands(s: State, c: Command, capacity: nat)
    requires Zones(s, capacity) && capacity > 0
    ensures var longer := Extended(s, c);
            Commands(Recorded(s.entries, s.position, c, capacity))
              == if |longer| > capacity then longer[1..] else longer
  {
    var entries := Recorded(s.entries, s.position, c, capacity);
    assert s.position == |s.entries| - 1 ==> Commands(s.entries)[..s.position + 1] == Commands(s.entries);
    var longer := Extended(s, c);
    var expected := if |longer| > capacity then longer[1..] else longer;
    assert |Commands(entries)| == |expected|;
    assert forall i :: 0 <= i < |entries| ==> Commands(entries)[i] == expected[i];
  }

  lemma {:induction false} RecordedZones(s: State, c: Command, capacity: nat)
    requires Zones(s, capacity) && capacity > 0
    ensures Zones(Added(s, c, capacity), capacity)
  {
  }

  // Executing and recording a command; one that cannot be executed is not recorded.
  function Done(s: State, c: Command, capacity: nat): State
    requires Addresses(s)
  {
    var ran := Execute(s.text, c);
    if ran.Err? then s else Added(s.(text := ran.value), c, capacity)
  }

  // The base moves on by the oldest command when that command makes room.
  function DoneBase(base: string, s: State, c: Command, capacity: nat): string
    requires Addresses(s)
  {
    if Execute(s.text, c).Ok? && s.position + 2 > capacity && s.position >= 0
    then Effect(base, s.entries[0].command)
    else base
  }

  // The list holds the commands up to the position and one more, with or without the oldest.
  lemma {:induction false} RecordedInvariant(base: string, commands: seq<Command>, s: State, capacity: nat)
    requires Zones(s, capacity) && s.position == |s.entries| - 1
    requires Sound(base, commands) && s.text == Replay(base, commands)
    requires commands != [] && (Commands(s.entries) == commands || Commands(s.entries) == commands[1..])
    ensures Invariant(if Commands(s.entries) == commands then base else Effect(base, commands[0]), s, capacity)
  {
    assert Commands(s.entries)[..s.position + 1] == Commands(s.entries);
    assert Replay(base, commands) == Replay(Effect(base, commands[0]), commands[1..]);
  }

  lemma {:induction false} AddedKeeps(base: string, s: State, text: string, c: Command, capacity: nat, after: State)
    requires Invariant(base, s, capacity) && capacity > 0
    requires Execute(s.text, c) == Ok(text) && Faithful(s.text, c)
    requires after == Added(s.(text := text), c, capacity)
    ensures Invariant(if s.position + 2 > capacity then Effect(base, Extended(s, c)[0]) else base, after, capacity)
  {
    var longer := Extended(s, c);
    RecordedZones(s.(text := text), c, capacity);
    RecordedCommands(s.(text := text), c, capacity);
    ExtendedSound(base, Commands(s.entries), s.position + 1, s.text, c);
    RecordedInvariant(base, longer, after, capacity);
  }

  lemma {:induction false} DoKeeps(base: string, s: State, c: Command, capacity: nat)
    requires Invariant(base, s, capacity) && capacity > 0
    requires Execute(s.text, c).Ok? ==> Faithful(s.text, c)
    ensures Invariant(DoneBase(base, s, c, capacity), Done(s, c, capacity), capacity)
  {
    if Execute(s.text, c).Ok? {
      AddedKeeps(base, s, Execute(s.text, c).value, c, capacity, Done(s, c, capacity));
      assert s.position >= 0 ==> Extended(s, c)[0] == s.entries[0].command;
    }
  }

  lemma {:induction false} ExtendedSound(base: string, commands: seq<Command>, n: nat, text: string, c: Command)
    requires n <= |commands| && Sound(base, commands) && text == Replay(base, commands[..n])
    requires Execute(text, c).Ok? && Faithful(text, c)
    ensures Sound(base, commands[..n] + [c])
    ensures Replay(base, commands[..n] + [c]) == Effect(text, c)
  {
    assert commands == commands[..n] + commands[n..];
    ReplaySplit(base, commands[..n], commands[n..]);
    ReplaySplit(base, commands[..n], [c]);
    assert Replay(text, [c]) == Replay(Effect(text, c), [c][1..]);
    assert Sound(Effect(text, c), [c][1..]);
  }

  // ---- Whole runs ----

  datatype Step = Do(command: Command) | Undo | Redo

  function Next(s: State, step: Step, capacity: nat): State
    requires Addresses(s)
  {
    match step
    case Do(c) => Done(s, c, capacity)
    case Undo => Undone(s).state
    case Redo => Redone(s).state
  }

  function NextBase(base: string, s: State, step: Step, capacity: nat): string
    requires Addresses(s)
  {
    if step.Do? then DoneBase(base, s, step.command, capacity) else base
  }

  predicate StepFaithful(s: State, step: Step) {
    step.Do? && Execute(s.text, step.command).Ok? ==> Faithful(s.text, step.command)
  }

  // A run, step by step: each state follows from the one before, and what is recorded is faithful.
  ghost predicate IsRun(states: seq<State>, steps: seq<Step>, capacity: nat) {
    && |states| == |steps| + 1
    && (forall i :: 0 <= i < |states| ==> Addresses(states[i]))
    && forall i :: 0 <= i < |steps| ==>
         StepFaithful(states[i], steps[i]) && states[i + 1] == Next(states[i], steps[i], capacity)
  }

  ghost function BaseAt(base: string, states: seq<State>, steps: seq<Step>, capacity: nat, k: nat): string
    requires IsRun(states, steps, capacity) && k < |states|
  {
    if k == 0 then base
    else NextBase(BaseAt(base, states, steps, capacity, k - 1), states[k - 1], steps[k - 1], capacity)
  }

  /** In every state of every run, the text is the replay of the commands in effect, and the zones hold. */
  lemma {:induction false} RunReplays(text: string, states: seq<State>, steps: seq<Step>, capacity: nat, k: nat)
    requires IsRun(states, steps, capacity) && k < |states| && capacity > 0
    requires states[0] == State([], -1, 0, text)
    ensures Invariant(BaseAt(text, states, steps, capacity, k), states[k], capacity)
    decreases k
  {
    if k > 0 {
      RunReplays(text, states, steps, capacity, k - 1);
      var base, s, step := BaseAt(text, states, steps, capacity, k - 1), states[k - 1], steps[k - 1];
      assert states[k - 1 + 1] == Next(s, step, capacity) && StepFaithful(s, step);
      match step
      case Do(c) => DoKeeps(base, s, c, capacity);
      case Undo => UndoKeeps(base, s, capacity);
      case Redo => RedoKeeps(base, s, capacity);
    }
  }

  /** Until the list has been filled once, the base is the text the run began with. */
  lemma {:induction false} BaseStays(text: string, states: seq<State>, steps: seq<Step>, capacity: nat, k: nat)
    requires IsRun(states, steps, capacity) && k < |states| && k <= capacity
    requires states[0] == State([], -1, 0, text)
    ensures BaseAt(text, states, steps, capacity, k) == text && |states[k].entries| <= k
    decreases k
  {
    if k > 0 {
      BaseStays(text, states, steps, capacity, k - 1);
      assert states[k - 1 + 1] == Next(states[k - 1], steps[k - 1], capacity);
    }
  }

  // ---- Undoing k times and redoing k times ----

  function UndoTimes(s: State, k: nat): (r: State)
    requires Addresses(s)
    ensures Addresses(r)
    decreases k
  {
    if k == 0 then s else UndoTimes(Undone(s).state, k - 1)
  }

  function RedoTimes(s: State, k: nat): (r: State)
    requires Addresses(s)
    ensures Addresses(r)
    decreases k
  {
    if k == 0 then s else Redone(RedoTimes(s, k - 1)).state
  }

  // The next k undos all take effect.
  predicate Undoable(s: State, k: nat)
    requires Addresses(s)
    decreases k
  {
    k == 0 || (Undone(s).result == Ok(true) && Undoable(Undone(s).state, k - 1))
  }

  /**
   * Undoing k commands and redoing k commands restores the text and every mark. Only the position can
   * differ: it stays on the last command redone, short of the commands after it that cannot be undone.
   */
  lemma {:induction false} UndoThenRedo(base: string, s: State, k: nat, capacity: nat)
    requires Invariant(base, s, capacity) && k > 0 && Undoable(s, k)
    ensures RedoTimes(UndoTimes(s, k), k)
         == s.(position := LastUndoable(s.entries, s.position), version := s.version + 2 * k)
    decreases k
  {
    var q := LastUndoable(s.entries, s.position);
    var u := Undone(s).state;
    UndoKeeps(base, s, capacity);
    assert UndoTimes(s, k) == UndoTimes(u, k - 1);
    var back := RedoTimes(UndoTimes(u, k - 1), k - 1);
    if k > 1 {
      UndoThenRedo(base, u, k - 1, capacity);
      assert back == Settled(u, 2 * (k - 1));
      SettledKeeps(base, u, capacity, 2 * (k - 1));
    }
    RedoUndone(base, s, back, capacity);
  }

  // The position brought back to the last command that can be undone.
  function Settled(u: State, more: nat): State
    requires Addresses(u)
  {
    u.(position := LastUndoable(u.entries, u.position), version := u.version + more)
  }

  lemma {:induction false} SettledKeeps(base: string, u: State, capacity: nat, more: nat)
    requires Invariant(base, u, capacity)
    ensures Invariant(base, Settled(u, more), capacity)
    ensures forall i :: Settled(u, more).position < i <= u.position ==> !u.entries[i].canUndo
  {
    UndoFinds(u, capacity, LastUndoable(u.entries, u.position));
    SlideKeeps(base, u, LastUndoable(u.entries, u.position), capacity);
  }

  // Redo takes back an undo, from the place it left or from any earlier one with nothing to redo between.
  lemma {:induction false} RedoUndone(base: string, s: State, back: State, capacity: nat)
    requires Invariant(base, s, capacity) && Undone(s).result == Ok(true)
    requires Invariant(base, back, capacity) && back.entries == Undone(s).state.entries
    requires back.position <= Undone(s).state.position
    requires forall i :: back.position < i <= Undone(s).state.position ==> !back.entries[i].canUndo
    ensures Redone(back).state == s.(position := LastUndoable(s.entries, s.position), version := back.version + 1)
  {
    var q := LastUndoable(s.entries, s.position);
    UndoKeeps(base, s, capacity);
    FirstUndone(back, capacity, q);
    RedoKeeps(base, back, capacity);
    var r := Redone(back).state;
    assert r.entries == s.entries;
    SettledKeeps(base, s, capacity, 0);
    SameText(base, r, Settled(s, 0), capacity);
  }

  lemma {:induction false} SameText(base: string, r: State, s: State, capacity: nat)
    requires Invariant(base, r, capacity) && Invariant(base, s, capacity)
    requires r.entries == s.entries && r.position == s.position
    ensures r.text == s.text
  {
  }

  lemma {:induction false} FirstUndone(back: State, capacity: nat, q: nat)
    requires Zones(back, capacity) && back.position < q < |back.entries| && back.entries[q].undone
    requires forall i :: back.position < i < q ==> !back.entries[i].canUndo
    ensures NextUndone(back.entries, back.position) == q
  {
    forall i | back.position < i < q ensures !back.entries[i].undone {
      assert !back.entries[i].canUndo;
    }
  }

  // ---- Why commands must be faithful ----

  /** Recording a command and undoing it, when undo succeeds, restores the text exactly when the command is faithful. */
  lemma {:induction false} UndoRestoresIffFaithful(s: State, c: Command, capacity: nat)
    requires Zones(s, capacity) && capacity > 0 && !c.Custom? && Execute(s.text, c).Ok?
    requires Undone(Done(s, c, capacity)).result.Ok?
    ensures Undone(Done(s, c, capacity)).state.text == s.text <==> Faithful(s.text, c)
  {
    var after := Done(s, c, capacity);
    assert after.entries[after.position] == Entry(c, true, false);
    match c
    case InsertText(p, t) => InsertUndoneIff(s.text, p, t);
    case DeleteText(p, n, gone) => if gone.Some? { DeleteUndoneIff(s.text, p, n, gone.value); }
    case MoveText(a, b, n) => MoveUndone(s.text, a, b, n);
    case _ =>
  }
}

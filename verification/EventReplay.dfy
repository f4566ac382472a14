/** Replaying an aggregate's events into its state. */
module EventReplay {
  datatype Value = Text(text: string) | Number(number: int)

  type Fields = map<string, Value>

  // What an event carries beside its type, version and time stamp is its payload.
  datatype Event = Event(kind: string, version: nat, timestamp: string, payload: Fields)

  type Handler = (Fields, Event) -> Fields

  type Handlers = map<string, Handler>

  // What an event without a handler writes: its metadata, then its payload over it.
  function Written(e: Event): Fields {
    map["lastEvent" := Text(e.kind), "version" := Number(e.version), "lastModified" := Text(e.timestamp)] + e.payload
  }

  function ApplyEventToState(state: Fields, e: Event): Fields { state + Written(e) }

  function Applied(handlers: Handlers, state: Fields, e: Event): Fields {
    if e.kind in handlers then handlers[e.kind](state, e) else ApplyEventToState(state, e)
  }

  function Replay(handlers: Handlers, state: Fields, events: seq<Event>): Fields
    decreases |events|
  {
    if events == [] then state else Replay(handlers, Applied(handlers, state, events[0]), events[1..])
  }

  lemma {:induction false} ReplaySplit(handlers: Handlers, state: Fields, xs: seq<Event>, ys: seq<Event>)
    ensures Replay(handlers, state, xs + ys) == Replay(handlers, Replay(handlers, state, xs), ys)
    decreases |xs|
  {
    if xs == [] {
      assert xs + ys == ys;
    } else {
      assert (xs + ys)[1..] == xs[1..] + ys;
      ReplaySplit(handlers, Applied(handlers, state, xs[0]), xs[1..], ys);
    }
  }

  // ---- Versions ----

  ghost predicate Increasing(log: seq<Event>) {
    && (forall i :: 0 <= i < |log| ==> 1 <= log[i].version)
    && forall i, j :: 0 <= i < j < |log| ==> log[i].version < log[j].version
  }

  // The events of one version range, in the log's order; no upper bound, or zero, bounds nothing.
  function EventsBetween(log: seq<Event>, fromVersion: nat, toVersion: nat): seq<Event> {
    if log == [] then []
    else
      (if fromVersion <= log[0].version && (toVersion == 0 || log[0].version <= toVersion) then [log[0]] else [])
      + EventsBetween(log[1..], fromVersion, toVersion)
  }

  /** Reading a version range gives the logged events of those versions and no others. */
  lemma {:induction false} EventsBetweenExactly(log: seq<Event>, fromVersion: nat, toVersion: nat, e: Event)
    ensures e in EventsBetween(log, fromVersion, toVersion) <==>
              e in log && fromVersion <= e.version && (toVersion == 0 || e.version <= toVersion)
    decreases |log|
  {
    if log != [] {
      EventsBetweenExactly(log[1..], fromVersion, toVersion, e);
      assert log == [log[0]] + log[1..];
    }
  }

  // How many of the events have at most this version.
  function UpTo(log: seq<Event>, version: nat): (n: nat)
    ensures n <= |log|
  {
    if log == [] then 0 else (if log[0].version <= version then 1 else 0) + UpTo(log[1..], version)
  }

  lemma {:induction false} AllLater(log: seq<Event>, version: nat)
    requires forall i :: 0 <= i < |log| ==> version < log[i].version
    ensures UpTo(log, version) == 0 && EventsBetween(log, version + 1, 0) == log
    decreases |log|
  {
    if log != [] {
      AllLater(log[1..], version);
      assert log == [log[0]] + log[1..];
    }
  }

  /** In a log of increasing versions, the events after a version are the log without the events up to it. */
  lemma {:induction false} TailAfter(log: seq<Event>, version: nat)
    requires Increasing(log)
    ensures EventsBetween(log, version + 1, 0) == log[UpTo(log, version)..]
    ensures forall i :: 0 <= i < |log| ==> (i < UpTo(log, version) <==> log[i].version <= version)
    decreases |log|
  {
    if log != [] && log[0].version > version {
      AllLater(log, version);
    } else if log != [] {
      var rest := log[1..];
      TailAfter(rest, version);
      assert log[1 + UpTo(rest, version)..] == rest[UpTo(rest, version)..];
      forall i | 0 < i < |log| ensures i < UpTo(log, version) <==> log[i].version <= version {
        assert log[i] == rest[i - 1];
      }
    }
  }

  // ---- The default application ----

  // All the events write, later ones over earlier ones.
  function AllWritten(events: seq<Event>): Fields {
    if events == [] then map[] else Written(events[0]) + AllWritten(events[1..])
  }

  lemma {:induction false} MergeAssociates(a: Fields, b: Fields, c: Fields)
    ensures (a + b) + c == a + (b + c)
  {
  }

  lemma {:induction false} MergeAgain(a: Fields, b: Fields, c: Fields)
    ensures (a + b) + (b + c) == a + (b + c)
  {
  }

  lemma {:induction false} DefaultReplay(state: Fields, events: seq<Event>)
    ensures Replay(map[], state, events) == state + AllWritten(events)
    decreases |events|
  {
    if events != [] {
      var s := ApplyEventToState(state, events[0]);
      DefaultReplay(s, events[1..]);
      MergeAssociates(state, Written(events[0]), AllWritten(events[1..]));
    }
  }

  lemma {:induction false} AllWrittenSplit(xs: seq<Event>, ys: seq<Event>)
    ensures AllWritten(xs + ys) == AllWritten(xs) + AllWritten(ys)
    decreases |xs|
  {
    if xs == [] {
      assert xs + ys == ys;
    } else {
      assert (xs + ys)[1..] == xs[1..] + ys;
      AllWrittenSplit(xs[1..], ys);
      MergeAssociates(Written(xs[0]), AllWritten(xs[1..]), AllWritten(ys));
    }
  }

  /**
   * Writing events that the starting state already absorbed changes nothing: a state that absorbed the
   * first m events reaches the full replay from any c events on, when c is at most m.
   */
  lemma {:induction false} AbsorbedTwice(log: seq<Event>, c: nat, m: nat)
    requires c <= m <= |log|
    ensures Replay(map[], Replay(map[], map[], log[..m]), log[c..]) == Replay(map[], map[], log)
  {
    var before, both, after := log[..c], log[c..m], log[m..];
    assert log[..m] == before + both && log[c..] == both + after && log == before + (both + after);
    AbsorbedAgain(before, both, after);
  }

  lemma {:induction false} AbsorbedAgain(before: seq<Event>, both: seq<Event>, after: seq<Event>)
    ensures Replay(map[], Replay(map[], map[], before + both), both + after) ==
            Replay(map[], map[], before + (both + after))
  {
    var b, m, a := AllWritten(before), AllWritten(both), AllWritten(after);
    AllWrittenSplit(before, both);
    AllWrittenSplit(both, after);
    AllWrittenSplit(before, both + after);
    FromNothing(before + both);
    FromNothing(before + (both + after));
    DefaultReplay(b + m, both + after);
    MergeAgain(b, m, a);
  }

  lemma {:induction false} FromNothing(events: seq<Event>)
    ensures Replay(map[], map[], events) == AllWritten(events)
  {
    DefaultReplay(map[], events);
    assert map[] + AllWritten(events) == AllWritten(events);
  }

  // ---- Arbitrary handlers ----

  // From a state that absorbed the first m events, replaying from the c-th on gives the full replay.
  predicate Resumes(handlers: Handlers, log: seq<Event>, c: nat, m: nat)
    requires c <= |log| && m <= |log|
  {
    Replay(handlers, Replay(handlers, map[], log[..m]), log[c..]) == Replay(handlers, map[], log)
  }

  function Counted(state: Fields, e: Event): Fields {
    var n := if "n" in state && state["n"].Number? then state["n"].number else 0;
    map["n" := Number(n + 1)]
  }

  function Counting(log: seq<Event>): Handlers {
    if log == [] then map[] else Counting(log[1..])[log[0].kind := Counted]
  }

  lemma {:induction false} CountingCounts(handlers: Handlers, log: seq<Event>)
    requires handlers == Counting(log)
    ensures forall i :: 0 <= i < |log| ==> log[i].kind in handlers
    ensures forall k :: k in handlers ==> handlers[k] == Counted
  {
    if log != [] {
      CountingCounts(Counting(log[1..]), log[1..]);
      forall i | 0 <= i < |log| ensures log[i].kind in handlers {
        assert i > 0 ==> log[i] == log[1..][i - 1];
      }
    }
  }

  lemma {:induction false} CountedReplay(handlers: Handlers, events: seq<Event>, n: int)
    requires forall i :: 0 <= i < |events| ==> events[i].kind in handlers
    requires forall k :: k in handlers ==> handlers[k] == Counted
    ensures Replay(handlers, map["n" := Number(n)], events) == map["n" := Number(n + |events|)]
    decreases |events|
  {
    if events != [] {
      assert Applied(handlers, map["n" := Number(n)], events[0]) == map["n" := Number(n + 1)];
      CountedReplay(handlers, events[1..], n + 1);
    }
  }

  // From nothing, the count of a replay that is not empty is the number of events.
  lemma {:induction false} CountedFromNothing(handlers: Handlers, events: seq<Event>)
    requires forall i :: 0 <= i < |events| ==> events[i].kind in handlers
    requires forall k :: k in handlers ==> handlers[k] == Counted
    ensures Replay(handlers, map[], events) == if events == [] then map[] else map["n" := Number(|events|)]
  {
    if events != [] {
      assert Applied(handlers, map[], events[0]) == map["n" := Number(1)];
      CountedReplay(handlers, events[1..], 1);
    }
  }

  lemma {:induction false} CountingShows(log: seq<Event>, c: nat, m: nat)
    requires c <= |log| && m <= |log| && Resumes(Counting(log), log, c, m)
    ensures m == c
  {
    var h := Counting(log);
    CountingCounts(h, log);
    CountedFromNothing(h, log);
    CountedFromNothing(h, log[..m]);
    if m == 0 {
      CountedFromNothing(h, log[c..]);
    } else {
      CountedReplay(h, log[c..], m);
    }
    assert log != [] ==> map["n" := Number(|log|)]["n"] == Number(|log|);
    assert map["n" := Number(m + |log| - c)]["n"] == Number(m + |log| - c);
    assert map["n" := Number(|log| - c)]["n"] == Number(|log| - c);
  }

  /**
   * Whatever the handlers: resuming is right for all of them exactly when the state absorbed exactly what is
   * not replayed.
   */
  lemma {:induction false} ResumesForAllIff(log: seq<Event>, c: nat, m: nat)
    requires c <= |log| && m <= |log|
    ensures (forall handlers: Handlers :: Resumes(handlers, log, c, m)) <==> m == c
  {
    if m == c {
      forall handlers: Handlers ensures Resumes(handlers, log, c, m) {
        assert log == log[..m] + log[c..];
        ReplaySplit(handlers, map[], log[..m], log[c..]);
      }
    } else if forall handlers: Handlers :: Resumes(handlers, log, c, m) {
      CountingShows(log, c, m);
    }
  }
}

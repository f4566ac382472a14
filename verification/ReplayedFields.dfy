/** What a replayed state holds, field by field, and what a reconstruction answers. */
module ReplayedFields {
  import opened EventReplay
  import opened EventStore
  import opened Options

  // The last of the first n events whose payload carries the field.
  function LastCarrying(log: seq<Event>, f: string, n: nat): (k: int)
    requires n <= |log|
    ensures -1 <= k < n
    ensures k >= 0 ==> f in log[k].payload
    ensures forall i :: k < i < n ==> f !in log[i].payload
  {
    if n == 0 then -1 else if f in log[n - 1].payload then n - 1 else LastCarrying(log, f, n - 1)
  }

  // The fields every event writes about itself.
  predicate Own(f: string) { f == "lastEvent" || f == "version" || f == "lastModified" }

  function About(e: Event, f: string): Value
    requires Own(f)
  {
    if f == "lastEvent" then Text(e.kind) else if f == "version" then Number(e.version) else Text(e.timestamp)
  }

  lemma {:induction false} ReplayLast(state: Fields, log: seq<Event>)
    requires log != []
    ensures Replay(map[], state, log) == ApplyEventToState(Replay(map[], state, log[..|log| - 1]), log[|log| - 1])
  {
    var init, last := log[..|log| - 1], log[|log| - 1];
    assert log == init + [last];
    ReplaySplit(map[], state, init, [last]);
    assert [last][1..] == [];
    var before := Replay(map[], state, init);
    assert Replay(map[], before, [last]) == Replay(map[], Applied(map[], before, last), []);
  }

  lemma {:induction false} AppliedFields(state: Fields, e: Event, f: string)
    ensures var after := ApplyEventToState(state, e);
            if f in e.payload then f in after && after[f] == e.payload[f]
            else if Own(f) then f in after && after[f] == About(e, f)
            else (f in after <==> f in state) && (f in state ==> after[f] == state[f])
  {
  }

  /**
   * Under default application, from any state: the type, version and time stamp of the last event are in
   * its three fields, unless its payload has others for them; every other field has the value the last
   * event that carries it gives it, and one no event carries is as it was.
   */
  lemma {:induction false} FieldsAfterReplay(state: Fields, log: seq<Event>, f: string)
    ensures var after, k := Replay(map[], state, log), LastCarrying(log, f, |log|);
            if k >= 0 && (k == |log| - 1 || !Own(f)) then f in after && after[f] == log[k].payload[f]
            else if Own(f) && log != [] then f in after && after[f] == About(log[|log| - 1], f)
            else (f in after <==> f in state) && (f in state ==> after[f] == state[f])
    decreases |log|
  {
    if log != [] {
      var init, last := log[..|log| - 1], log[|log| - 1];
      ReplayLast(state, log);
      FieldsAfterReplay(state, init, f);
      AppliedFields(Replay(map[], state, init), last, f);
      SamePrefix(log, init, f, |init|);
    }
  }

  lemma {:induction false} SamePrefix(log: seq<Event>, init: seq<Event>, f: string, n: nat)
    requires n <= |init| <= |log| && init == log[..|init|]
    ensures LastCarrying(init, f, n) == LastCarrying(log, f, n)
  {
    if n > 0 {
      SamePrefix(log, init, f, n - 1);
    }
  }

  /** A handler decides alone what its events do: they are not applied by default. */
  lemma {:induction false} HandlersDecide(handlers: Handlers, state: Fields, log: seq<Event>, e: Event)
    ensures Replay(handlers, state, log + [e])
         == var before := Replay(handlers, state, log);
            if e.kind in handlers then handlers[e.kind](before, e) else Replay(map[], before, [e])
  {
    ReplaySplit(handlers, state, log, [e]);
    var before := Replay(handlers, state, log);
    assert [e][1..] == [];
    assert Replay(handlers, before, [e]) == Replay(handlers, Applied(handlers, before, e), []);
    assert Replay(map[], before, [e]) == Replay(map[], Applied(map[], before, e), []);
  }

  lemma {:induction false} NothingFromOne(log: seq<Event>)
    ensures EventsBetween(log, 1, 0) == [] <==> forall i :: 0 <= i < |log| ==> log[i].version == 0
  {
    forall i | 0 <= i < |log| && log[i].version > 0 ensures EventsBetween(log, 1, 0) != [] {
      EventsBetweenExactly(log, 1, 0, log[i]);
    }
    if EventsBetween(log, 1, 0) != [] {
      var e := EventsBetween(log, 1, 0)[0];
      EventsBetweenExactly(log, 1, 0, e);
    }
  }

  /**
   * An aggregate is not found exactly when nothing of version 1 or later is logged and no snapshot, or only
   * one labelled 0, is there to start from.
   */
  lemma {:induction false} NotFoundIff(handlers: Handlers, key: Key, log: seq<Event>, snapshot: Option<Snapshot>)
    ensures var r := Reconstructed(handlers, key, log, snapshot);
            && (r.Err? <==> (snapshot.Some? ==> snapshot.value.version == 0) &&
                            forall i :: 0 <= i < |log| ==> log[i].version == 0)
            && (r.Err? ==> r == Err(NotFound(key)))
            && (r.Ok? ==>
                  if snapshot.None? then r.value == Replay(handlers, map[], EventsBetween(log, 1, 0))
                  else r.value == Replay(handlers, snapshot.value.state,
                                         EventsBetween(log, snapshot.value.version + 1, 0)))
  {
    NothingFromOne(log);
  }

  /** The range query goes through the log in order and keeps each event of a version in the range. */
  lemma {:induction false} RangeInOrder(log: seq<Event>, more: seq<Event>, e: Event, fromVersion: nat, toVersion: nat)
    ensures EventsBetween(log + [e] + more, fromVersion, toVersion)
         == EventsBetween(log, fromVersion, toVersion)
            + (if e.version >= fromVersion && (toVersion == 0 || toVersion >= e.version) then [e] else [])
            + EventsBetween(more, fromVersion, toVersion)
  {
    RangeSplits(log + [e], more, fromVersion, toVersion);
    RangeSplits(log, [e], fromVersion, toVersion);
    assert [e][1..] == [];
  }

  lemma {:induction false} RangeSplits(xs: seq<Event>, ys: seq<Event>, fromVersion: nat, toVersion: nat)
    ensures EventsBetween(xs + ys, fromVersion, toVersion)
         == EventsBetween(xs, fromVersion, toVersion) + EventsBetween(ys, fromVersion, toVersion)
    decreases |xs|
  {
    if xs == [] {
      assert xs + ys == ys;
    } else {
      assert (xs + ys)[1..] == xs[1..] + ys;
      RangeSplits(xs[1..], ys, fromVersion, toVersion);
    }
  }

  ghost predicate InVersionOrder(log: seq<Event>) {
    forall i, j :: 0 <= i < j < |log| ==> log[i].version <= log[j].version
  }

  lemma {:induction false} AllUpTo(log: seq<Event>, version: nat)
    requires forall i :: 0 <= i < |log| ==> log[i].version <= version
    ensures UpTo(log, version) == |log|
    decreases |log|
  {
    if log != [] {
      AllUpTo(log[1..], version);
    }
  }

  lemma {:induction false} PutBetween(init: seq<Event>, last: Event, e: Event, k: nat)
    requires k <= |init|
    ensures (init[..k] + [e] + init[k..]) + [last] == (init + [last])[..k] + [e] + (init + [last])[k..]
  {
  }

  lemma {:induction false} InsertedBefore(init: seq<Event>, last: Event, e: Event)
    requires last.version > e.version
    ensures Inserted(init + [last], e) == Inserted(init, e) + [last]
  {
    var log := init + [last];
    assert log[|log| - 1] == last && log[..|log| - 1] == init;
  }

  /** An event is put behind those of its version or an earlier one and before the others. */
  lemma {:induction false} InsertedInPlace(log: seq<Event>, e: Event)
    requires InVersionOrder(log)
    ensures var k := UpTo(log, e.version);
            Inserted(log, e) == log[..k] + [e] + log[k..]
            && forall i :: 0 <= i < |log| ==> (i < k <==> log[i].version <= e.version)
    decreases |log|
  {
    if log == [] {
    } else if log[|log| - 1].version <= e.version {
      AllUpTo(log, e.version);
      assert log[..|log|] == log && log[|log|..] == [];
    } else {
      var init, last := log[..|log| - 1], log[|log| - 1];
      assert log == init + [last];
      InsertedInPlace(init, e);
      UpToLast(log, e.version);
      InsertedBefore(init, last, e);
      PutBetween(init, last, e, UpTo(init, e.version));
    }
  }

  lemma {:induction false} UpToLast(log: seq<Event>, version: nat)
    requires log != []
    ensures UpTo(log, version)
         == UpTo(log[..|log| - 1], version) + if log[|log| - 1].version <= version then 1 else 0
    decreases |log|
  {
    var init, last := log[..|log| - 1], log[|log| - 1];
    if |log| > 1 {
      assert log[1..][..|log| - 2] == init[1..] && log[1..][|log| - 2] == last;
      UpToLast(log[1..], version);
    } else {
      assert log[1..] == [] && init == [];
    }
  }
}

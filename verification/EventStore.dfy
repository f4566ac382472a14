/**
 * The event store: events are logged per aggregate, and from time to time a background job replays
 * an aggregate's log and stores the state as a snapshot, from which later reconstructions start.
 * A job reads, writes and ends at separate times, while events go on being appended.
 */
module EventStore {
  import opened EventReplay
  import opened Options

  datatype Key = Key(tenant: string, aggregate: string)

  datatype Snapshot = Snapshot(version: nat, state: Fields)

  /** A snapshot job and what it is about to do. It is labelled with the version of the event that started it. */
  datatype Job = Reading(version: nat) | Writing(version: nat, state: Fields) | Ending

  datatype Error = NotFound(key: Key) | WrongTenant(tenant: string) | MixedBatch

  // An event with the aggregate it is for.
  datatype Addressed = Addressed(key: Key, event: Event)

  // open holds the batches whose transactions have not ended yet; an aggregate can have several.
  datatype Store = Store(logs: map<Key, seq<Event>>, open: map<Key, seq<seq<Event>>>,
                         snapshots: map<Key, seq<Snapshot>>, jobs: map<Key, Job>)

  datatype Config = Config(snapshotFrequency: nat, maxParallelSnapshots: nat)

  function Log(store: Store, key: Key): seq<Event> { if key in store.logs then store.logs[key] else [] }

  function Open(store: Store, key: Key): seq<seq<Event>> { if key in store.open then store.open[key] else [] }

  function Snapshots(store: Store, key: Key): seq<Snapshot> {
    if key in store.snapshots then store.snapshots[key] else []
  }

  // ---- The database's orders ----

  // Events are read in version order.
  function Inserted(log: seq<Event>, e: Event): seq<Event> {
    if log == [] || log[|log| - 1].version <= e.version then log + [e]
    else Inserted(log[..|log| - 1], e) + [log[|log| - 1]]
  }

  function InsertedAll(log: seq<Event>, batch: seq<Event>): seq<Event>
    decreases |batch|
  {
    if batch == [] then log else InsertedAll(Inserted(log, batch[0]), batch[1..])
  }

  // A snapshot of the highest version.
  function Latest(snapshots: seq<Snapshot>): (r: Option<Snapshot>)
    ensures r.None? <==> snapshots == []
    ensures r.Some? ==> r.value in snapshots && forall s :: s in snapshots ==> s.version <= r.value.version
  {
    if snapshots == [] then None
    else
      var rest := Latest(snapshots[1..]);
      if rest.None? || rest.value.version <= snapshots[0].version then Some(snapshots[0]) else rest
  }

  // ---- Reconstruction ----

  function Reconstructed(handlers: Handlers, key: Key, log: seq<Event>, snapshot: Option<Snapshot>):
    Result<Fields, Error>
  {
    var fromVersion := if snapshot.Some? then snapshot.value.version + 1 else 1;
    var events := EventsBetween(log, fromVersion, 0);
    if events == [] && fromVersion == 1 then Err(NotFound(key))
    else Ok(Replay(handlers, if snapshot.Some? then snapshot.value.state else map[], events))
  }

  // ---- The steps ----

  datatype Step =
    | Append(key: Key, event: Event)
    | OpenBatch(key: Key, batch: seq<Event>)
    | CommitBatch(key: Key, n: nat)
    | RollBackBatch(key: Key, n: nat)
    | ReadEvents(key: Key)
    | WriteSnapshot(key: Key)
    | EndJob(key: Key)

  // An event of a version at the snapshot frequency starts a job, unless one runs for the aggregate or too many run.
  function Checked(config: Config, store: Store, key: Key, version: nat): Store {
    if config.snapshotFrequency != 0 && version % config.snapshotFrequency == 0
       && key !in store.jobs && |store.jobs| < config.maxParallelSnapshots
    then store.(jobs := store.jobs[key := Reading(version)])
    else store
  }

  function Opened(store: Store, key: Key, batch: seq<Event>): Store {
    store.(open := store.open[key := Open(store, key) + [batch]])
  }

  // The n-th open transaction has ended.
  function Closed(store: Store, key: Key, n: nat): Store
    requires n < |Open(store, key)|
  {
    store.(open := store.open[key := Open(store, key)[..n] + Open(store, key)[n + 1..]])
  }

  function Next(config: Config, handlers: Handlers, store: Store, step: Step): Store {
    match step
    case Append(k, e) => Checked(config, store.(logs := store.logs[k := Inserted(Log(store, k), e)]), k, e.version)
    case OpenBatch(k, batch) =>
      if batch == [] then store
      else Checked(config, Opened(store, k, batch), k, batch[|batch| - 1].version)
    case CommitBatch(k, n) =>
      if n < |Open(store, k)|
      then Closed(store.(logs := store.logs[k := InsertedAll(Log(store, k), Open(store, k)[n])]), k, n)
      else store
    case RollBackBatch(k, n) => if n < |Open(store, k)| then Closed(store, k, n) else store
    case ReadEvents(k) =>
      if k in store.jobs && store.jobs[k].Reading?
      then
        var state := Replay(handlers, map[], EventsBetween(Log(store, k), 1, 0));
        store.(jobs := store.jobs[k := Writing(store.jobs[k].version, state)])
      else store
    case WriteSnapshot(k) =>
      if k in store.jobs && store.jobs[k].Writing?
      then
        var snapshot := Snapshot(store.jobs[k].version, store.jobs[k].state);
        store.(snapshots := store.snapshots[k := Snapshots(store, k) + [snapshot]], jobs := store.jobs[k := Ending])
      else store
    case EndJob(k) => store.(jobs := store.jobs - {k})
  }

  function Batch(events: seq<Addressed>): seq<Event> { seq(|events|, i requires 0 <= i < |events| => events[i].event) }

  const EMPTY := Store(map[], map[], map[], map[])

  class EventStore {
    var eventHandlers: Handlers
    var logs: map<Key, seq<Event>>
    var open: map<Key, seq<seq<Event>>>
    var snapshots: map<Key, seq<Snapshot>>
    var snapshotInProgress: map<Key, Job>
    const config: Config

    function View(): Store reads this { Store(logs, open, snapshots, snapshotInProgress) }

    constructor (config: Config)
      ensures View() == EMPTY && eventHandlers == map[] && this.config == config
    {
      this.config := config;
      eventHandlers, logs, open, snapshots, snapshotInProgress := map[], map[], map[], map[], map[];
    }

    method RegisterEventHandler(kind: string, handler: Handler)
      modifies this`eventHandlers
      ensures eventHandlers == old(eventHandlers)[kind := handler]
    {
      eventHandlers := eventHandlers[kind := handler];
    }

    method CheckAndCreateSnapshot(key: Key, version: nat)
      modifies this`snapshotInProgress
      ensures View() == Checked(config, old(View()), key, version)
    {
      if config.snapshotFrequency != 0 && version % config.snapshotFrequency == 0 {
        if key in snapshotInProgress {
          return;
        }
        if |snapshotInProgress| >= config.maxParallelSnapshots {
          return;
        }
        snapshotInProgress := snapshotInProgress[key := Reading(version)];
      }
    }

    method AppendEvent(tenant: string, key: Key, e: Event) returns (r: Result<Event, Error>)
      modifies this
      ensures eventHandlers == old(eventHandlers)
      ensures if key.tenant != tenant then r == Err(WrongTenant(key.tenant)) && View() == old(View())
              else r == Ok(e) && View() == Next(config, eventHandlers, old(View()), Append(key, e))
    {
      if key.tenant != tenant {
        return Err(WrongTenant(key.tenant));
      }
      logs := logs[key := Inserted(Log(View(), key), e)];
      CheckAndCreateSnapshot(key, e.version);
      r := Ok(e);
    }

    // The events are stored in a transaction; a job they start may run before the transaction ends.
    method AppendEvents(tenant: string, events: seq<Addressed>) returns (r: Result<seq<Event>, Error>)
      modifies this
      ensures eventHandlers == old(eventHandlers)
      ensures r == if events == [] then Ok([])
                   else if events[0].key.tenant != tenant then Err(WrongTenant(events[0].key.tenant))
                   else if exists i :: 0 <= i < |events| && events[i].key != events[0].key then Err(MixedBatch)
                   else Ok(Batch(events))
      ensures View() == if events == [] || r.Err? then old(View())
                        else Next(config, eventHandlers, old(View()), OpenBatch(events[0].key, Batch(events)))
    {
      if |events| == 0 {
        return Ok([]);
      }
      var key := events[0].key;
      if key.tenant != tenant {
        return Err(WrongTenant(key.tenant));
      }
      if !(forall i :: 0 <= i < |events| ==> events[i].key == key) {
        return Err(MixedBatch);
      }
      var stored: seq<Event> := [];
      for i := 0 to |events|
        invariant stored == Batch(events)[..i]
      {
        stored := stored + [events[i].event];
      }
      assert stored == Batch(events);
      open := open[key := Open(View(), key) + [stored]];
      CheckAndCreateSnapshot(key, events[|events| - 1].event.version);
      r := Ok(stored);
    }

    // The handlers in force, or the default application, event by event.
    method ApplyEvents(start: Fields, events: seq<Event>) returns (state: Fields)
      ensures state == Replay(eventHandlers, start, events)
    {
      state := start;
      for i := 0 to |events|
        invariant Replay(eventHandlers, state, events[i..]) == Replay(eventHandlers, start, events)
      {
        var e := events[i];
        assert events[i..][1..] == events[i + 1..];
        if e.kind in eventHandlers {
          state := eventHandlers[e.kind](state, e);
        } else {
          state := ApplyEventToState(state, e);
        }
      }
    }

    method RebuildStateFromEvents(events: seq<Event>) returns (state: Fields)
      ensures state == Replay(eventHandlers, map[], events)
    {
      if |events| == 0 {
        return map[];
      }
      state := ApplyEvents(map[], events);
    }

    // The job's read: it replays whatever has been committed by now.
    method ReadForSnapshot(key: Key)
      modifies this`snapshotInProgress
      ensures View() == Next(config, eventHandlers, old(View()), ReadEvents(key))
    {
      if key in snapshotInProgress && snapshotInProgress[key].Reading? {
        var state := RebuildStateFromEvents(EventsBetween(Log(View(), key), 1, 0));
        snapshotInProgress := snapshotInProgress[key := Writing(snapshotInProgress[key].version, state)];
      }
    }

    // Overriding handlers are in force during the replay only.
    method ReconstructState(key: Key, useSnapshots: bool, overrides: Handlers) returns (r: Result<Fields, Error>)
      modifies this`eventHandlers
      ensures eventHandlers == old(eventHandlers)
      ensures r == Reconstructed(eventHandlers + overrides, key, Log(View(), key),
                                 if useSnapshots then Latest(Snapshots(View(), key)) else None)
    {
      var fromVersion, state := 1, map[];
      if useSnapshots {
        var snapshot := Latest(Snapshots(View(), key));
        if snapshot.Some? {
          state := snapshot.value.state;
          fromVersion := snapshot.value.version + 1;
        }
      }
      var events := EventsBetween(Log(View(), key), fromVersion, 0);
      if |events| == 0 && fromVersion == 1 {
        return Err(NotFound(key));
      }
      var originalHandlers := eventHandlers;
      eventHandlers := eventHandlers + overrides;
      state := ApplyEvents(state, events);
      eventHandlers := originalHandlers;
      r := Ok(state);
    }
  }
}

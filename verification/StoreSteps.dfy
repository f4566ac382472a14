/** What each step of the store does: when a job starts, what it stores, and what becomes of a batch. */
module StoreSteps {
  import opened EventReplay
  import opened EventStore
  import opened ReplayedFields
  import opened SnapshotSafety

  // There is a multiple of the frequency to snapshot, no job for the aggregate, and room for one.
  ghost predicate Due(config: Config, store: Store, key: Key, version: nat) {
    && config.snapshotFrequency > 0 && (exists n: nat :: version == n * config.snapshotFrequency)
    && key !in store.jobs && |store.jobs| < config.maxParallelSnapshots
  }

  lemma {:induction false} MultipleIff(version: nat, frequency: nat)
    requires frequency > 0
    ensures version % frequency == 0 <==> exists n: nat :: version == n * frequency
  {
    if version % frequency == 0 {
      assert version == (version / frequency) * frequency;
    }
    if n: nat :| version == n * frequency {
      NoRemainder(n, frequency);
    }
  }

  lemma {:induction false} NoRemainder(n: nat, frequency: nat)
    requires frequency > 0
    ensures (n * frequency) % frequency == 0
  {
    var q, r := (n * frequency) / frequency, (n * frequency) % frequency;
    assert (n - q) * frequency == r;
    assert n - q >= 1 ==> (n - q) * frequency >= frequency;
    assert n - q <= -1 ==> (n - q) * frequency + frequency <= 0;
  }

  /** A job starts exactly when one is due, and carries the version; nothing else of the store changes. */
  lemma {:induction false} JobStartsIff(config: Config, store: Store, key: Key, version: nat)
    ensures Checked(config, store, key, version)
         == if Due(config, store, key, version) then store.(jobs := store.jobs[key := Reading(version)]) else store
  {
    if config.snapshotFrequency > 0 {
      MultipleIff(version, config.snapshotFrequency);
    }
  }

  /** An appended event is logged in its place, and starts a job of its version when one is due. */
  lemma {:induction false} AppendDoes(config: Config, handlers: Handlers, store: Store, key: Key, e: Event)
    requires InVersionOrder(Log(store, key))
    ensures var log, after := Log(store, key), Next(config, handlers, store, Append(key, e));
            var n := UpTo(log, e.version);
            && after.logs == store.logs[key := log[..n] + [e] + log[n..]]
            && after.open == store.open && after.snapshots == store.snapshots
            && after.jobs == if Due(config, store, key, e.version) then store.jobs[key := Reading(e.version)]
                             else store.jobs
  {
    var logged := store.(logs := store.logs[key := Inserted(Log(store, key), e)]);
    InsertedInPlace(Log(store, key), e);
    JobStartsIff(config, logged, key, e.version);
    assert Due(config, logged, key, e.version) == Due(config, store, key, e.version);
  }

  /** A batch is opened behind those already open, logs nothing, and starts a job of its last version when due. */
  lemma {:induction false} OpenDoes(config: Config, handlers: Handlers, store: Store, key: Key, batch: seq<Event>)
    requires batch != []
    ensures var after, version := Next(config, handlers, store, OpenBatch(key, batch)), batch[|batch| - 1].version;
            && after.logs == store.logs && after.snapshots == store.snapshots
            && after.open == store.open[key := Open(store, key) + [batch]]
            && after.jobs == if Due(config, store, key, version) then store.jobs[key := Reading(version)]
                             else store.jobs
  {
    var version := batch[|batch| - 1].version;
    JobStartsIff(config, Opened(store, key, batch), key, version);
    assert Due(config, Opened(store, key, batch), key, version) == Due(config, store, key, version);
  }

  /** When a batch is committed in order its events follow the log, and it is no longer open. */
  lemma {:induction false} CommitDoes(config: Config, handlers: Handlers, store: Store, key: Key, n: nat,
                                      after: Store)
    requires n < |Open(store, key)| && Increasing(Log(store, key) + Open(store, key)[n])
    requires after == Next(config, handlers, store, CommitBatch(key, n))
    ensures after.logs == store.logs[key := Log(store, key) + Open(store, key)[n]]
    ensures after.open == store.open[key := Open(store, key)[..n] + Open(store, key)[n + 1..]]
    ensures after.snapshots == store.snapshots && after.jobs == store.jobs
  {
    InsertedAtEnd(Log(store, key), Open(store, key)[n]);
  }

  /** Committed out of order, its events are put in their places one after the other. */
  lemma {:induction false} CommitInserts(config: Config, handlers: Handlers, store: Store, key: Key, n: nat,
                                         batch: seq<Event>, e: Event)
    requires n < |Open(store, key)|
    ensures Log(Next(config, handlers, store, CommitBatch(key, n)), key)
         == InsertedAll(Log(store, key), Open(store, key)[n])
    ensures InsertedAll(Log(store, key), []) == Log(store, key)
    ensures InsertedAll(Log(store, key), batch + [e]) == Inserted(InsertedAll(Log(store, key), batch), e)
  {
    InsertedLast(Log(store, key), batch, e);
  }

  lemma {:induction false} InsertedLast(log: seq<Event>, batch: seq<Event>, e: Event)
    ensures InsertedAll(log, batch + [e]) == Inserted(InsertedAll(log, batch), e)
    decreases |batch|
  {
    if batch == [] {
      assert [] + [e] == [e] && [e][1..] == [];
      assert InsertedAll(log, [e]) == InsertedAll(Inserted(log, e), []);
    } else {
      assert (batch + [e])[1..] == batch[1..] + [e];
      InsertedLast(Inserted(log, batch[0]), batch[1..], e);
    }
  }

  lemma {:induction false} InsertionKeepsOrder(log: seq<Event>, e: Event)
    requires InVersionOrder(log)
    ensures InVersionOrder(Inserted(log, e))
  {
    InsertedInPlace(log, e);
  }

  lemma {:induction false} BatchKeepsOrder(log: seq<Event>, batch: seq<Event>)
    requires InVersionOrder(log)
    ensures InVersionOrder(InsertedAll(log, batch))
    decreases |batch|
  {
    if batch != [] {
      InsertionKeepsOrder(log, batch[0]);
      BatchKeepsOrder(Inserted(log, batch[0]), batch[1..]);
    }
  }

  /** Whatever is appended and committed, and in whatever order, every log stays in the order of the versions. */
  lemma {:induction false} StepKeepsOrder(config: Config, handlers: Handlers, store: Store, step: Step, key: Key)
    requires InVersionOrder(Log(store, key))
    ensures InVersionOrder(Log(Next(config, handlers, store, step), key))
  {
    match step
    case Append(k, e) =>
      var logged := store.(logs := store.logs[k := Inserted(Log(store, k), e)]);
      JobStartsIff(config, logged, k, e.version);
      if k == key {
        InsertionKeepsOrder(Log(store, key), e);
      }
    case OpenBatch(k, batch) =>
      if batch != [] {
        JobStartsIff(config, Opened(store, k, batch), k, batch[|batch| - 1].version);
      }
    case CommitBatch(k, n) =>
      if k == key && n < |Open(store, k)| {
        BatchKeepsOrder(Log(store, key), Open(store, key)[n]);
      }
    case _ =>
  }

  /** When it is rolled back nothing of it is left. */
  lemma {:induction false} RollBackDoes(config: Config, handlers: Handlers, store: Store, key: Key, n: nat,
                                        after: Store)
    requires n < |Open(store, key)| && after == Next(config, handlers, store, RollBackBatch(key, n))
    ensures after == store.(open := after.open)
    ensures after.open == store.open[key := Open(store, key)[..n] + Open(store, key)[n + 1..]]
  {
  }

  /** A batch that is not there cannot end. */
  lemma {:induction false} NoBatchNoEnd(config: Config, handlers: Handlers, store: Store, key: Key, n: nat)
    requires n >= |Open(store, key)|
    ensures Next(config, handlers, store, CommitBatch(key, n)) == store
    ensures Next(config, handlers, store, RollBackBatch(key, n)) == store
  {
  }

  /**
   * A job's whole course, whatever else is in the store: it replays all that is logged when it reads,
   * stores that under the version it was started with, and leaves its place to others when it ends.
   */
  lemma {:induction false} JobDoes(config: Config, handlers: Handlers, store: Store, key: Key, s1: Store, s2: Store,
                                   s3: Store)
    requires key in store.jobs && store.jobs[key].Reading?
    requires s1 == Next(config, handlers, store, ReadEvents(key))
    requires s2 == Next(config, handlers, s1, WriteSnapshot(key)) && s3 == Next(config, handlers, s2, EndJob(key))
    ensures var events := EventsBetween(Log(store, key), 1, 0);
            var snapshot := Snapshot(store.jobs[key].version, Replay(handlers, map[], events));
            && (Increasing(Log(store, key)) ==> events == Log(store, key))
            && s1.snapshots == store.snapshots && key in s1.jobs
            && s3.snapshots == s2.snapshots == store.snapshots[key := Snapshots(store, key) + [snapshot]]
    ensures key in s2.jobs && s3.jobs == store.jobs - {key}
    ensures s3.logs == store.logs && s3.open == store.open
  {
    if Increasing(Log(store, key)) {
      AllFromOne(Log(store, key));
    }
    assert s3.jobs == store.jobs - {key};
  }

  /** A job reads once and writes once: in another state of it neither step does anything. */
  lemma {:induction false} JobStepsInOrder(config: Config, handlers: Handlers, store: Store, key: Key)
    ensures (key in store.jobs ==> !store.jobs[key].Reading?) ==>
              Next(config, handlers, store, ReadEvents(key)) == store
    ensures (key in store.jobs ==> !store.jobs[key].Writing?) ==>
              Next(config, handlers, store, WriteSnapshot(key)) == store
  {
  }
}

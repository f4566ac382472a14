/** Starting from a snapshot gives the same state as replaying the whole log, whenever the snapshot was taken. */
module SnapshotSafety {
  import opened EventReplay
  import opened EventStore
  import opened Options

  // The label is no later than the log's last event, and the state is that of a prefix with all events up to the label.
  ghost predicate Absorbed(log: seq<Event>, version: nat, state: Fields) {
    && log != [] && version <= log[|log| - 1].version
    && exists m :: UpTo(log, version) <= m <= |log| && state == Replay(map[], map[], log[..m])
  }

  ghost predicate Safe(store: Store, key: Key) {
    && Increasing(Log(store, key))
    && (forall s :: s in Snapshots(store, key) ==> Absorbed(Log(store, key), s.version, s.state))
    && (key in store.jobs && store.jobs[key].Writing? ==>
        Absorbed(Log(store, key), store.jobs[key].version, store.jobs[key].state))
  }

  predicate Seen(log: seq<Event>, version: nat) { log != [] && version <= log[|log| - 1].version }

  // A job that has still to read would read the event that started it.
  ghost predicate JobSees(store: Store, key: Key) {
    key in store.jobs && store.jobs[key].Reading? ==> Seen(Log(store, key), store.jobs[key].version)
  }

  // Versions increase from one commit to the next, whatever batches are open or rolled back meanwhile.
  ghost predicate Ordered(store: Store, step: Step) {
    match step
    case Append(k, e) => Increasing(Log(store, k) + [e])
    case CommitBatch(k, n) => n < |Open(store, k)| ==> Increasing(Log(store, k) + Open(store, k)[n])
    case _ => true
  }

  // ---- Growing logs ----

  lemma {:induction false} UpToSplit(log: seq<Event>, more: seq<Event>, version: nat)
    ensures UpTo(log + more, version) == UpTo(log, version) + UpTo(more, version)
    decreases |log|
  {
    if log == [] {
      assert log + more == more;
    } else {
      assert (log + more)[1..] == log[1..] + more;
      UpToSplit(log[1..], more, version);
    }
  }

  lemma {:induction false} AbsorbedGrows(log: seq<Event>, more: seq<Event>, version: nat, state: Fields)
    requires Absorbed(log, version, state) && Increasing(log + more)
    ensures Absorbed(log + more, version, state)
  {
    var longer := log + more;
    assert longer[|log| - 1] == log[|log| - 1];
    forall i | 0 <= i < |more| ensures version < more[i].version {
      assert longer[|log| + i] == more[i];
    }
    AllLater(more, version);
    UpToSplit(log, more, version);
    var m :| UpTo(log, version) <= m <= |log| && state == Replay(map[], map[], log[..m]);
    assert longer[..m] == log[..m];
    if more != [] {
      assert longer[|longer| - 1] == more[|more| - 1];
    } else {
      assert longer == log;
    }
  }

  lemma {:induction false} InsertedAtEnd(log: seq<Event>, batch: seq<Event>)
    requires Increasing(log + batch)
    ensures InsertedAll(log, batch) == log + batch
    ensures batch != [] ==> Inserted(log, batch[0]) == log + [batch[0]]
    decreases |batch|
  {
    if batch == [] {
      assert log + batch == log;
    } else {
      assert log != [] ==> (log + batch)[|log| - 1] == log[|log| - 1];
      assert (log + batch)[|log|] == batch[0];
      assert log + batch == (log + [batch[0]]) + batch[1..];
      InsertedAtEnd(log + [batch[0]], batch[1..]);
    }
  }

  // ---- Every step ----

  lemma {:induction false} GrownSafe(store: Store, store': Store, key: Key, more: seq<Event>)
    requires Safe(store, key) && Increasing(Log(store, key) + more)
    requires Log(store', key) == Log(store, key) + more
    requires Snapshots(store', key) == Snapshots(store, key)
    requires key in store'.jobs && store'.jobs[key].Writing? ==>
             key in store.jobs && store'.jobs[key] == store.jobs[key]
    ensures Safe(store', key)
  {
    forall s | s in Snapshots(store', key) ensures Absorbed(Log(store', key), s.version, s.state) {
      AbsorbedGrows(Log(store, key), more, s.version, s.state);
    }
    if key in store'.jobs && store'.jobs[key].Writing? {
      AbsorbedGrows(Log(store, key), more, store.jobs[key].version, store.jobs[key].state);
    }
  }

  lemma {:induction false} ReadAbsorbs(log: seq<Event>, version: nat)
    requires Increasing(log) && Seen(log, version)
    ensures Absorbed(log, version, Replay(map[], map[], EventsBetween(log, 1, 0)))
  {
    AllFromOne(log);
    assert log[..|log|] == log;
  }

  lemma {:induction false} AllFromOne(log: seq<Event>)
    requires Increasing(log)
    ensures EventsBetween(log, 1, 0) == log
  {
    AllLater(log, 0);
  }

  lemma {:induction false} AppendKeepsSafe(config: Config, store: Store, key: Key, e: Event)
    requires Safe(store, key) && Increasing(Log(store, key) + [e])
    ensures Safe(Next(config, map[], store, Append(key, e)), key)
  {
    InsertedAtEnd(Log(store, key), [e]);
    GrownSafe(store, Next(config, map[], store, Append(key, e)), key, [e]);
  }

  lemma {:induction false} CommitKeepsSafe(config: Config, store: Store, key: Key, n: nat)
    requires Safe(store, key) && Ordered(store, CommitBatch(key, n))
    ensures Safe(Next(config, map[], store, CommitBatch(key, n)), key)
  {
    if n < |Open(store, key)| {
      InsertedAtEnd(Log(store, key), Open(store, key)[n]);
      GrownSafe(store, Next(config, map[], store, CommitBatch(key, n)), key, Open(store, key)[n]);
    }
  }

  lemma {:induction false} ReadKeepsSafe(config: Config, store: Store, key: Key)
    requires Safe(store, key) && JobSees(store, key)
    ensures Safe(Next(config, map[], store, ReadEvents(key)), key)
  {
    if key in store.jobs && store.jobs[key].Reading? {
      ReadAbsorbs(Log(store, key), store.jobs[key].version);
    }
  }

  lemma {:induction false} OpenKeepsSafe(config: Config, store: Store, key: Key, batch: seq<Event>)
    requires Safe(store, key)
    ensures Safe(Next(config, map[], store, OpenBatch(key, batch)), key)
  {
  }

  lemma {:induction false} WriteKeepsSafe(config: Config, store: Store, key: Key)
    requires Safe(store, key)
    ensures Safe(Next(config, map[], store, WriteSnapshot(key)), key)
  {
  }

  // Nothing about one aggregate differs.
  ghost predicate SameAt(store: Store, store': Store, key: Key) {
    && Log(store', key) == Log(store, key) && Snapshots(store', key) == Snapshots(store, key)
    && Open(store', key) == Open(store, key)
    && (key in store'.jobs <==> key in store.jobs) && (key in store.jobs ==> store'.jobs[key] == store.jobs[key])
  }

  lemma {:induction false} CheckedElsewhere(config: Config, store: Store, at: Key, version: nat, key: Key)
    requires at != key
    ensures SameAt(store, Checked(config, store, at, version), key)
  {
  }

  lemma {:induction false} StoredElsewhere(config: Config, store: Store, step: Step, key: Key)
    requires step.key != key && (step.Append? || step.OpenBatch?)
    ensures SameAt(store, Next(config, map[], store, step), key)
  {
    match step
    case Append(k, e) =>
      CheckedElsewhere(config, store.(logs := store.logs[k := Inserted(Log(store, k), e)]), k, e.version, key);
    case OpenBatch(k, batch) =>
      if batch != [] {
        CheckedElsewhere(config, Opened(store, k, batch), k, batch[|batch| - 1].version, key);
      }
  }

  lemma {:induction false} TransactionElsewhere(config: Config, store: Store, step: Step, key: Key)
    requires step.key != key && (step.CommitBatch? || step.RollBackBatch?)
    ensures SameAt(store, Next(config, map[], store, step), key)
  {
  }

  lemma {:induction false} JobElsewhere(config: Config, store: Store, step: Step, key: Key)
    requires step.key != key && (step.ReadEvents? || step.WriteSnapshot? || step.EndJob?)
    ensures SameAt(store, Next(config, map[], store, step), key)
  {
  }

  lemma {:induction false} OtherKeyKept(config: Config, store: Store, step: Step, key: Key)
    requires step.key != key
    ensures SameAt(store, Next(config, map[], store, step), key)
  {
    if step.Append? || step.OpenBatch? {
      StoredElsewhere(config, store, step, key);
    } else if step.CommitBatch? || step.RollBackBatch? {
      TransactionElsewhere(config, store, step, key);
    } else {
      JobElsewhere(config, store, step, key);
    }
  }

  // A read is safe when the job sees the event that started it; every other step is safe in order.
  lemma {:induction false} StepKeepsSafe(config: Config, store: Store, step: Step, key: Key)
    requires Safe(store, key) && Ordered(store, step)
    requires step == ReadEvents(key) ==> JobSees(store, key)
    ensures Safe(Next(config, map[], store, step), key)
  {
    if step.key != key {
      OtherKeyKept(config, store, step, key);
    } else {
      match step
      case Append(_, e) => AppendKeepsSafe(config, store, key, e);
      case OpenBatch(_, batch) => OpenKeepsSafe(config, store, key, batch);
      case CommitBatch(_, n) => CommitKeepsSafe(config, store, key, n);
      case ReadEvents(_) => ReadKeepsSafe(config, store, key);
      case WriteSnapshot(_) => WriteKeepsSafe(config, store, key);
      case _ =>
    }
  }

  // ---- What a job sees ----

  lemma {:induction false} SeenGrows(log: seq<Event>, more: seq<Event>, version: nat)
    requires Increasing(log + more) && Seen(log, version)
    ensures Seen(log + more, version)
  {
    var longer := log + more;
    assert longer[|log| - 1] == log[|log| - 1];
    assert |log| - 1 < |longer| - 1 ==> longer[|log| - 1].version < longer[|longer| - 1].version;
  }

  lemma {:induction false} AppendKeepsSeen(config: Config, store: Store, key: Key, e: Event)
    requires JobSees(store, key) && Increasing(Log(store, key) + [e])
    ensures JobSees(Next(config, map[], store, Append(key, e)), key)
  {
    InsertedAtEnd(Log(store, key), [e]);
    if key in store.jobs && store.jobs[key].Reading? {
      SeenGrows(Log(store, key), [e], store.jobs[key].version);
    }
  }

  lemma {:induction false} CommitKeepsSeen(config: Config, store: Store, key: Key, n: nat)
    requires JobSees(store, key) && Ordered(store, CommitBatch(key, n))
    ensures JobSees(Next(config, map[], store, CommitBatch(key, n)), key)
  {
    if n < |Open(store, key)| {
      InsertedAtEnd(Log(store, key), Open(store, key)[n]);
      if key in store.jobs && store.jobs[key].Reading? {
        SeenGrows(Log(store, key), Open(store, key)[n], store.jobs[key].version);
      }
    }
  }

  // Only a batch that starts a job leaves one that does not see its event: an append logs the event first.
  lemma {:induction false} StepKeepsSeen(config: Config, store: Store, step: Step, key: Key)
    requires Safe(store, key) && JobSees(store, key) && Ordered(store, step)
    requires step.OpenBatch? && step.key == key ==> key in store.jobs
    ensures JobSees(Next(config, map[], store, step), key)
  {
    if step.key != key {
      OtherKeyKept(config, store, step, key);
    } else {
      match step
      case Append(_, e) => AppendKeepsSeen(config, store, key, e);
      case CommitBatch(_, n) => CommitKeepsSeen(config, store, key, n);
      case _ =>
    }
  }

  // ---- Every run ----

  ghost predicate IsRun(config: Config, stores: seq<Store>, steps: seq<Step>) {
    && |stores| == |steps| + 1 && stores[0] == EMPTY
    && forall i :: 0 <= i < |steps| ==>
         Ordered(stores[i], steps[i]) && stores[i + 1] == Next(config, map[], stores[i], steps[i])
  }

  // The step that started the job running for the aggregate in the i-th store.
  function StartOf(stores: seq<Store>, key: Key, i: nat): (j: int)
    requires i < |stores|
    ensures -1 <= j < i
  {
    if i == 0 then -1 else if key !in stores[i - 1].jobs then i - 1 else StartOf(stores, key, i - 1)
  }

  ghost predicate StartedByBatch(stores: seq<Store>, steps: seq<Step>, i: nat, key: Key)
    requires i < |stores| == |steps| + 1
  {
    StartOf(stores, key, i) >= 0 && steps[StartOf(stores, key, i)].OpenBatch?
  }

  // A job started by a batch does not read before the batch is committed.
  ghost predicate BatchesCommitFirst(stores: seq<Store>, steps: seq<Step>)
    requires |stores| == |steps| + 1
  {
    forall i :: 0 <= i < |steps| && steps[i].ReadEvents? && StartedByBatch(stores, steps, i, steps[i].key) ==>
      JobSees(stores[i], steps[i].key)
  }

  lemma {:induction false} RunIsSafe(config: Config, stores: seq<Store>, steps: seq<Step>, k: nat, key: Key)
    requires IsRun(config, stores, steps) && BatchesCommitFirst(stores, steps) && k < |stores|
    ensures Safe(stores[k], key)
    ensures JobSees(stores[k], key) || StartedByBatch(stores, steps, k, key)
    decreases k
  {
    if k > 0 {
      RunIsSafe(config, stores, steps, k - 1, key);
      var store, step := stores[k - 1], steps[k - 1];
      assert stores[k - 1 + 1] == Next(config, map[], store, step) && Ordered(store, step);
      StepKeepsSafe(config, store, step, key);
      if key in store.jobs {
        assert StartOf(stores, key, k) == StartOf(stores, key, k - 1);
        if !StartedByBatch(stores, steps, k - 1, key) {
          StepKeepsSeen(config, store, step, key);
        }
      } else if !step.OpenBatch? {
        StepKeepsSeen(config, store, step, key);
      } else if step.key != key {
        OtherKeyKept(config, store, step, key);
      }
    }
  }

  // Jobs and snapshots carry versions at the frequency, and jobs stay within their number.
  ghost predicate Paced(config: Config, store: Store) {
    && (store.jobs == map[] || |store.jobs| <= config.maxParallelSnapshots)
    && (forall k :: k in store.jobs && !store.jobs[k].Ending? ==> AtFrequency(config, store.jobs[k].version))
    && (forall k, s :: k in store.snapshots && s in store.snapshots[k] ==> AtFrequency(config, s.version))
  }

  predicate AtFrequency(config: Config, version: nat) {
    config.snapshotFrequency != 0 && version % config.snapshotFrequency == 0
  }

  lemma {:induction false} CheckedPaced(config: Config, store: Store, key: Key, version: nat)
    requires Paced(config, store)
    ensures Paced(config, Checked(config, store, key, version))
  {
    if Checked(config, store, key, version) != store {
      assert |store.jobs[key := Reading(version)]| == |store.jobs| + 1;
    }
  }

  lemma {:induction false} StoringPaced(config: Config, store: Store, step: Step)
    requires Paced(config, store) && (step.Append? || step.OpenBatch?)
    ensures Paced(config, Next(config, map[], store, step))
  {
    match step
    case Append(k, e) =>
      CheckedPaced(config, store.(logs := store.logs[k := Inserted(Log(store, k), e)]), k, e.version);
    case OpenBatch(k, batch) =>
      if batch != [] {
        CheckedPaced(config, Opened(store, k, batch), k, batch[|batch| - 1].version);
      }
  }

  lemma {:induction false} ReadPaced(config: Config, store: Store, key: Key)
    requires Paced(config, store)
    ensures Paced(config, Next(config, map[], store, ReadEvents(key)))
  {
    if key in store.jobs && store.jobs[key].Reading? {
      UpdateKeepsSize(store.jobs, key, Next(config, map[], store, ReadEvents(key)).jobs[key]);
    }
  }

  lemma {:induction false} WritePaced(config: Config, store: Store, key: Key)
    requires Paced(config, store)
    ensures Paced(config, Next(config, map[], store, WriteSnapshot(key)))
  {
    if key in store.jobs && store.jobs[key].Writing? {
      UpdateKeepsSize(store.jobs, key, Ending);
    }
  }

  lemma {:induction false} EndPaced(config: Config, store: Store, key: Key)
    requires Paced(config, store)
    ensures Paced(config, Next(config, map[], store, EndJob(key)))
  {
    RemovalShrinks(store.jobs, key);
  }

  lemma {:induction false} StepPaced(config: Config, store: Store, step: Step)
    requires Paced(config, store)
    ensures Paced(config, Next(config, map[], store, step))
  {
    match step
    case Append(_, _) => StoringPaced(config, store, step);
    case OpenBatch(_, _) => StoringPaced(config, store, step);
    case CommitBatch(_, _) =>
    case RollBackBatch(_, _) =>
    case ReadEvents(k) => ReadPaced(config, store, k);
    case WriteSnapshot(k) => WritePaced(config, store, k);
    case EndJob(k) => EndPaced(config, store, k);
  }

  lemma {:induction false} UpdateKeepsSize(jobs: map<Key, Job>, key: Key, job: Job)
    requires key in jobs
    ensures |jobs[key := job]| == |jobs|
  {
    assert jobs[key := job].Keys == jobs.Keys;
  }

  lemma {:induction false} RemovalShrinks(jobs: map<Key, Job>, key: Key)
    ensures |jobs - {key}| <= |jobs|
  {
    var rest := jobs - {key};
    assert rest.Keys == jobs.Keys - {key};
    assert |rest.Keys| <= |jobs.Keys|;
  }

  /**
   * In every run no more jobs run at once than the maximum, and every job and snapshot is labelled with
   * a version at the frequency.
   */
  lemma {:induction false} JobsStayPaced(config: Config, stores: seq<Store>, steps: seq<Step>, k: nat)
    requires IsRun(config, stores, steps) && k < |stores|
    ensures Paced(config, stores[k])
    decreases k
  {
    if k > 0 {
      JobsStayPaced(config, stores, steps, k - 1);
      StepPaced(config, stores[k - 1], steps[k - 1]);
      assert stores[k - 1 + 1] == Next(config, map[], stores[k - 1], steps[k - 1]);
    }
  }

  lemma {:induction false} FullReplay(key: Key, log: seq<Event>)
    requires Increasing(log) && log != []
    ensures Reconstructed(map[], key, log, None) == Ok(Replay(map[], map[], log))
  {
    AllFromOne(log);
  }

  lemma {:induction false} TailReplay(key: Key, log: seq<Event>, s: Snapshot, c: nat)
    requires Increasing(log) && log != [] && c == UpTo(log, s.version)
    ensures Reconstructed(map[], key, log, Some(s)) == Ok(Replay(map[], s.state, log[c..]))
  {
    TailAfter(log, s.version);
    if s.version == 0 {
      AllLater(log, 0);
    }
  }

  lemma {:induction false} AbsorbedReconstructs(key: Key, log: seq<Event>, s: Snapshot)
    requires Increasing(log) && Absorbed(log, s.version, s.state)
    ensures Reconstructed(map[], key, log, Some(s)) == Reconstructed(map[], key, log, None)
    ensures Reconstructed(map[], key, log, None) == Ok(Replay(map[], map[], log))
  {
    var c := UpTo(log, s.version);
    var m :| c <= m <= |log| && s.state == Replay(map[], map[], log[..m]);
    FullReplay(key, log);
    TailReplay(key, log, s, c);
    AbsorbedTwice(log, c, m);
  }

  /**
   * In every state of every run, whatever the interleaving of appends, commits and snapshot jobs,
   * reconstructing an aggregate from any of its snapshots gives what replaying its whole log gives,
   * as long as no job started by a batch reads before that batch is committed.
   */
  lemma {:induction false} SnapshotsReconstruct(config: Config, stores: seq<Store>, steps: seq<Step>, k: nat,
                                                key: Key, s: Snapshot)
    requires IsRun(config, stores, steps) && BatchesCommitFirst(stores, steps)
    requires k < |stores| && s in Snapshots(stores[k], key)
    ensures var log := Log(stores[k], key);
            && Reconstructed(map[], key, log, Some(s)) == Reconstructed(map[], key, log, None)
            && Reconstructed(map[], key, log, None) == Ok(Replay(map[], map[], log))
  {
    RunIsSafe(config, stores, steps, k, key);
    AbsorbedReconstructs(key, Log(stores[k], key), s);
  }

  /** When events are appended one at a time, nothing is asked of the jobs: every interleaving is safe. */
  lemma {:induction false} AppendsReconstruct(config: Config, stores: seq<Store>, steps: seq<Step>, k: nat,
                                              key: Key, s: Snapshot)
    requires IsRun(config, stores, steps) && forall i :: 0 <= i < |steps| ==> !steps[i].OpenBatch?
    requires k < |stores| && s in Snapshots(stores[k], key)
    ensures var log := Log(stores[k], key);
            && Reconstructed(map[], key, log, Some(s)) == Reconstructed(map[], key, log, None)
            && Reconstructed(map[], key, log, None) == Ok(Replay(map[], map[], log))
  {
    SnapshotsReconstruct(config, stores, steps, k, key, s);
  }

  // ---- How far this goes ----

  ghost predicate StaysRight(key: Key, log: seq<Event>, version: nat) {
    forall more: seq<Event> :: Increasing(log + more) ==>
      Reconstructed(map[], key, log + more, Some(Snapshot(version, Replay(map[], map[], log))))
      == Reconstructed(map[], key, log + more, None)
  }

  // An event whose version the label already covers, and which changes the state.
  lemma {:induction false} LostEvent(key: Key, log: seq<Event>, version: nat)
    requires Increasing(log) && version >= 1 && !Seen(log, version)
    ensures !StaysRight(key, log, version)
  {
    var before := Replay(map[], map[], log);
    var next := if log == [] then 1 else log[|log| - 1].version + 1;
    var e := Event("", next, "", map["version" := OtherThan(before)]);
    NextIncreases(log, e);
    SkippedEvent(key, log, version, e, log + [e], before);
    WritesOther(before, e);
    assert Increasing(log + [e]);
  }

  lemma {:induction false} WritesOther(before: Fields, e: Event)
    requires e.payload == map["version" := OtherThan(before)]
    ensures before + Written(e) != before
  {
    assert (before + Written(e))["version"] == OtherThan(before);
  }

  // A version field unlike the one the state has.
  function OtherThan(state: Fields): Value {
    Number(if "version" in state && state["version"].Number? then state["version"].number + 1 else 0)
  }

  lemma {:induction false} NextIncreases(log: seq<Event>, e: Event)
    requires Increasing(log) && e.version == if log == [] then 1 else log[|log| - 1].version + 1
    ensures Increasing(log + [e])
    ensures forall i :: 0 <= i < |log + [e]| ==> (log + [e])[i].version <= e.version
  {
  }

  lemma {:induction false} SkippedEvent(key: Key, log: seq<Event>, version: nat, e: Event, longer: seq<Event>,
                                        before: Fields)
    requires longer == log + [e] && Increasing(longer) && version >= 1 && before == Replay(map[], map[], log)
    requires forall i :: 0 <= i < |longer| ==> longer[i].version <= version
    ensures Reconstructed(map[], key, longer, Some(Snapshot(version, before))) == Ok(before)
    ensures Reconstructed(map[], key, longer, None) == Ok(before + Written(e))
  {
    AllFromOne(longer);
    NothingAfter(longer, version);
    ReplaySplit(map[], map[], log, [e]);
    ReplayOne(before, e);
  }

  lemma {:induction false} ReplayOne(state: Fields, e: Event)
    ensures Replay(map[], state, [e]) == state + Written(e)
  {
    assert [e][1..] == [];
    assert Replay(map[], state, [e]) == Replay(map[], state + Written(e), [e][1..]);
  }

  lemma {:induction false} NothingAfter(log: seq<Event>, version: nat)
    requires forall i :: 0 <= i < |log| ==> log[i].version <= version
    ensures EventsBetween(log, version + 1, 0) == []
    decreases |log|
  {
    if log != [] {
      NothingAfter(log[1..], version);
    }
  }

  /**
   * A snapshot labelled with a version and taken from a log stays right however the log grows, exactly
   * when the log already holds an event of at least that version at the time of the read.
   */
  lemma {:induction false} ReadStaysRightIff(key: Key, log: seq<Event>, version: nat)
    requires Increasing(log) && version >= 1
    ensures StaysRight(key, log, version) <==> Seen(log, version)
  {
    if Seen(log, version) {
      forall more: seq<Event> | Increasing(log + more)
        ensures Reconstructed(map[], key, log + more, Some(Snapshot(version, Replay(map[], map[], log))))
             == Reconstructed(map[], key, log + more, None)
      {
        ReadAbsorbs(log, version);
        AllFromOne(log);
        AbsorbedGrows(log, more, version, Replay(map[], map[], log));
        AbsorbedReconstructs(key, log + more, Snapshot(version, Replay(map[], map[], log)));
      }
    } else {
      LostEvent(key, log, version);
    }
  }

  /**
   * For handlers of any kind, a snapshot is right exactly when it absorbed the events up to its label and no
   * others.
   */
  lemma {:induction false} RightForAllHandlersIff(key: Key, log: seq<Event>, version: nat, m: nat)
    requires Increasing(log) && log != [] && version >= 1 && m <= |log|
    ensures (forall handlers: Handlers ::
               Reconstructed(handlers, key, log, Some(Snapshot(version, Replay(handlers, map[], log[..m]))))
               == Reconstructed(handlers, key, log, None))
       <==> m == UpTo(log, version)
  {
    var c := UpTo(log, version);
    forall handlers: Handlers
      ensures (Reconstructed(handlers, key, log, Some(Snapshot(version, Replay(handlers, map[], log[..m]))))
               == Reconstructed(handlers, key, log, None)) <==> Resumes(handlers, log, c, m)
    {
      ReconstructedResumes(handlers, key, log, version, Replay(handlers, map[], log[..m]));
    }
    ResumesForAllIff(log, c, m);
  }

  lemma {:induction false} ReconstructedResumes(handlers: Handlers, key: Key, log: seq<Event>, version: nat,
                                                state: Fields)
    requires Increasing(log) && log != [] && version >= 1
    ensures Reconstructed(handlers, key, log, Some(Snapshot(version, state)))
         == Ok(Replay(handlers, state, log[UpTo(log, version)..]))
    ensures Reconstructed(handlers, key, log, None) == Ok(Replay(handlers, map[], log))
  {
    AllFromOne(log);
    TailAfter(log, version);
  }

  /**
   * A job started by a batch can read before the batch is committed; the batch is then lost to every
   * reconstruction from it.
   */
  lemma {:induction false} EarlyReadLosesBatch(key: Key, config: Config, e: Event, s1: Store, s2: Store, s3: Store,
                                               s4: Store)
    requires config.snapshotFrequency == 1 && config.maxParallelSnapshots > 0 && e.version == 1
    requires s1 == Next(config, map[], EMPTY, OpenBatch(key, [e])) && s2 == Next(config, map[], s1, ReadEvents(key))
    requires s3 == Next(config, map[], s2, WriteSnapshot(key)) && s4 == Next(config, map[], s3, CommitBatch(key, 0))
    ensures Log(s4, key) == [e] && Snapshots(s4, key) == [Snapshot(1, map[])]
    ensures Reconstructed(map[], key, [e], Some(Snapshot(1, map[]))) == Ok(map[])
    ensures Reconstructed(map[], key, [e], None) == Ok(Written(e)) != Ok(map[])
  {
    EarlyRead(key, config, e, s1, s2);
    LateCommit(key, config, e, s2, s3, s4);
    LostFirst(key, e);
  }

  lemma {:induction false} LostFirst(key: Key, e: Event)
    requires e.version == 1
    ensures Reconstructed(map[], key, [e], Some(Snapshot(1, map[]))) == Ok(map[])
    ensures Reconstructed(map[], key, [e], None) == Ok(Written(e)) != Ok(map[])
  {
    assert [] + [e] == [e];
    assert Increasing([e]);
    SkippedEvent(key, [], 1, e, [e], map[]);
    assert map[] + Written(e) == Written(e);
    assert "version" in Written(e);
  }

  lemma {:induction false} EarlyRead(key: Key, config: Config, e: Event, s1: Store, s2: Store)
    requires config.snapshotFrequency == 1 && config.maxParallelSnapshots > 0 && e.version == 1
    requires s1 == Next(config, map[], EMPTY, OpenBatch(key, [e])) && s2 == Next(config, map[], s1, ReadEvents(key))
    ensures s2 == Store(map[], map[key := [[e]]], map[], map[key := Writing(1, map[])])
  {
    assert Open(EMPTY, key) + [[e]] == [[e]];
    assert s1 == Store(map[], map[key := [[e]]], map[], map[key := Reading(1)]);
    assert Log(s1, key) == [];
  }

  lemma {:induction false} LateCommit(key: Key, config: Config, e: Event, s2: Store, s3: Store, s4: Store)
    requires s2 == Store(map[], map[key := [[e]]], map[], map[key := Writing(1, map[])]) && e.version == 1
    requires s3 == Next(config, map[], s2, WriteSnapshot(key)) && s4 == Next(config, map[], s3, CommitBatch(key, 0))
    ensures Log(s4, key) == [e] && Snapshots(s4, key) == [Snapshot(1, map[])]
  {
    assert Snapshots(s2, key) + [Snapshot(1, map[])] == [Snapshot(1, map[])];
    InsertedAtEnd(Log(s3, key), [e]);
    assert Log(s3, key) + [e] == [e];
  }
}

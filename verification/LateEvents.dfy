/** Events committed after events of later versions, and when a snapshot survives them. */
module LateEvents {
  import opened EventReplay
  import opened EventStore
  import opened Options
  import opened SnapshotSafety

  // The log between an event's place and the one it takes when it comes late.
  function With(before: seq<Event>, e: Event, after: seq<Event>): seq<Event> { before + [e] + after }

  lemma {:induction false} InsertedAmong(before: seq<Event>, e: Event, after: seq<Event>)
    requires Increasing(With(before, e, after))
    ensures Inserted(before + after, e) == With(before, e, after)
    decreases |after|
  {
    var log := With(before, e, after);
    assert log[|before|] == e;
    if after == [] {
      assert before + after == before;
      assert before != [] ==> log[|before| - 1] == before[|before| - 1];
    } else {
      var front, last := after[..|after| - 1], after[|after| - 1];
      assert log[|log| - 1] == last;
      assert (before + after)[..|before + after| - 1] == before + front;
      assert log[..|log| - 1] == With(before, e, front);
      InsertedAmong(before, e, front);
    }
  }

  lemma {:induction false} KeysWritten(events: seq<Event>, f: string)
    ensures f in AllWritten(events) <==> exists i :: 0 <= i < |events| && f in Written(events[i])
    decreases |events|
  {
    if events != [] {
      KeysWritten(events[1..], f);
      assert forall i :: 0 < i < |events| ==> events[i] == events[1..][i - 1];
      assert forall i :: 0 <= i < |events[1..]| ==> events[1..][i] == events[i + 1];
    }
  }

  lemma {:induction false} KeysWithin(xs: seq<Event>, ys: seq<Event>)
    requires forall x :: x in xs ==> x in ys
    ensures AllWritten(xs).Keys <= AllWritten(ys).Keys
  {
    forall f | f in AllWritten(xs) ensures f in AllWritten(ys) {
      KeysWritten(xs, f);
      KeysWritten(ys, f);
      var i :| 0 <= i < |xs| && f in Written(xs[i]);
      assert xs[i] in ys;
      var j :| 0 <= j < |ys| && ys[j] == xs[i];
      assert f in Written(ys[j]);
    }
  }

  // A state that absorbed some of the events and is given all of them again, and more.
  lemma {:induction false} AbsorbedSome(before: seq<Event>, some: seq<Event>, all: seq<Event>)
    requires forall x :: x in some ==> x in all
    ensures Replay(map[], Replay(map[], map[], before + some), all) == Replay(map[], map[], before + all)
  {
    FromNothing(before + some);
    FromNothing(before + all);
    AllWrittenSplit(before, some);
    AllWrittenSplit(before, all);
    DefaultReplay(AllWritten(before) + AllWritten(some), all);
    KeysWithin(some, all);
    Covered(AllWritten(before), AllWritten(some), AllWritten(all));
  }

  lemma {:induction false} Covered(a: Fields, b: Fields, c: Fields)
    requires b.Keys <= c.Keys
    ensures (a + b) + c == a + c
  {
  }

  // What the late event writes is written over later, or was there already.
  predicate Overwritten(before: seq<Event>, e: Event, after: seq<Event>) {
    forall f :: f in Written(e) ==>
      || f in AllWritten(after)
      || (f in AllWritten(before) && AllWritten(before)[f] == Written(e)[f])
  }

  lemma {:induction false} NothingNewIff(b: Fields, e: Fields, a: Fields)
    ensures b + a == b + (e + a) <==> forall f :: f in e ==> f in a || (f in b && b[f] == e[f])
  {
    var l, r := b + a, b + (e + a);
    if l == r {
      forall f | f in e && f !in a ensures f in b && b[f] == e[f] {
        assert f in r && r[f] == e[f];
        assert l[f] == b[f];
      }
    }
  }

  lemma {:induction false} WritesOnce(e: Event)
    ensures AllWritten([e]) == Written(e)
  {
    var w := Written(e);
    assert AllWritten([e]) == w + AllWritten([e][1..]);
    assert w + map[] == w;
  }

  lemma {:induction false} WithWrites(before: seq<Event>, e: Event, after: seq<Event>)
    ensures AllWritten(With(before, e, after)) == AllWritten(before) + (Written(e) + AllWritten(after))
  {
    AllWrittenSplit(before + [e], after);
    AllWrittenSplit(before, [e]);
    WritesOnce(e);
    MergeAssociates(AllWritten(before), Written(e), AllWritten(after));
  }

  lemma {:induction false} SkippedIff(before: seq<Event>, e: Event, after: seq<Event>)
    ensures Replay(map[], map[], before + after) == Replay(map[], map[], With(before, e, after))
       <==> Overwritten(before, e, after)
  {
    FromNothing(before + after);
    FromNothing(With(before, e, after));
    AllWrittenSplit(before, after);
    WithWrites(before, e, after);
    NothingNewIff(AllWritten(before), Written(e), AllWritten(after));
  }

  lemma {:induction false} UpToWith(before: seq<Event>, e: Event, after: seq<Event>, version: nat)
    requires Increasing(With(before, e, after))
    ensures UpTo(With(before, e, after), version)
         == UpTo(before + after, version) + if e.version <= version then 1 else 0
    ensures if e.version <= version then |before| <= UpTo(before + after, version)
            else UpTo(before + after, version) <= |before|
  {
    var log := With(before, e, after);
    UpToSplit(before + [e], after, version);
    UpToSplit(before, [e], version);
    UpToSplit(before, after, version);
    assert UpTo([e], version) == (if e.version <= version then 1 else 0) + UpTo([e][1..], version);
    assert log[|before|] == e;
    TailAfter(log, version);
  }

  lemma {:induction false} LaterThanLabel(before: seq<Event>, e: Event, after: seq<Event>, c: nat, m: nat)
    requires c <= |before| && c <= m <= |before + after|
    ensures Replay(map[], Replay(map[], map[], (before + after)[..m]), With(before, e, after)[c..])
         == Replay(map[], map[], With(before, e, after))
  {
    var log, full := before + after, With(before, e, after);
    var some, all := log[c..m], full[c..];
    assert log[..m] == before[..c] + some && full == before[..c] + all;
    forall x | x in some ensures x in all {
      var i :| 0 <= i < |some| && some[i] == x;
      assert x == all[if c + i < |before| then i else i + 1];
    }
    AbsorbedSome(before[..c], some, all);
  }

  lemma {:induction false} ResumedIff(before: seq<Event>, e: Event, after: seq<Event>, s: Snapshot, c: nat, m: nat)
    requires Increasing(With(before, e, after)) && c == UpTo(before + after, s.version)
    requires c <= m <= |before + after| && s.state == Replay(map[], map[], (before + after)[..m])
    ensures var full := With(before, e, after);
            Replay(map[], s.state, full[UpTo(full, s.version)..]) == Replay(map[], map[], full)
            <==> e.version > s.version || Overwritten(before, e, after)
  {
    UpToWith(before, e, after, s.version);
    if e.version > s.version {
      LaterThanLabel(before, e, after, c, m);
    } else {
      assert With(before, e, after)[c + 1..] == (before + after)[c..];
      AbsorbedTwice(before + after, c, m);
      SkippedIff(before, e, after);
    }
  }

  /**
   * An event of any version, committed after a snapshot was taken and possibly after events of later
   * versions: reconstructing from the snapshot still gives the full replay exactly when the event's version
   * is above the snapshot's label, or what the event writes is written over later or was there already.
   */
  lemma {:induction false} LateEventIff(key: Key, before: seq<Event>, e: Event, after: seq<Event>, s: Snapshot)
    requires Increasing(With(before, e, after)) && Absorbed(before + after, s.version, s.state)
    ensures var log := Inserted(before + after, e);
            Reconstructed(map[], key, log, Some(s)) == Reconstructed(map[], key, log, None)
            <==> e.version > s.version || Overwritten(before, e, after)
  {
    var log, full := before + after, With(before, e, after);
    var c := UpTo(log, s.version);
    var m :| c <= m <= |log| && s.state == Replay(map[], map[], log[..m]);
    InsertedAmong(before, e, after);
    FullReplay(key, full);
    TailReplay(key, full, s, UpTo(full, s.version));
    ResumedIff(before, e, after, s, c, m);
  }

  // An event of version 1 that comes after a snapshot labelled 2 is lost to every reconstruction from it.
  lemma {:induction false} LateEventLost(key: Key, first: Event, second: Event)
    requires first.version == 1 && second == Event("", 2, "", map[]) && "title" in first.payload
    ensures var log, s := Inserted([second], first), Snapshot(2, Replay(map[], map[], [second]));
            Reconstructed(map[], key, log, Some(s)) != Reconstructed(map[], key, log, None)
  {
    var s := Snapshot(2, Replay(map[], map[], [second]));
    assert [] + [second] == [second] && [second][..1] == [second];
    assert UpTo([second], 2) == 1 + UpTo([second][1..], 2);
    assert Absorbed([second], 2, s.state);
    assert "title" in Written(first) && "title" !in Written(second);
    assert AllWritten([second]) == Written(second) + AllWritten([second][1..]);
    LateEventIff(key, [], first, [second], s);
  }
}

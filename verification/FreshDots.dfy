/** The dots of a value's clock stay below its size and its version, so updates never reuse one
    (src/storage/crdt.go). */
module FreshDots {
  import opened Integers
  import opened ByteStrings
  import opened DottedVectors
  import opened CRDTValues
  import opened CRDTDocuments
  import opened Convergence

  /** Sequence numbers do not exceed the size of the map, and stamps do not exceed `version`.  The number 0
      comes up only when 32 bits are used up. */
  predicate Bounded(c: Causality, version: nat) {
    forall e <- c :: e.seqNum <= |c| && c[e] <= version && (e.seqNum == 0 ==> |c| >= TWO32)
  }

  predicate DotsBounded(v: Value) {
    Bounded(v.clock.causality, v.version)
  }

  lemma KeysGrow(a: Causality, b: Causality)
    requires a.Keys <= b.Keys
    ensures |a| <= |b|
  {
    var rest := b.Keys - a.Keys;
    assert b.Keys == a.Keys + rest;
    assert |a.Keys| + |rest| == |b.Keys|;
  }

  /** Adding an event with a sequence number at most one above the size. */
  lemma AddedStaysBounded(c: Causality, version: nat, event: EventID)
    requires Bounded(c, version) && event.seqNum <= |c| + 1 && (event.seqNum == 0 ==> |c| + 1 >= TWO32)
    ensures Bounded(c[event := version + 1], version + 1)
    ensures event !in c ==> |c[event := version + 1]| == |c| + 1
  {
    var grown := c[event := version + 1];
    KeysGrow(c, grown);
    if event !in c {
      assert grown.Keys == c.Keys + {event};
    }
  }

  lemma JoinedStaysBounded(a: Causality, b: Causality, version: nat, other: nat)
    requires Bounded(a, version) && Bounded(b, other) && other <= version
    ensures Bounded(Join(a, b), version)
  {
    var j := Join(a, b);
    KeysGrow(a, j);
    KeysGrow(b, j);
    forall e | e in j
      ensures e.seqNum <= |j| && j[e] <= version && (e.seqNum == 0 ==> |j| >= TWO32)
    {
      assert e in a || e in b;
    }
  }

  lemma NewValueBounded(data: Bytes, source: Bytes, now: Time)
    ensures DotsBounded(NewValue(data, source, now))
  {
    AddedStaysBounded(map[], 0, EventID(source, 1));
  }

  /** The sequence number of the next event. */
  lemma NextSeqNum(v: Value, source: Bytes)
    ensures var n, event := |v.clock.causality|, NextEvent(v, source);
            && event.seqNum <= n + 1 && (event.seqNum == 0 ==> n + 1 >= TWO32)
            && (n + 1 < TWO32 ==> event == EventID(source, n + 1))
            && (n + 1 == TWO32 ==> event == EventID(source, 0))
            && (n == TWO32 ==> event == EventID(source, 1))
  {
  }

  lemma UpdateKeepsBounded(v: Value, data: Bytes, source: Bytes, now: Time)
    requires DotsBounded(v)
    ensures DotsBounded(UpdateValue(v, data, source, now))
  {
    NextSeqNum(v, source);
    AddedStaysBounded(v.clock.causality, v.version, NextEvent(v, source));
  }

  /** Where a merge can get its clock from. */
  lemma MergedClock(a: Value, b: Value, sha: Hash)
    ensures var m := MergeValue(a, b, sha).0;
            || (m.version == b.version && m.clock == b.clock)
            || (m.version == a.version && m.clock == a.clock)
            || (b.version <= a.version && m.version == a.version
                && m.clock.causality == Join(a.clock.causality, b.clock.causality))
  {
  }

  lemma {:induction false} MergeKeepsBounded(a: Value, b: Value, sha: Hash)
    requires DotsBounded(a) && DotsBounded(b)
    ensures DotsBounded(MergeValue(a, b, sha).0)
  {
    MergedClock(a, b, sha);
    if b.version <= a.version {
      JoinedStaysBounded(a.clock.causality, b.clock.causality, a.version, b.version);
    }
  }

  /** An update of a value with bounded dots uses a new dot and grows the clock by exactly one, as
      long as the clock holds fewer than 2^32 events. */
  lemma {:induction false} UpdateAddsOneEvent(v: Value, data: Bytes, source: Bytes, now: Time)
    requires DotsBounded(v) && |v.clock.causality| < TWO32
    ensures NextEvent(v, source) !in v.clock.causality
    ensures |UpdateValue(v, data, source, now).clock.causality| == |v.clock.causality| + 1
  {
    var event := NextEvent(v, source);
    NextSeqNum(v, source);
    AddedStaysBounded(v.clock.causality, v.version, event);
  }

  /** The version is the greatest stamp of the clock, and only the first version is a creation. */
  ghost predicate Marked(v: Value) {
    && v.version >= 1 && v.operation == (if v.version == 1 then Create else Operation.Update)
    && exists e <- v.clock.causality :: v.clock.causality[e] == v.version
  }

  lemma NewValueMarked(data: Bytes, source: Bytes, now: Time)
    ensures Marked(NewValue(data, source, now))
  {
    assert NewValue(data, source, now).clock.causality[EventID(source, 1)] == 1;
  }

  lemma UpdateKeepsMarked(v: Value, data: Bytes, source: Bytes, now: Time)
    requires Marked(v)
    ensures Marked(UpdateValue(v, data, source, now))
  {
    var u := UpdateValue(v, data, source, now);
    assert u.clock.causality[NextEvent(v, source)] == u.version;
  }

  lemma MergeKeepsMarked(a: Value, b: Value, sha: Hash)
    requires Marked(a) && Marked(b) && DotsBounded(b)
    ensures Marked(MergeValue(a, b, sha).0)
  {
    if b.version <= a.version {
      var m := MergeValue(a, b, sha).0;
      var e :| e in a.clock.causality && a.clock.causality[e] == a.version;
      JoinAt(a.clock.causality, b.clock.causality, e);
      assert m.clock.causality[e] == m.version;
    }
  }

  ghost predicate EntryBounded(e: Entry) {
    && DotsBounded(e.doc.value) && (!e.doc.deleted ==> Marked(e.doc.value))
    && forall v <- e.doc.history :: DotsBounded(v) && Marked(v)
  }

  lemma EditKeepsBounded(e: Entry, data: Bytes, source: Bytes, now: Time, later: Time)
    requires EntryBounded(e)
    ensures EntryBounded(EditEntry(e, data, source, now, later))
  {
    UpdateKeepsBounded(e.doc.value, data, source, now);
    if !e.doc.deleted {
      UpdateKeepsMarked(e.doc.value, data, source, now);
    }
  }

  lemma RemoveKeepsBounded(e: Entry, source: Bytes, later: Time)
    requires EntryBounded(e)
    ensures EntryBounded(RemoveEntry(e, source, later))
  {
  }

  lemma MergeEntryKeepsBounded(e: Entry, external: Entry, sha: Hash)
    requires EntryBounded(e) && EntryBounded(external)
    ensures EntryBounded(MergeEntry(e, external, sha))
  {
    MergeKeepsBounded(e.doc.value, external.doc.value, sha);
    if !e.doc.deleted && !external.doc.deleted {
      MergeKeepsMarked(e.doc.value, external.doc.value, sha);
    }
  }

  lemma FreshEntryBounded(id: Bytes, data: Bytes, source: Bytes, now: Time, createdAt: Time, updatedAt: Time)
    ensures EntryBounded(PutEntry(id, data, source, now, createdAt, updatedAt))
  {
    NewValueBounded(data, source, now);
    NewValueMarked(data, source, now);
  }

  ghost predicate ReplicaBounded(r: Replica) {
    forall id <- r :: EntryBounded(r[id])
  }

  ghost predicate AllBounded(s: System) {
    && (forall n <- s.replicas :: ReplicaBounded(s.replicas[n]))
    && (forall e <- s.network :: EntryBounded(e))
  }

  lemma FiledBounded(s: System, node: nat, id: Bytes, e: Entry)
    requires AllBounded(s) && EntryBounded(e)
    ensures AllBounded(s.(replicas := s.replicas[node := ReplicaOf(s, node)[id := e]]))
  {
    var r := ReplicaOf(s, node);
    assert ReplicaBounded(r);
    assert ReplicaBounded(r[id := e]);
  }

  lemma KnownBounded(s: System, node: nat, id: Bytes)
    requires AllBounded(s) && id in ReplicaOf(s, node)
    ensures EntryBounded(ReplicaOf(s, node)[id])
  {
    assert ReplicaBounded(ReplicaOf(s, node));
  }

  lemma PerformKeepsBounded(s: System, step: Step, sha: Hash)
    requires AllBounded(s)
    ensures AllBounded(Perform(s, step, sha))
  {
    var r := ReplicaOf(s, step.node);
    match step
    case Put(n, id, data, source, now, createdAt, updatedAt) =>
      FreshEntryBounded(id, data, source, now, createdAt, updatedAt);
      FiledBounded(s, n, id, PutEntry(id, data, source, now, createdAt, updatedAt));
    case Edit(n, id, data, source, now, later) =>
      if id in r {
        KnownBounded(s, n, id);
        EditKeepsBounded(r[id], data, source, now, later);
        FiledBounded(s, n, id, EditEntry(r[id], data, source, now, later));
      }
    case Remove(n, id, source, later) =>
      if id in r {
        KnownBounded(s, n, id);
        RemoveKeepsBounded(r[id], source, later);
        FiledBounded(s, n, id, RemoveEntry(r[id], source, later));
      }
    case Send(n, id) =>
      if id in r {
        KnownBounded(s, n, id);
      }
    case Deliver(n, snapshot) =>
      var id := snapshot.doc.id;
      if snapshot in s.network && id in r {
        KnownBounded(s, n, id);
        MergeEntryKeepsBounded(r[id], snapshot, sha);
        FiledBounded(s, n, id, MergeEntry(r[id], snapshot, sha));
      } else if snapshot in s.network {
        FiledBounded(s, n, id, snapshot);
      }
  }

  /** Every value of every reachable system, and every snapshot in its history, has bounded dots. */
  lemma {:induction false} RunKeepsBounded(s: System, steps: seq<Step>, sha: Hash)
    requires AllBounded(s)
    ensures AllBounded(Run(s, steps, sha))
    decreases |steps|
  {
    if steps != [] {
      PerformKeepsBounded(s, steps[0], sha);
      RunKeepsBounded(Perform(s, steps[0], sha), steps[1..], sha);
    }
  }

  /** In every run, a local edit of a live document adds exactly one event to its clock, as long as that holds
      fewer than 2^32 of them. */
  lemma {:induction false} EditsNeverReuseDots(steps: seq<Step>, node: nat, id: Bytes, data: Bytes, source: Bytes,
                                               now: Time, later: Time, sha: Hash)
    requires id in ReplicaOf(Run(INITIAL, steps, sha), node)
    requires var doc := ReplicaOf(Run(INITIAL, steps, sha), node)[id].doc;
             !doc.deleted && |doc.value.clock.causality| < TWO32
    ensures var doc := ReplicaOf(Run(INITIAL, steps, sha), node)[id].doc;
            var edited := UpdateDocument(doc, data, source, now, later);
            && NextEvent(doc.value, source) !in doc.value.clock.causality
            && |edited.value.clock.causality| == |doc.value.clock.causality| + 1
  {
    RunKeepsBounded(INITIAL, steps, sha);
    var r := ReplicaOf(Run(INITIAL, steps, sha), node);
    assert ReplicaBounded(r) && EntryBounded(r[id]);
    UpdateAddsOneEvent(r[id].doc.value, data, source, now);
  }

  /** In every run, the version of a live document is the greatest stamp of its clock, and the document says
      that it was created exactly at version 1 and that it was updated ever after. */
  lemma {:induction false} VersionIsGreatestStamp(steps: seq<Step>, node: nat, id: Bytes, sha: Hash)
    requires id in ReplicaOf(Run(INITIAL, steps, sha), node)
    requires !ReplicaOf(Run(INITIAL, steps, sha), node)[id].doc.deleted
    ensures var v := ReplicaOf(Run(INITIAL, steps, sha), node)[id].doc.value;
            && (forall e <- v.clock.causality :: v.clock.causality[e] <= v.version)
            && (exists e <- v.clock.causality :: v.clock.causality[e] == v.version)
            && (v.operation == Create <==> v.version == 1) && (v.operation == Operation.Update <==> v.version > 1)
  {
    RunKeepsBounded(INITIAL, steps, sha);
    var r := ReplicaOf(Run(INITIAL, steps, sha), node);
    assert ReplicaBounded(r) && EntryBounded(r[id]);
  }

  /** The value that one node makes of its own value by a series of updates. */
  function UpdateAll(v: Value, source: Bytes, updates: seq<(Bytes, Time)>): Value
    decreases |updates|
  {
    if updates == [] then v
    else UpdateAll(UpdateValue(v, updates[0].0, source, updates[0].1), source, updates[1..])
  }

  /** The events of a lone writer are numbered from 1 on; the last of 2^32 has the number 0. */
  ghost predicate Alone(c: Causality, source: Bytes) {
    && 0 < |c| <= TWO32
    && forall k: nat :: k < TWO32 ==>
         (EventID(source, k) in c <==> if k == 0 then |c| == TWO32 else k <= |c|)
  }

  lemma UpdateKeepsAlone(v: Value, data: Bytes, source: Bytes, now: Time)
    requires Alone(v.clock.causality, source)
    ensures var c, d := v.clock.causality, UpdateValue(v, data, source, now).clock.causality;
            && Alone(d, source)
            && |d| == (if |c| < TWO32 then |c| + 1 else TWO32)
            && (NextEvent(v, source) in c <==> |c| == TWO32)
  {
    NextSeqNum(v, source);
    AddEvent(v.clock.causality, NextEvent(v, source), v.version + 1, source);
  }

  lemma AddEvent(c: Causality, e: EventID, stamp: nat, source: Bytes)
    requires Alone(c, source)
    requires e == EventID(source, if |c| + 1 < TWO32 then |c| + 1 else if |c| + 1 == TWO32 then 0 else 1)
    ensures e in c <==> |c| == TWO32
    ensures var d := c[e := stamp]; Alone(d, source) && |d| == if e in c then |c| else |c| + 1
  {
    var d := c[e := stamp];
    assert d.Keys == c.Keys + {e};
    assert e in c <==> |c| == TWO32;
    assert |d| == if e in c then |c| else |c| + 1;
  }

  lemma {:induction false} UpdatesKeepAlone(v: Value, source: Bytes, updates: seq<(Bytes, Time)>)
    requires Alone(v.clock.causality, source)
    ensures var c, d := v.clock.causality, UpdateAll(v, source, updates).clock.causality;
            Alone(d, source) && |d| == if |c| + |updates| < TWO32 then |c| + |updates| else TWO32
    decreases |updates|
  {
    if updates != [] {
      var (data, now) := updates[0];
      UpdateKeepsAlone(v, data, source, now);
      UpdatesKeepAlone(UpdateValue(v, data, source, now), source, updates[1..]);
    }
  }

  /** That guard is sharp: a node that is alone with its value overwrites an event if and only if its
      clock holds 2^32 events, which takes as many updates less one. */
  lemma {:induction false} LoneWriterReusesExactlyWhen(data: Bytes, source: Bytes, now: Time,
                                                       updates: seq<(Bytes, Time)>)
    ensures var v := UpdateAll(NewValue(data, source, now), source, updates);
            && (NextEvent(v, source) in v.clock.causality <==> |v.clock.causality| >= TWO32)
            && (|v.clock.causality| >= TWO32 <==> |updates| + 1 >= TWO32)
  {
    var v := NewValue(data, source, now);
    assert v.clock.causality.Keys == {EventID(source, 1)};
    UpdatesKeepAlone(v, source, updates);
    UpdateKeepsAlone(UpdateAll(v, source, updates), [], source, 0);
  }
}

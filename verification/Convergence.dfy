/** Strong eventual consistency of the document stores, over every run of a network of replicas. */
module Convergence {
  import opened Wrappers
  import opened Integers
  import opened ByteStrings
  import opened CRDTValues
  import opened CRDTDocuments
  import opened CRDTStores

  /** What one update contributes to the visible state. */
  datatype Stamp = Stamp(version: nat, timestamp: Time, data: Bytes, source: Bytes)

  function StampOf(v: Value): Stamp {
    Stamp(v.version, v.timestamp, v.data, v.source)
  }

  /** The order in which values win: version, then timestamp, then digest. */
  predicate Before(a: Stamp, b: Stamp, sha: Hash) {
    || a.version < b.version
    || (a.version == b.version && a.timestamp < b.timestamp)
    || (a.version == b.version && a.timestamp == b.timestamp && Precedes(sha(a.data), sha(b.data)))
  }

  lemma BeforeTransitive(a: Stamp, b: Stamp, c: Stamp, sha: Hash)
    ensures Before(a, b, sha) && Before(b, c, sha) ==> Before(a, c, sha)
    ensures !Before(b, a, sha) && !Before(c, b, sha) ==> !Before(c, a, sha)
    ensures Before(a, b, sha) ==> !Before(b, a, sha)
  {
    var x, y, z := sha(a.data), sha(b.data), sha(c.data);
    if Precedes(x, y) && Precedes(y, z) { PrecedesTransitive(x, y, z); }
    if Precedes(z, x) {
      PrecedesTotal(x, y);
      if Precedes(x, y) { PrecedesTransitive(z, x, y); }
    }
    if Precedes(x, y) { PrecedesAsymmetric(x, y); }
  }

  /** `s` is one of the stamps of `S`, and none of them comes after it. */
  predicate Newest(s: Stamp, S: set<Stamp>, sha: Hash) {
    s in S && forall t <- S :: !Before(s, t, sha)
  }

  /** No two payloads among `S` have the same digest. */
  predicate CollisionFree(S: set<Stamp>, sha: Hash) {
    forall s <- S, t <- S :: sha(s.data) == sha(t.data) ==> s.data == t.data
  }

  lemma NewestUnique(s: Stamp, t: Stamp, S: set<Stamp>, sha: Hash)
    requires Newest(s, S, sha) && Newest(t, S, sha)
    ensures s.version == t.version && s.timestamp == t.timestamp && sha(s.data) == sha(t.data)
    ensures CollisionFree(S, sha) ==> s.data == t.data
  {
    PrecedesOrders(sha(s.data), sha(t.data));
  }

  /** Merging two values keeps the stamp that does not come before the other one. */
  lemma {:induction false} MergeKeepsNewest(a: Value, b: Value, A: set<Stamp>, B: set<Stamp>, sha: Hash)
    requires Newest(StampOf(a), A, sha) && Newest(StampOf(b), B, sha)
    ensures Newest(StampOf(MergeValue(a, b, sha).0), A + B, sha)
  {
    var x, y := StampOf(a), StampOf(b);
    var m := StampOf(MergeValue(a, b, sha).0);
    assert m == if Before(x, y, sha) then y else x;
    forall t | t in A + B
      ensures !Before(m, t, sha)
    {
      BeforeTransitive(x, y, t, sha);
      BeforeTransitive(t, x, y, sha);
      BeforeTransitive(t, y, x, sha);
    }
  }

  /** What a replica has learned about one document, directly or through others. */
  datatype Knowledge = Knowledge(updates: set<Stamp>, deleted: bool)

  function Learn(k: Knowledge, l: Knowledge): Knowledge {
    Knowledge(k.updates + l.updates, k.deleted || l.deleted)
  }

  /** A document together with the history of what went into it. */
  datatype Entry = Entry(doc: Document, known: Knowledge)

  /** The document shows exactly what is known: deleted if a deletion is known, and the newest
      known update otherwise. */
  predicate Shows(e: Entry, sha: Hash) {
    && e.doc.deleted == e.known.deleted
    && (!e.doc.deleted ==> Newest(StampOf(e.doc.value), e.known.updates, sha))
  }

  type Replica = map<Bytes, Entry>

  function Docs(r: Replica): Documents {
    map id | id in r :: r[id].doc
  }

  /** Replicas by node number, and every snapshot ever sent.  Nothing leaves `network`: a snapshot
      may arrive late, out of order, many times or never. */
  datatype System = System(replicas: map<nat, Replica>, network: set<Entry>)

  function ReplicaOf(s: System, node: nat): Replica {
    if node in s.replicas then s.replicas[node] else map[]
  }

  datatype Step =
    | Put(node: nat, id: Bytes, data: Bytes, source: Bytes, now: Time, createdAt: Time, updatedAt: Time)
    | Edit(node: nat, id: Bytes, data: Bytes, source: Bytes, now: Time, later: Time)
    | Remove(node: nat, id: Bytes, source: Bytes, later: Time)
    | Send(node: nat, id: Bytes)
    | Deliver(node: nat, snapshot: Entry)

  /** `Put` overwrites, so the replica starts over with the new document.  What it learns is said by the step. */
  function PutEntry(id: Bytes, data: Bytes, source: Bytes, now: Time, createdAt: Time, updatedAt: Time): Entry {
    Entry(NewDocument(id, data, source, now, createdAt, updatedAt), Knowledge({Stamp(1, now, data, source)}, false))
  }

  /** An edit of a live document teaches the replica the step's data, source and time, one version on. */
  function EditEntry(e: Entry, data: Bytes, source: Bytes, now: Time, later: Time): Entry {
    var doc := UpdateDocument(e.doc, data, source, now, later);
    Entry(doc, if e.known.deleted then e.known
               else e.known.(updates := e.known.updates + {Stamp(e.doc.value.version + 1, now, data, source)}))
  }

  function RemoveEntry(e: Entry, source: Bytes, later: Time): Entry {
    if e.doc.deleted then e
    else Entry(DeleteDocument(e.doc, source, later), e.known.(deleted := true))
  }

  function MergeEntry(e: Entry, external: Entry, sha: Hash): Entry {
    Entry(MergeDocuments(e.doc, external.doc, sha).0, Learn(e.known, external.known))
  }

  function Receive(r: Replica, external: Entry, sha: Hash): Replica {
    var id := external.doc.id;
    r[id := if id in r then MergeEntry(r[id], external, sha) else external]
  }

  function Perform(s: System, step: Step, sha: Hash): System {
    var r := ReplicaOf(s, step.node);
    match step
    case Put(n, id, data, source, now, createdAt, updatedAt) =>
      s.(replicas := s.replicas[n := r[id := PutEntry(id, data, source, now, createdAt, updatedAt)]])
    case Edit(n, id, data, source, now, later) =>
      if id !in r then s
      else s.(replicas := s.replicas[n := r[id := EditEntry(r[id], data, source, now, later)]])
    case Remove(n, id, source, later) =>
      if id !in r then s
      else s.(replicas := s.replicas[n := r[id := RemoveEntry(r[id], source, later)]])
    case Send(n, id) =>
      if id !in r then s else s.(network := s.network + {r[id]})
    case Deliver(n, snapshot) =>
      if snapshot !in s.network then s
      else s.(replicas := s.replicas[n := Receive(r, snapshot, sha)])
  }

  function Run(s: System, steps: seq<Step>, sha: Hash): System
    decreases |steps|
  {
    if steps == [] then s else Run(Perform(s, steps[0], sha), steps[1..], sha)
  }

  const INITIAL := System(map[], {})

  /** On the documents alone, a step does to its replica what the store's methods do. */
  lemma {:induction false} StepsAreStoreOperations(s: System, step: Step, sha: Hash)
    requires step.Deliver? ==> step.snapshot in s.network
    ensures var before, after := Docs(ReplicaOf(s, step.node)), Docs(ReplicaOf(Perform(s, step, sha), step.node));
            match step
            case Put(_, id, data, source, now, createdAt, updatedAt) =>
              after == PutInto(before, NewDocument(id, data, source, now, createdAt, updatedAt))
            case Edit(_, id, data, source, now, later) =>
              after == EditIn(before, id, data, source, now, later)
            case Remove(_, id, source, later) =>
              after == DeleteFrom(before, id, source, later).0
            case Send(_, _) => after == before
            case Deliver(_, snapshot) =>
              after == MergeInto(before, snapshot.doc, sha).0
  {
    var r, q := ReplicaOf(s, step.node), ReplicaOf(Perform(s, step, sha), step.node);
    assert Docs(q).Keys == q.Keys && Docs(r).Keys == r.Keys;
  }

  ghost predicate AllShow(r: Replica, sha: Hash) {
    forall id <- r :: r[id].doc.id == id && Shows(r[id], sha)
  }

  ghost predicate Invariant(s: System, sha: Hash) {
    && (forall n <- s.replicas :: AllShow(s.replicas[n], sha))
    && (forall e <- s.network :: Shows(e, sha))
  }

  lemma MergeEntryShows(e: Entry, external: Entry, sha: Hash)
    requires Shows(e, sha) && Shows(external, sha)
    ensures Shows(MergeEntry(e, external, sha), sha)
  {
    if !e.doc.deleted && !external.doc.deleted {
      MergeKeepsNewest(e.doc.value, external.doc.value, e.known.updates, external.known.updates, sha);
    }
  }

  lemma EditEntryShows(e: Entry, data: Bytes, source: Bytes, now: Time, later: Time, sha: Hash)
    requires Shows(e, sha)
    ensures Shows(EditEntry(e, data, source, now, later), sha)
  {
    if !e.doc.deleted {
      var latest := StampOf(EditEntry(e, data, source, now, later).doc.value);
      forall t | t in e.known.updates
        ensures !Before(latest, t, sha)
      {
        assert !Before(StampOf(e.doc.value), t, sha);
      }
      assert !Before(latest, latest, sha) by { BeforeTransitive(latest, latest, latest, sha); }
    }
  }

  lemma PerformKeepsInvariant(s: System, step: Step, sha: Hash)
    requires Invariant(s, sha)
    ensures Invariant(Perform(s, step, sha), sha)
  {
    var r := ReplicaOf(s, step.node);
    assert AllShow(r, sha);
    match step
    case Put(n, id, data, source, now, createdAt, updatedAt) =>
      var e := PutEntry(id, data, source, now, createdAt, updatedAt);
      BeforeTransitive(StampOf(e.doc.value), StampOf(e.doc.value), StampOf(e.doc.value), sha);
      assert AllShow(r[id := e], sha);
    case Edit(n, id, data, source, now, later) =>
      if id in r {
        EditEntryShows(r[id], data, source, now, later, sha);
        assert AllShow(r[id := EditEntry(r[id], data, source, now, later)], sha);
      }
    case Remove(n, id, source, later) =>
      if id in r {
        assert AllShow(r[id := RemoveEntry(r[id], source, later)], sha);
      }
    case Send(n, id) =>
    case Deliver(n, snapshot) =>
      if snapshot in s.network {
        var id := snapshot.doc.id;
        if id in r {
          MergeEntryShows(r[id], snapshot, sha);
        }
        assert AllShow(Receive(r, snapshot, sha), sha);
      }
  }

  /** In every run, every replica and every snapshot shows exactly what it has learned. */
  lemma {:induction false} RunKeepsInvariant(s: System, steps: seq<Step>, sha: Hash)
    requires Invariant(s, sha)
    ensures Invariant(Run(s, steps, sha), sha)
    decreases |steps|
  {
    if steps != [] {
      PerformKeepsInvariant(s, steps[0], sha);
      RunKeepsInvariant(Perform(s, steps[0], sha), steps[1..], sha);
    }
  }

  /** Safety over whole runs: nothing but learned updates and deletions is ever visible. */
  lemma {:induction false} VisibleStateIsNewestLearned(steps: seq<Step>, node: nat, id: Bytes, sha: Hash)
    ensures var r := ReplicaOf(Run(INITIAL, steps, sha), node);
            id in r ==>
              && r[id].doc.id == id
              && (VisibleData(r[id].doc) == None <==> r[id].known.deleted)
              && (!r[id].known.deleted ==>
                    exists t :: Newest(t, r[id].known.updates, sha) && VisibleData(r[id].doc) == Some(t.data)
                                && t.version == r[id].doc.value.version && t.timestamp == r[id].doc.value.timestamp
                                && t.source == r[id].doc.value.source)
  {
    RunKeepsInvariant(INITIAL, steps, sha);
    var r := ReplicaOf(Run(INITIAL, steps, sha), node);
    assert AllShow(r, sha);
    if id in r && !r[id].known.deleted {
      assert Newest(StampOf(r[id].doc.value), r[id].known.updates, sha);
    }
  }

  /** Both replicas hold the same documents and have learned the same about each of them. */
  ghost predicate SameKnowledge(r: Replica, q: Replica) {
    r.Keys == q.Keys && forall id <- r :: r[id].known == q[id].known
  }

  ghost predicate NoCollisions(r: Replica, sha: Hash) {
    forall id <- r :: CollisionFree(r[id].known.updates, sha)
  }

  /** What a client of two replicas can observe is the same. */
  ghost predicate SameView(r: Replica, q: Replica) {
    && (forall id <- r.Keys + q.Keys :: id in r && id in q && VisibleData(r[id].doc) == VisibleData(q[id].doc))
    && (forall ids, others :: Lists(ids, Docs(r)) && Lists(others, Docs(q)) ==> ids == others)
  }

  /** Strong eventual consistency: replicas that learned the same show the same, whatever the order
      and number of the messages that taught them. */
  lemma SameKnowledgeSameView(r: Replica, q: Replica, sha: Hash)
    requires AllShow(r, sha) && AllShow(q, sha)
    requires SameKnowledge(r, q) && NoCollisions(r, sha)
    ensures SameView(r, q)
  {
    forall id | id in r.Keys + q.Keys
      ensures id in r && id in q && VisibleData(r[id].doc) == VisibleData(q[id].doc)
    {
      if !r[id].known.deleted {
        NewestUnique(StampOf(r[id].doc.value), StampOf(q[id].doc.value), r[id].known.updates, sha);
      }
    }
    forall ids, others | Lists(ids, Docs(r)) && Lists(others, Docs(q))
      ensures ids == others
    {
      assert LiveIDs(Docs(r)) == LiveIDs(Docs(q));
      AscendingUnique(ids, others);
    }
  }

  lemma {:induction false} StrongEventualConsistency(steps: seq<Step>, n: nat, m: nat, sha: Hash)
    requires var s := Run(INITIAL, steps, sha);
             SameKnowledge(ReplicaOf(s, n), ReplicaOf(s, m)) && NoCollisions(ReplicaOf(s, n), sha)
    ensures var s := Run(INITIAL, steps, sha);
            SameView(ReplicaOf(s, n), ReplicaOf(s, m))
  {
    RunKeepsInvariant(INITIAL, steps, sha);
    var s := Run(INITIAL, steps, sha);
    SameKnowledgeSameView(ReplicaOf(s, n), ReplicaOf(s, m), sha);
  }

  /** A learned deletion is never undone, unless the replica itself overwrites the document. */
  lemma {:induction false} DeletedForGood(s: System, steps: seq<Step>, node: nat, id: Bytes, sha: Hash)
    requires Invariant(s, sha)
    requires id in ReplicaOf(s, node) && ReplicaOf(s, node)[id].known.deleted
    requires forall step <- steps :: !(step.Put? && step.node == node && step.id == id)
    ensures var r := ReplicaOf(Run(s, steps, sha), node);
            id in r && r[id].known.deleted && VisibleData(r[id].doc) == None && id !in LiveIDs(Docs(r))
    decreases |steps|
  {
    if steps == [] {
      assert AllShow(ReplicaOf(s, node), sha);
    } else {
      PerformKeepsInvariant(s, steps[0], sha);
      assert steps[0] in steps;
      DeletedForGood(Perform(s, steps[0], sha), steps[1..], node, id, sha);
    }
  }

  /** A replica that receives snapshots one after the other. */
  function ReceiveAll(r: Replica, snapshots: seq<Entry>, sha: Hash): Replica
    decreases |snapshots|
  {
    if snapshots == [] then r else ReceiveAll(Receive(r, snapshots[0], sha), snapshots[1..], sha)
  }

  ghost predicate Heard(r: Replica, snapshots: set<Entry>, id: Bytes) {
    id in r || exists e :: e in snapshots && e.doc.id == id
  }

  ghost predicate HeardUpdate(r: Replica, snapshots: set<Entry>, id: Bytes, u: Stamp) {
    (id in r && u in r[id].known.updates) || exists e :: e in snapshots && e.doc.id == id && u in e.known.updates
  }

  ghost predicate HeardDeletion(r: Replica, snapshots: set<Entry>, id: Bytes) {
    (id in r && r[id].known.deleted) || exists e :: e in snapshots && e.doc.id == id && e.known.deleted
  }

  /** `q` knows exactly what `r` knew or one of the snapshots said. */
  ghost predicate Accumulates(r: Replica, snapshots: set<Entry>, q: Replica) {
    && (forall id :: id in q <==> Heard(r, snapshots, id))
    && (forall id, u :: id in q ==> (u in q[id].known.updates <==> HeardUpdate(r, snapshots, id, u)))
    && (forall id :: id in q ==> (q[id].known.deleted <==> HeardDeletion(r, snapshots, id)))
  }

  lemma HeardAfterReceiving(r: Replica, first: Entry, rest: set<Entry>, id: Bytes, u: Stamp, sha: Hash)
    ensures Heard(Receive(r, first, sha), rest, id) <==> Heard(r, {first} + rest, id)
    ensures HeardUpdate(Receive(r, first, sha), rest, id, u) <==> HeardUpdate(r, {first} + rest, id, u)
    ensures HeardDeletion(Receive(r, first, sha), rest, id) <==> HeardDeletion(r, {first} + rest, id)
  {
    var q, all := Receive(r, first, sha), {first} + rest;
    assert first in all;
    if first.doc.id == id {
      assert q[id].known == if id in r then Learn(r[id].known, first.known) else first.known;
    } else {
      assert id in q <==> id in r;
    }
  }

  lemma AccumulatesOneMore(r: Replica, first: Entry, rest: set<Entry>, q: Replica, sha: Hash)
    requires Accumulates(Receive(r, first, sha), rest, q)
    ensures Accumulates(r, {first} + rest, q)
  {
    var none := Stamp(0, 0, [], []);
    forall id
      ensures id in q <==> Heard(r, {first} + rest, id)
      ensures id in q ==> (q[id].known.deleted <==> HeardDeletion(r, {first} + rest, id))
    {
      HeardAfterReceiving(r, first, rest, id, none, sha);
    }
    forall id, u | id in q
      ensures u in q[id].known.updates <==> HeardUpdate(r, {first} + rest, id, u)
    {
      HeardAfterReceiving(r, first, rest, id, u, sha);
    }
  }

  lemma {:induction false} DeliveriesAccumulate(r: Replica, snapshots: seq<Entry>, sha: Hash)
    ensures Accumulates(r, (set e <- snapshots), ReceiveAll(r, snapshots, sha))
    decreases |snapshots|
  {
    if snapshots != [] {
      var first, later := snapshots[0], snapshots[1..];
      var rest := set e <- later;
      DeliveriesAccumulate(Receive(r, first, sha), later, sha);
      AccumulatesOneMore(r, first, rest, ReceiveAll(r, snapshots, sha), sha);
      assert (set e <- snapshots) == {first} + rest by {
        assert snapshots == [first] + later;
      }
    }
  }

  lemma {:induction false} ReceiveAllShows(r: Replica, snapshots: seq<Entry>, sha: Hash)
    requires AllShow(r, sha) && forall e <- snapshots :: Shows(e, sha)
    ensures AllShow(ReceiveAll(r, snapshots, sha), sha)
    decreases |snapshots|
  {
    if snapshots != [] {
      var e := snapshots[0];
      assert e in snapshots;
      if e.doc.id in r {
        MergeEntryShows(r[e.doc.id], e, sha);
      }
      assert AllShow(Receive(r, e, sha), sha);
      ReceiveAllShows(Receive(r, e, sha), snapshots[1..], sha);
    }
  }

  lemma AccumulatedAlike(r: Replica, q: Replica, all: set<Entry>, r': Replica, q': Replica)
    requires Accumulates(r, all, r') && Accumulates(q, all, q')
    requires forall id <- r :: r[id] in all && r[id].doc.id == id
    requires forall id <- q :: q[id] in all && q[id].doc.id == id
    ensures SameKnowledge(r', q')
  {
    forall id
      ensures Heard(r, all, id) <==> Heard(q, all, id)
      ensures HeardDeletion(r, all, id) <==> HeardDeletion(q, all, id)
    {
    }
    assert forall id :: id in r' <==> id in q';
    forall id | id in r'
      ensures r'[id].known == q'[id].known
    {
      forall u
        ensures u in r'[id].known.updates <==> u in q'[id].known.updates
      {
        assert HeardUpdate(r, all, id, u) <==> HeardUpdate(q, all, id, u);
      }
      assert r'[id].known.updates == q'[id].known.updates;
    }
  }

  /** After a full exchange the replicas agree: whatever the order and the repetitions in which two
      replicas receive the same snapshots, theirs among them, they end with the same view. */
  lemma {:induction false} FullExchangeConverges(r: Replica, q: Replica, toR: seq<Entry>, toQ: seq<Entry>, sha: Hash)
    requires AllShow(r, sha) && AllShow(q, sha) && forall e <- toR :: Shows(e, sha)
    requires forall e :: e in toR <==> e in toQ
    requires (forall id <- r :: r[id] in toR) && (forall id <- q :: q[id] in toR)
    requires NoCollisions(ReceiveAll(r, toR, sha), sha)
    ensures SameKnowledge(ReceiveAll(r, toR, sha), ReceiveAll(q, toQ, sha))
    ensures SameView(ReceiveAll(r, toR, sha), ReceiveAll(q, toQ, sha))
  {
    var r', q' := ReceiveAll(r, toR, sha), ReceiveAll(q, toQ, sha);
    var all := set e <- toR;
    assert all == set e <- toQ;
    DeliveriesAccumulate(r, toR, sha);
    DeliveriesAccumulate(q, toQ, sha);
    AccumulatedAlike(r, q, all, r', q');
    ReceiveAllShows(r, toR, sha);
    ReceiveAllShows(q, toQ, sha);
    SameKnowledgeSameView(r', q', sha);
  }

  lemma {:induction false} RunContinues(s: System, steps: seq<Step>, more: seq<Step>, sha: Hash)
    ensures Run(s, steps + more, sha) == Run(Run(s, steps, sha), more, sha)
    decreases |steps|
  {
    if steps == [] {
      assert steps + more == more;
    } else {
      assert (steps + more)[1..] == steps[1..] + more;
      RunContinues(Perform(s, steps[0], sha), steps[1..], more, sha);
    }
  }

  /** The snapshots that a node receives during some steps, in order: those delivered to it that had been
      sent by then, perhaps during these very steps. */
  function Received(s: System, steps: seq<Step>, node: nat, sha: Hash): seq<Entry>
    decreases |steps|
  {
    if steps == [] then []
    else
      var later := Received(Perform(s, steps[0], sha), steps[1..], node, sha);
      if steps[0].Deliver? && steps[0].node == node && steps[0].snapshot in s.network then [steps[0].snapshot] + later
      else later
  }

  /** At `node` the step only sends or delivers; elsewhere it does anything. */
  predicate OnlyExchanges(step: Step, node: nat) {
    step.node == node ==> step.Send? || step.Deliver?
  }

  /** A node that only exchanges snapshots ends as if it had received them one after the other. */
  lemma {:induction false} DeliveriesAreReceived(s: System, steps: seq<Step>, node: nat, sha: Hash)
    requires forall step <- steps :: OnlyExchanges(step, node)
    ensures ReplicaOf(Run(s, steps, sha), node) == ReceiveAll(ReplicaOf(s, node), Received(s, steps, node, sha), sha)
    decreases |steps|
  {
    if steps != [] {
      var next, step := Perform(s, steps[0], sha), steps[0];
      assert step in steps && OnlyExchanges(step, node);
      DeliveriesAreReceived(next, steps[1..], node, sha);
      var received, later := Received(s, steps, node, sha), Received(next, steps[1..], node, sha);
      if step.Deliver? && step.node == node && step.snapshot in s.network {
        assert received == [step.snapshot] + later && received[1..] == later;
        assert ReplicaOf(next, node) == Receive(ReplicaOf(s, node), step.snapshot, sha);
      } else {
        assert received == later && ReplicaOf(next, node) == ReplicaOf(s, node);
      }
    }
  }

  lemma {:induction false} ReceivedShows(s: System, steps: seq<Step>, node: nat, sha: Hash)
    requires Invariant(s, sha)
    ensures forall e <- Received(s, steps, node, sha) :: Shows(e, sha)
    decreases |steps|
  {
    if steps != [] {
      PerformKeepsInvariant(s, steps[0], sha);
      ReceivedShows(Perform(s, steps[0], sha), steps[1..], node, sha);
    }
  }

  /** The same within a run: from any reachable system, steps by which two nodes receive the same snapshots,
      theirs among them, in any order, number and interleaving, and while other nodes go on with their
      work, make the two nodes agree. */
  lemma {:induction false} ExchangeInRunConverges(steps: seq<Step>, exchange: seq<Step>, n: nat, m: nat, sha: Hash)
    requires forall step <- exchange :: OnlyExchanges(step, n) && OnlyExchanges(step, m)
    requires var s := Run(INITIAL, steps, sha);
             && (forall id <- ReplicaOf(s, n) :: ReplicaOf(s, n)[id] in Received(s, exchange, n, sha))
             && (forall id <- ReplicaOf(s, m) :: ReplicaOf(s, m)[id] in Received(s, exchange, n, sha))
             && (forall e :: e in Received(s, exchange, n, sha) <==> e in Received(s, exchange, m, sha))
    requires NoCollisions(ReplicaOf(Run(INITIAL, steps + exchange, sha), n), sha)
    ensures var t := Run(INITIAL, steps + exchange, sha);
            SameKnowledge(ReplicaOf(t, n), ReplicaOf(t, m)) && SameView(ReplicaOf(t, n), ReplicaOf(t, m))
  {
    var s := Run(INITIAL, steps, sha);
    RunKeepsInvariant(INITIAL, steps, sha);
    RunContinues(INITIAL, steps, exchange, sha);
    DeliveriesAreReceived(s, exchange, n, sha);
    DeliveriesAreReceived(s, exchange, m, sha);
    ReceivedShows(s, exchange, n, sha);
    FullExchangeConverges(ReplicaOf(s, n), ReplicaOf(s, m),
                          Received(s, exchange, n, sha), Received(s, exchange, m, sha), sha);
  }

  /** Receiving everything from one that has heard all that you know gives you its knowledge. */
  lemma PulledAlike(r: Replica, pushed: set<Entry>, r': Replica, q: Replica, pulled: set<Entry>, q': Replica)
    requires Accumulates(r, pushed, r') && Accumulates(q, pulled, q')
    requires forall id <- q :: q[id] in pushed && q[id].doc.id == id
    requires forall e :: e in pulled <==> exists id :: id in r' && r'[id] == e
    requires forall id <- r' :: r'[id].doc.id == id
    ensures SameKnowledge(r', q')
  {
    forall id
      ensures id in r' <==> id in q'
      ensures id in r' && id in q' ==> r'[id].known == q'[id].known
    {
      PulledAlikeAt(r, pushed, r', q, pulled, q', id);
    }
  }

  lemma PulledAlikeAt(r: Replica, pushed: set<Entry>, r': Replica, q: Replica, pulled: set<Entry>, q': Replica,
                      id: Bytes)
    requires Accumulates(r, pushed, r') && Accumulates(q, pulled, q')
    requires forall id <- q :: q[id] in pushed && q[id].doc.id == id
    requires forall e :: e in pulled <==> exists id :: id in r' && r'[id] == e
    requires forall id <- r' :: r'[id].doc.id == id
    ensures id in r' <==> id in q'
    ensures id in r' && id in q' ==> r'[id].known == q'[id].known
  {
    assert id in q ==> Heard(r, pushed, id);
    assert id in r' ==> r'[id] in pulled;
    if id in r' && id in q' {
      forall u
        ensures u in q'[id].known.updates <==> u in r'[id].known.updates
      {
        assert HeardUpdate(q, pulled, id, u) <==> (id in q && u in q[id].known.updates) || u in r'[id].known.updates;
        assert id in q && u in q[id].known.updates ==> HeardUpdate(r, pushed, id, u);
      }
      assert q'[id].known.updates == r'[id].known.updates;
      assert id in q && q[id].known.deleted ==> HeardDeletion(r, pushed, id);
      assert HeardDeletion(q, pulled, id) <==> (id in q && q[id].known.deleted) || r'[id].known.deleted;
    }
  }

  /** Push and pull: one node receives all that another one holds, with anything else besides, and merges it;
      then the other receives all that the first one now holds.  That makes the two agree, while other
      nodes go on with their work. */
  lemma {:induction false} PushPullConverges(steps: seq<Step>, push: seq<Step>, pull: seq<Step>, n: nat, m: nat,
                                             sha: Hash)
    requires forall step <- push + pull :: OnlyExchanges(step, n) && OnlyExchanges(step, m)
    requires var s := Run(INITIAL, steps, sha);
             var t := Run(s, push, sha);
             && (forall id <- ReplicaOf(s, m) :: ReplicaOf(s, m)[id] in Received(s, push, n, sha))
             && Received(s, push, m, sha) == [] && Received(t, pull, n, sha) == []
             && (forall e :: e in Received(t, pull, m, sha) <==>
                               exists id :: id in ReplicaOf(t, n) && ReplicaOf(t, n)[id] == e)
    ensures var u := Run(INITIAL, steps + push + pull, sha);
            && SameKnowledge(ReplicaOf(u, n), ReplicaOf(u, m))
            && (NoCollisions(ReplicaOf(u, n), sha) ==> SameView(ReplicaOf(u, n), ReplicaOf(u, m)))
  {
    var s := Run(INITIAL, steps, sha);
    var t := Run(s, push, sha);
    var u := Run(t, pull, sha);
    RunContinues(INITIAL, steps, push, sha);
    RunContinues(INITIAL, steps + push, pull, sha);
    RunKeepsInvariant(INITIAL, steps, sha);
    RunKeepsInvariant(s, push, sha);
    RunKeepsInvariant(t, pull, sha);
    forall step | step in push || step in pull
      ensures OnlyExchanges(step, n) && OnlyExchanges(step, m)
    {
      assert step in push + pull;
    }
    DeliveriesAreReceived(s, push, n, sha);
    DeliveriesAreReceived(s, push, m, sha);
    DeliveriesAreReceived(t, pull, n, sha);
    DeliveriesAreReceived(t, pull, m, sha);
    var pushed, pulled := Received(s, push, n, sha), Received(t, pull, m, sha);
    DeliveriesAccumulate(ReplicaOf(s, n), pushed, sha);
    DeliveriesAccumulate(ReplicaOf(s, m), pulled, sha);
    PulledAlike(ReplicaOf(s, n), (set e <- pushed), ReplicaOf(u, n),
                ReplicaOf(s, m), (set e <- pulled), ReplicaOf(u, m));
    if NoCollisions(ReplicaOf(u, n), sha) {
      SameKnowledgeSameView(ReplicaOf(u, n), ReplicaOf(u, m), sha);
    }
  }
}

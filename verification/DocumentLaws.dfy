/** What each operation on documents leaves behind, in terms of its arguments (src/storage/crdt.go). */
module DocumentLaws {
  import opened Wrappers
  import opened Integers
  import opened ByteStrings
  import opened DottedVectors
  import opened CRDTValues
  import opened CRDTDocuments
  import opened CRDTStores
  import MutualMerge

  /** An edit shows at once, under the name and time of its author, and one version on.  A deleted document does
      not change. */
  lemma {:induction false} EditIsVisible(d: Document, data: Bytes, source: Bytes, now: Time, later: Time)
    ensures var u := UpdateDocument(d, data, source, now, later);
            if d.deleted then u == d
            else
              && VisibleData(u) == Some(data) && u.value.source == source && u.value.timestamp == now
              && u.value.version == d.value.version + 1 && u.value.operation == Operation.Update && u.updatedAt == later
              && u.id == d.id && u.createdAt == d.createdAt
              && u.value.signature == d.value.signature && u.value.metadata == d.value.metadata
  {
  }

  /** It stamps one event of its author with the new version, and leaves the others as they were. */
  lemma {:induction false} EditStampsOneEvent(v: Value, data: Bytes, source: Bytes, now: Time, e: EventID)
    ensures var u, n := UpdateValue(v, data, source, now), |v.clock.causality| + 1;
            && At(u.clock.causality, e) ==
                 (if e.node == source && e.seqNum == n % TWO32 then v.version + 1 else At(v.clock.causality, e))
            && u.clock.version == v.clock.version + 1
  {
  }

  /** A new document is live, shows its data, and has one event. */
  lemma {:induction false} NewDocumentShows(id: Bytes, data: Bytes, source: Bytes, now: Time, createdAt: Time,
                                            updatedAt: Time)
    ensures var d := NewDocument(id, data, source, now, createdAt, updatedAt);
            && d.id == id && VisibleData(d) == Some(data) && d.history == []
            && d.createdAt == createdAt && d.updatedAt == updatedAt
            && d.value.version == 1 && d.value.timestamp == now && d.value.source == source
            && d.value.operation == Create && d.value.signature == None && d.value.metadata == map[]
            && (forall e :: At(d.value.clock.causality, e) == if e == EventID(source, 1) then 1 else At(map[], e))
            && d.value.clock.version == 1
  {
  }

  /** What a merge makes of the clock, event by event: a higher version brings its own clock, an overwriting
      value of the same version brings nothing, and otherwise the later stamp stays. */
  lemma {:induction false} MergedStamps(a: Value, b: Value, sha: Hash, e: EventID)
    ensures var m, x, y := MergeValue(a, b, sha).0.clock.causality, At(a.clock.causality, e), At(b.clock.causality, e);
            At(m, e) ==
              if b.version > a.version then y
              else if b.version == a.version && MutualMerge.Wins(b, a, sha) then x
              else Max(x, y)
  {
    JoinAt(a.clock.causality, b.clock.causality, e);
  }

  /** When a merge forgets events: its own ones if a higher version replaces them, and the other's if that wins at
      the same version, unless the surviving clock knew them all. */
  lemma {:induction false} MergeForgetsExactlyWhen(a: Value, b: Value, sha: Hash)
    ensures var m, x, y := MergeValue(a, b, sha).0.clock.causality, a.clock.causality, b.clock.causality;
            && (Covers(m, x) <==> b.version <= a.version || Covers(y, x))
            && (Covers(m, y) <==> !(b.version == a.version && MutualMerge.Wins(b, a, sha)) || Covers(x, y))
  {
    var x, y := a.clock.causality, b.clock.causality;
    JoinIsLeastUpperBound(x, y, x);
    JoinIsLeastUpperBound(x, x, x);
    JoinIsLeastUpperBound(y, y, y);
  }

  /** Whose particulars survive a merge.  The author goes with the data, the kind of operation with the version;
      the signature never moves, and annotations travel only with a higher version. */
  lemma {:induction false} MergeAttributes(a: Value, b: Value, sha: Hash)
    ensures var (m, changed) := MergeValue(a, b, sha);
            var higher, wins := b.version > a.version, b.version == a.version && MutualMerge.Wins(b, a, sha);
            && (if higher || wins then m.data == b.data && m.source == b.source && m.timestamp == b.timestamp
                else m.data == a.data && m.source == a.source && m.timestamp == a.timestamp)
            && m.version == Max(a.version, b.version)
            && m.operation == (if higher then b.operation else a.operation)
            && m.signature == a.signature
            && (forall k :: k in m.metadata <==> k in a.metadata || (higher && k in b.metadata))
            && (forall k <- m.metadata ::
                  m.metadata[k] == if higher && k in b.metadata then b.metadata[k] else a.metadata[k])
            && (changed <==> higher || wins || !Covers(a.clock.causality, b.clock.causality))
            && m.clock.version ==
                 if higher then b.clock.version else if !wins && changed then a.clock.version + 1 else a.clock.version
  {
  }

  /** A deletion records who asked for it and when, and keeps everything that was there. */
  lemma {:induction false} DeletionRecords(d: Document, source: Bytes, later: Time)
    ensures var x := DeleteDocument(d, source, later);
            && VisibleData(x) == None && x.deleted && x.id == d.id && x.createdAt == d.createdAt && x.updatedAt == later
            && x.history == d.history
            && x.value.operation == Operation.Delete && x.value.source == source
            && x.value.version == d.value.version + 1
            && x.value.data == d.value.data && x.value.timestamp == d.value.timestamp && x.value.clock == d.value.clock
            && x.value.signature == d.value.signature && x.value.metadata == d.value.metadata
  {
  }

  /** A merge of documents reports true exactly for a deletion or a change of the value.  It deletes if either
      side is deleted, takes no value from a deleted document, and touches nothing else. */
  lemma {:induction false} DocumentMergeReports(d: Document, other: Document, sha: Hash)
    ensures var (m, changed) := MergeDocuments(d, other, sha);
            var (v, moved) := MergeValue(d.value, other.value, sha);
            && (changed <==> other.deleted || moved)
            && (m.deleted <==> d.deleted || other.deleted)
            && m.value == (if other.deleted then d.value else v)
            && m.id == d.id && m.history == d.history && m.createdAt == d.createdAt && m.updatedAt == d.updatedAt
  {
  }

  /** `Delete` reports true exactly if the identifier was listed, and takes just that one off the list. */
  lemma {:induction false} DeleteReports(s: Documents, id: Bytes, source: Bytes, later: Time)
    ensures var (t, deleted) := DeleteFrom(s, id, source, later);
            && (deleted <==> id in LiveIDs(s)) && LiveIDs(t) == LiveIDs(s) - {id}
            && t.Keys == s.Keys && (forall i <- s :: i != id || !deleted ==> t[i] == s[i])
            && (deleted ==> t[id].value.operation == Operation.Delete && t[id].value.source == source
                            && t[id].updatedAt == later)
  {
  }

  /** `MergeDocument` reports true for an unknown document, which is taken over as it is, for a deletion, and for a
      change of the value; no other document changes. */
  lemma {:induction false} MergeReports(s: Documents, external: Document, sha: Hash)
    ensures var (t, changed) := MergeInto(s, external, sha);
            var id := external.id;
            && (changed <==> id !in s || external.deleted || MergeValue(s[id].value, external.value, sha).1)
            && t.Keys == s.Keys + {id} && (forall i <- s :: i != id ==> t[i] == s[i])
            && (id !in s ==> t[id] == external)
            && LiveIDs(t) == (if external.deleted then LiveIDs(s) - {id}
                              else if id in s then LiveIDs(s) else LiveIDs(s) + {id})
  {
  }
}

/** What a run leaves in the metadata of a file and in the chunk table (src/storage/replicated_fs.go). */
module FileHistories {
  import opened Wrappers
  import opened Integers
  import opened ByteStrings
  import opened FileStates
  import opened FileRuns
  import Announcements
  import CRDTDocuments
  import Chunking

  predicate WritesTo(e: Event, path: Bytes) {
    e.WriteFile? && e.path == path
  }

  /** How many writes went to the path, successful or not. */
  function Attempts(events: seq<Event>, path: Bytes): nat {
    if events == [] then 0
    else Attempts(events[..|events| - 1], path) + if WritesTo(events[|events| - 1], path) then 1 else 0
  }

  function FirstAttempt(events: seq<Event>, path: Bytes): Option<Event> {
    if events == [] then None
    else
      var before, last := FirstAttempt(events[..|events| - 1], path), events[|events| - 1];
      if before.None? && WritesTo(last, path) then Some(last) else before
  }

  function LastAttempt(events: seq<Event>, path: Bytes): Option<Event> {
    if events == [] then None
    else
      var last := events[|events| - 1];
      if WritesTo(last, path) then Some(last) else LastAttempt(events[..|events| - 1], path)
  }

  /** The event changes the file at the path: a write, or the deletion of a file that is there. */
  ghost predicate Touches(before: seq<Event>, e: Event, path: Bytes) {
    WritesTo(e, path) || (e.DeleteFile? && e.path == path && Created(before, path) && !EverDeleted(before, path))
  }

  ghost function LastTouched(events: seq<Event>, path: Bytes): Time {
    if events == [] then 0
    else
      var before, last := events[..|events| - 1], events[|events| - 1];
      if Touches(before, last, path) then last.now else LastTouched(before, path)
  }

  /** The metadata of a file says how often it was written or deleted, when first and when last, by whom first, and
      how much was written last, whether or not that succeeded. */
  ghost predicate Tells(m: Metadata, events: seq<Event>, path: Bytes, cfg: Config) {
    && FirstAttempt(events, path).Some? && LastAttempt(events, path).Some?
    && WritesTo(FirstAttempt(events, path).value, path) && WritesTo(LastAttempt(events, path).value, path)
    && m.version == Attempts(events, path) + (if EverDeleted(events, path) then 1 else 0)
    && (m.deleted <==> EverDeleted(events, path))
    && m.createdAt == FirstAttempt(events, path).value.now && m.modifiedAt == LastTouched(events, path)
    && m.size == |LastAttempt(events, path).value.data|
    && m.owner == FirstAttempt(events, path).value.owner && m.permissions == map[m.owner := true]
    && m.name == path && m.path == path && m.replication == cfg.replicationFactor
  }

  ghost predicate AllTell(s: FileSystem, events: seq<Event>, cfg: Config) {
    forall p ::
      if p in s.pathIndex then s.pathIndex[p] in s.files && Tells(s.files[s.pathIndex[p]], events, p, cfg)
      else !Created(events, p) && FirstAttempt(events, p).None? && Attempts(events, p) == 0
  }

  lemma OneMoreTold(events: seq<Event>, e: Event, path: Bytes)
    ensures var all := events + [e];
            && Attempts(all, path) == Attempts(events, path) + (if WritesTo(e, path) then 1 else 0)
            && FirstAttempt(all, path) == (if FirstAttempt(events, path).None? && WritesTo(e, path) then Some(e)
                                           else FirstAttempt(events, path))
            && LastAttempt(all, path) == (if WritesTo(e, path) then Some(e) else LastAttempt(events, path))
            && LastTouched(all, path) == (if Touches(events, e, path) then e.now else LastTouched(events, path))
  {
    assert (events + [e])[..|events|] == events;
  }

  lemma OtherPathTells(m: Metadata, events: seq<Event>, e: Event, path: Bytes, cfg: Config)
    requires cfg.chunkSize > 0 && Tells(m, events, path, cfg) && e.path != path
    ensures Tells(m, events + [e], path, cfg)
  {
    OneMoreTold(events, e, path);
    OneMoreEvent(events, e, path, [], cfg.chunkSize);
  }

  lemma WrittenTells(m: Metadata, n: Metadata, events: seq<Event>, e: Event, known: bool, cfg: Config)
    requires cfg.chunkSize > 0 && e.WriteFile?
    requires if known then Tells(m, events, e.path, cfg)
             else !Created(events, e.path) && FirstAttempt(events, e.path).None? && Attempts(events, e.path) == 0
    requires known ==> n == m.(version := m.version + 1, modifiedAt := e.now, size := |e.data|, chunks := n.chunks)
    requires !known ==> n == NewMetadata(e.newID, e.path, |e.data|, e.owner, e.now, cfg).(chunks := n.chunks)
    ensures Tells(n, events + [e], e.path, cfg)
  {
    OneMoreTold(events, e, e.path);
    OneMoreEvent(events, e, e.path, [], cfg.chunkSize);
    NeverDeleted(events, e.path);
  }

  lemma NeverDeleted(events: seq<Event>, path: Bytes)
    ensures EverDeleted(events, path) ==> Created(events, path)
  {
    if EverDeleted(events, path) {
      var j :| 0 <= j < |events| && events[j].DeleteFile? && events[j].path == path && Created(events[..j], path);
      var i :| 0 <= i < j && events[..j][i].WriteFile? && events[..j][i].path == path;
      assert events[i] == events[..j][i];
    }
  }

  lemma DeletedTells(m: Metadata, events: seq<Event>, e: Event, cfg: Config)
    requires cfg.chunkSize > 0 && e.DeleteFile? && Tells(m, events, e.path, cfg) && Created(events, e.path)
    ensures m.deleted ==> Tells(m, events + [e], e.path, cfg)
    ensures !m.deleted ==>
              Tells(m.(deleted := true, modifiedAt := e.now, version := m.version + 1), events + [e], e.path, cfg)
  {
    OneMoreTold(events, e, e.path);
    OneMoreEvent(events, e, e.path, [], cfg.chunkSize);
  }

  /** What a step does to the metadata of its own path, and to nothing else. */
  lemma StepOnMetadata(s: FileSystem, e: Event, t: FileSystem, cfg: Config)
    requires cfg.chunkSize > 0 && Step(s, e, t, cfg) && WellFormed(s, cfg)
    ensures forall p :: p != e.path ==> (p in t.pathIndex <==> p in s.pathIndex)
    ensures forall p <- s.pathIndex ::
              p != e.path ==>
                && p in t.pathIndex && t.pathIndex[p] == s.pathIndex[p] && t.pathIndex[p] in t.files
                && t.files[t.pathIndex[p]] == s.files[s.pathIndex[p]]
    ensures e.WriteFile? ==>
              && e.path in t.pathIndex && t.pathIndex[e.path] in t.files
              && var n := t.files[t.pathIndex[e.path]];
                 if e.path in s.pathIndex then
                   n == s.files[s.pathIndex[e.path]].(version := s.files[s.pathIndex[e.path]].version + 1,
                                                      modifiedAt := e.now, size := |e.data|, chunks := n.chunks)
                 else n == NewMetadata(e.newID, e.path, |e.data|, e.owner, e.now, cfg).(chunks := n.chunks)
    ensures e.DeleteFile? ==>
              if e.path !in s.pathIndex then e.path !in t.pathIndex
              else
                && e.path in t.pathIndex && t.pathIndex[e.path] in t.files
                && var m := s.files[s.pathIndex[e.path]];
                   t.files[t.pathIndex[e.path]] ==
                     if m.deleted then m else m.(deleted := true, modifiedAt := e.now, version := m.version + 1)
  {
  }

  lemma StepTells(s: FileSystem, events: seq<Event>, e: Event, t: FileSystem, cfg: Config)
    requires cfg.chunkSize > 0 && Step(s, e, t, cfg) && WellFormed(s, cfg) && AllTell(s, events, cfg)
    requires forall p :: p in s.pathIndex <==> Created(events, p)
    ensures AllTell(t, events + [e], cfg)
  {
    StepOnMetadata(s, e, t, cfg);
    forall p
      ensures if p in t.pathIndex then
                t.pathIndex[p] in t.files && Tells(t.files[t.pathIndex[p]], events + [e], p, cfg)
              else
                !Created(events + [e], p) && FirstAttempt(events + [e], p).None? && Attempts(events + [e], p) == 0
    {
      OneMoreTold(events, e, p);
      OneMoreEvent(events, e, p, [], cfg.chunkSize);
      if p != e.path {
        if p in s.pathIndex {
          OtherPathTells(s.files[s.pathIndex[p]], events, e, p, cfg);
        }
      } else if e.WriteFile? {
        var n := t.files[t.pathIndex[p]];
        if p in s.pathIndex {
          WrittenTells(s.files[s.pathIndex[p]], n, events, e, true, cfg);
        } else {
          WrittenTells(n, n, events, e, false, cfg);
        }
      } else if p in s.pathIndex {
        DeletedTells(s.files[s.pathIndex[p]], events, e, cfg);
      }
    }
  }

  /** After any run, the metadata of every file tells the history of its path. */
  lemma {:induction false} MetadataTellsHistory(states: seq<FileSystem>, events: seq<Event>, universe: set<Bytes>,
                                                cfg: Config)
    requires cfg.chunkSize > 0 && Run(states, events, cfg) && Collisionless(events, universe, cfg)
    ensures AllTell(states[|events|], events, cfg)
    decreases |events|
  {
    if events == [] {
      assert states[0] == EMPTY;
    } else {
      var n := |events| - 1;
      var front, before, s, e, t := states[..n + 1], events[..n], states[n], events[n], states[n + 1];
      Announcements.LastStep(states, events, map[], universe, cfg);
      MetadataTellsHistory(front, before, universe, cfg);
      Announcements.RunRecalls(front, before, universe, cfg);
      StepTells(s, before, e, t, cfg);
    }
  }

  /** The pieces up to the refused one, or all of them, in the chunk table. */
  lemma PiecesStored(chunks: Chunking.Chunks, pieces: seq<Bytes>, stored: seq<Bytes>, failAt: nat, version: nat,
                     now: Time, sha: Hash)
    requires Chunking.ContentAddressed(chunks, sha)
    requires stored == if failAt < |pieces| then pieces[..failAt + 1] else pieces
    ensures var after := Chunking.StorePieces(chunks, stored, version, now, sha);
            && (forall i :: 0 <= i < |pieces| && i <= failAt ==>
                  && sha(pieces[i]) in after
                  && after[sha(pieces[i])].version == version && after[sha(pieces[i])].timestamp == now)
            && (forall h <- after ::
                  || (h in chunks && after[h] == chunks[h])
                  || exists i :: 0 <= i < |pieces| && i <= failAt && sha(pieces[i]) == h)
  {
    Chunking.StoreAddsPieces(chunks, stored, version, now, sha, {});
    assert forall i :: 0 <= i < |pieces| && i <= failAt ==>
             i < |stored| && stored[i] == pieces[i] && pieces[i] in stored;
    forall p | p in stored
      ensures exists i :: 0 <= i < |pieces| && i <= failAt && pieces[i] == p
    {
      var i :| 0 <= i < |stored| && stored[i] == p;
      assert pieces[i] == p;
    }
  }

  /** A write stores its pieces up to the one refused, under the version and time of the write, and no others; if all
      are accepted, they are the file's chunks, and a live document that holds the path is announced in the name of
      the writer. */
  lemma {:induction false} WriteStores(s: FileSystem, path: Bytes, data: Bytes, owner: Bytes, newID: Bytes,
                                       now: Time, failAt: nat, cfg: Config)
    requires WellFormed(s, cfg) && (path !in s.pathIndex ==> newID !in s.files)
    ensures var (t, outcome) := Write(s, path, data, owner, newID, now, failAt, cfg);
            var pieces := Chunking.Pieces(data, cfg.chunkSize);
            && path in t.pathIndex && t.pathIndex[path] in t.files
            && var m := t.files[t.pathIndex[path]];
            && (outcome.Failed? <==> failAt < |pieces|)
            && (forall i :: 0 <= i < |pieces| && i <= failAt ==>
                  && cfg.sha(pieces[i]) in t.chunks
                  && t.chunks[cfg.sha(pieces[i])].version == m.version && t.chunks[cfg.sha(pieces[i])].timestamp == now)
            && (forall h <- t.chunks ::
                  || (h in s.chunks && t.chunks[h] == s.chunks[h])
                  || exists i :: 0 <= i < |pieces| && i <= failAt && cfg.sha(pieces[i]) == h)
            && (!outcome.Failed? ==>
                  && |m.chunks| == |pieces| && (forall i :: 0 <= i < |pieces| ==> m.chunks[i] == cfg.sha(pieces[i]))
                  && outcome.Announced? && outcome.doc.id == t.pathIndex[path]
                  && CRDTDocuments.VisibleData(outcome.doc) == Some(path) && outcome.doc.value.source == owner)
  {
    var (m, stored) := Written(s, path, data, owner, newID, now, failAt, cfg);
    PiecesStored(s.chunks, Chunking.Pieces(data, cfg.chunkSize), stored, failAt, m.version, now, cfg.sha);
  }

  /** A deletion announces a deleted document under the file's identifier, in the name of who asked for it. */
  lemma {:induction false} DeletionAnnounces(s: FileSystem, path: Bytes, owner: Bytes, now: Time, cfg: Config)
    requires WellFormed(s, cfg)
    ensures var (t, outcome) := Delete(s, path, owner, now);
            && (outcome.Announced? ==>
                  && path in s.pathIndex && outcome.doc.id == s.pathIndex[path] && outcome.doc.deleted
                  && outcome.doc.value.source == owner && outcome.doc.value.data == path
                  && outcome.doc.updatedAt == now)
            && (outcome.Failed? <==> path !in s.pathIndex)
            && (outcome.Unchanged? <==> path in s.pathIndex && s.files[s.pathIndex[path]].deleted)
  {
  }
}

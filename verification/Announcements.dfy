/** What the file system publishes about its files through the document store, and when that is what a local
    reader sees (src/storage/replicated_fs.go). */
module Announcements {
  import opened Integers
  import opened ByteStrings
  import Chunking
  import opened CRDTDocuments
  import opened CRDTStores
  import opened FileStates
  import opened FileRuns

  /** The document a successful write announces is live.  In the document store it agrees with the
      file exactly if the file was not deleted before: writing to a deleted path revives the document
      but not the file. */
  lemma {:induction false} AnnouncementAgreesExactlyWhen(s: FileSystem, docs: Documents, path: Bytes, data: Bytes,
                                                         owner: Bytes, newID: Bytes, now: Time, failAt: nat,
                                                         cfg: Config)
    requires WellFormed(s, cfg) && (path !in s.pathIndex ==> newID !in s.files)
    requires Succeeds(WriteFile(path, data, owner, newID, now, failAt), cfg.chunkSize)
    ensures var (t, outcome) := Write(s, path, data, owner, newID, now, failAt, cfg);
            && WellFormed(t, cfg) && path in t.pathIndex && outcome.Announced?
            && ((t.pathIndex[path] in LiveIDs(PutInto(docs, outcome.doc)) <==> Read(t, path) != FileDeleted)
                <==> Read(s, path) != FileDeleted)
  {
    WriteKeepsMark(s, path, data, owner, newID, now, failAt, cfg);
    ReadRefines(Write(s, path, data, owner, newID, now, failAt, cfg).0, path, cfg);
  }

  /** A write leaves a file deleted exactly if it was, and announces a live document under its identifier. */
  lemma WriteKeepsMark(s: FileSystem, path: Bytes, data: Bytes, owner: Bytes, newID: Bytes, now: Time,
                       failAt: nat, cfg: Config)
    requires WellFormed(s, cfg) && (path !in s.pathIndex ==> newID !in s.files)
    ensures var (t, outcome) := Write(s, path, data, owner, newID, now, failAt, cfg);
            && WellFormed(t, cfg) && path in t.pathIndex
            && (t.files[t.pathIndex[path]].deleted <==> path in s.pathIndex && s.files[s.pathIndex[path]].deleted)
            && (outcome.Announced? ==> outcome.doc.id == t.pathIndex[path] && !outcome.doc.deleted)
  {
    WriteReplaces(s, path, data, owner, newID, now, failAt, cfg);
    var t := Write(s, path, data, owner, newID, now, failAt, cfg).0;
    ReplacedWellFormed(s, t, path, t.pathIndex[path], t.files[t.pathIndex[path]], cfg);
  }

  /** A deletion, in contrast, always leaves file and document dead together. */
  lemma {:induction false} DeletionAnnounced(s: FileSystem, docs: Documents, path: Bytes, owner: Bytes, now: Time,
                                             cfg: Config)
    requires WellFormed(s, cfg)
    ensures var (t, outcome) := Delete(s, path, owner, now);
            && WellFormed(t, cfg)
            && (outcome.Announced? ==> path in t.pathIndex && Read(t, path) == FileDeleted
                                       && t.pathIndex[path] !in LiveIDs(PutInto(docs, outcome.doc)))
  {
    DeleteRefines(s, path, owner, now, cfg);
  }

  function OutcomeOf(s: FileSystem, e: Event, cfg: Config): Outcome
    requires cfg.chunkSize > 0 && (e.path in s.pathIndex ==> s.pathIndex[e.path] in s.files)
  {
    match e
    case WriteFile(path, data, owner, newID, now, failAt) => Write(s, path, data, owner, newID, now, failAt, cfg).1
    case DeleteFile(path, owner, now) => Delete(s, path, owner, now).1
  }

  /** The announced document goes into the store. */
  function Publish(docs: Documents, outcome: Outcome): Documents {
    if outcome.Announced? then PutInto(docs, outcome.doc) else docs
  }

  /** The documents in the store after a run, if `initial` were there before. */
  ghost function Published(states: seq<FileSystem>, events: seq<Event>, initial: Documents, cfg: Config): Documents
    requires Run(states, events, cfg)
    decreases |events|
  {
    if events == [] then initial
    else
      var n := |events| - 1;
      assert Step(states[n], events[n], states[n + 1], cfg);
      Publish(Published(states[..n + 1], events[..n], initial, cfg), OutcomeOf(states[n], events[n], cfg))
  }

  /** A deletion that had a file to delete. */
  ghost predicate Deletes(events: seq<Event>, i: nat, path: Bytes)
    requires i < |events|
  {
    events[i].DeleteFile? && events[i].path == path && Created(events[..i], path) && !EverDeleted(events[..i], path)
  }

  /** The last operation that had an effect on the path was a successful write. */
  ghost predicate EndsInWrite(events: seq<Event>, path: Bytes, chunkSize: nat)
    requires chunkSize > 0
  {
    exists i :: 0 <= i < |events| && Succeeds(events[i], chunkSize) && events[i].path == path
      && forall j :: i < j < |events| ==> !Deletes(events, j, path)
  }

  /** Some write to the path succeeded after its deletion. */
  ghost predicate WrittenWhenDead(events: seq<Event>, path: Bytes, chunkSize: nat)
    requires chunkSize > 0
  {
    exists i :: 0 <= i < |events| && Succeeds(events[i], chunkSize) && events[i].path == path
      && EverDeleted(events[..i], path)
  }

  lemma EndsInWriteMore(events: seq<Event>, e: Event, path: Bytes, chunkSize: nat)
    requires chunkSize > 0
    ensures EndsInWrite(events + [e], path, chunkSize) <==>
              if Succeeds(e, chunkSize) && e.path == path then true
              else if e.DeleteFile? && e.path == path && Created(events, path) && !EverDeleted(events, path) then false
              else EndsInWrite(events, path, chunkSize)
  {
    var all, n := events + [e], |events|;
    assert all[n] == e && all[..n] == events;
    forall i | 0 <= i < n
      ensures all[i] == events[i] && (Deletes(all, i, path) <==> Deletes(events, i, path))
    {
      assert all[..i] == events[..i];
    }
    if EndsInWrite(all, path, chunkSize) && !(Succeeds(e, chunkSize) && e.path == path) {
      var i :| 0 <= i < |all| && Succeeds(all[i], chunkSize) && all[i].path == path
               && forall j :: i < j < |all| ==> !Deletes(all, j, path);
      assert i < n && !Deletes(all, n, path) && forall j :: i < j < n ==> !Deletes(all, j, path);
    }
    if EndsInWrite(events, path, chunkSize) && !Deletes(all, n, path) {
      var i :| 0 <= i < n && Succeeds(events[i], chunkSize) && events[i].path == path
               && forall j :: i < j < n ==> !Deletes(events, j, path);
      assert all[i] == events[i] && forall j :: i < j < |all| ==> !Deletes(all, j, path);
    }
  }

  lemma WrittenWhenDeadMore(events: seq<Event>, e: Event, path: Bytes, chunkSize: nat)
    requires chunkSize > 0
    ensures WrittenWhenDead(events + [e], path, chunkSize) <==>
              WrittenWhenDead(events, path, chunkSize)
              || (Succeeds(e, chunkSize) && e.path == path && EverDeleted(events, path))
  {
    var all, n := events + [e], |events|;
    assert all[n] == e && all[..n] == events;
    assert forall i :: 0 <= i < n ==> all[i] == events[i] && all[..i] == events[..i];
  }

  /** A path that was deleted ends in a write exactly if one succeeded after the deletion; any other path
      exactly if one succeeded at all. */
  lemma {:induction false} EndsInWriteExactlyWhen(events: seq<Event>, path: Bytes, chunkSize: nat)
    requires chunkSize > 0
    ensures EndsInWrite(events, path, chunkSize) <==>
              if EverDeleted(events, path) then WrittenWhenDead(events, path, chunkSize)
              else !NeverWritten(events, path, chunkSize)
    ensures WrittenWhenDead(events, path, chunkSize) ==> EverDeleted(events, path)
    ensures EverDeleted(events, path) || !NeverWritten(events, path, chunkSize) ==> Created(events, path)
    decreases |events|
  {
    if events != [] {
      var n := |events| - 1;
      var before, e := events[..n], events[n];
      assert events == before + [e];
      EndsInWriteExactlyWhen(before, path, chunkSize);
      EndsInWriteMore(before, e, path, chunkSize);
      WrittenWhenDeadMore(before, e, path, chunkSize);
      OneMoreEvent(before, e, path, [], chunkSize);
    }
  }

  /** The identifiers drawn for new paths are not those of documents already in the store. */
  predicate Avoids(events: seq<Event>, initial: Documents) {
    forall e <- events :: e.WriteFile? ==> e.newID !in initial
  }

  /** The store gained documents of known files only, and those are live whose path ends in a write. */
  ghost predicate Mirrors(s: FileSystem, docs: Documents, events: seq<Event>, initial: Documents, cfg: Config)
    requires cfg.chunkSize > 0
  {
    && docs.Keys <= s.files.Keys + initial.Keys
    && forall p <- s.pathIndex :: s.pathIndex[p] in LiveIDs(docs) <==> EndsInWrite(events, p, cfg.chunkSize)
  }

  /** The state as far as the past determines it. */
  ghost predicate Recalls(s: FileSystem, events: seq<Event>) {
    forall p ::
      && (p in s.pathIndex <==> Created(events, p))
      && (p in s.pathIndex ==>
            s.pathIndex[p] in s.files && (s.files[s.pathIndex[p]].deleted <==> EverDeleted(events, p)))
  }

  lemma RunRecalls(states: seq<FileSystem>, events: seq<Event>, universe: set<Bytes>, cfg: Config)
    requires cfg.chunkSize > 0 && Run(states, events, cfg) && Collisionless(events, universe, cfg)
    ensures WellFormed(states[|events|], cfg) && Recalls(states[|events|], events)
  {
    var s := states[|events|];
    RunRefines(states, events, universe, cfg);
    forall p
      ensures p in s.pathIndex <==> Created(events, p)
      ensures p in s.pathIndex ==>
                s.pathIndex[p] in s.files && (s.files[s.pathIndex[p]].deleted <==> EverDeleted(events, p))
    {
      ViewIsHistory(events, p, [], cfg.chunkSize);
      KnownLook(s, p, cfg);
    }
  }

  /** Putting a document changes what is live at its own identifier only. */
  lemma LiveAfterPut(docs: Documents, d: Document, id: Bytes)
    ensures id in LiveIDs(PutInto(docs, d)) <==> if id == d.id then !d.deleted else id in LiveIDs(docs)
  {
  }

  lemma WriteOutcome(s: FileSystem, e: Event, t: FileSystem, cfg: Config)
    requires cfg.chunkSize > 0 && Step(s, e, t, cfg) && e.WriteFile?
    ensures var id := if e.path in s.pathIndex then s.pathIndex[e.path] else e.newID;
            var outcome := OutcomeOf(s, e, cfg);
            && t.pathIndex == s.pathIndex[e.path := id] && t.files.Keys == s.files.Keys + {id}
            && (outcome.Announced? <==> Succeeds(e, cfg.chunkSize))
            && (outcome.Announced? ==> outcome.doc.id == id && !outcome.doc.deleted)
  {
  }

  lemma LiveAfterWrite(docs: Documents, outcome: Outcome, id: Bytes, at: Bytes, events: seq<Event>, e: Event,
                       path: Bytes, chunkSize: nat)
    requires chunkSize > 0 && e.WriteFile?
    requires outcome.Announced? <==> Succeeds(e, chunkSize)
    requires outcome.Announced? ==> outcome.doc.id == id && !outcome.doc.deleted
    requires (at == id <==> path == e.path) && (at in LiveIDs(docs) <==> EndsInWrite(events, path, chunkSize))
    ensures at in LiveIDs(Publish(docs, outcome)) <==> EndsInWrite(events + [e], path, chunkSize)
  {
    EndsInWriteMore(events, e, path, chunkSize);
    if outcome.Announced? {
      LiveAfterPut(docs, outcome.doc, at);
    }
  }

  lemma WriteMirrors(s: FileSystem, docs: Documents, events: seq<Event>, initial: Documents, e: Event,
                     t: FileSystem, outcome: Outcome, cfg: Config)
    requires cfg.chunkSize > 0 && Step(s, e, t, cfg) && e.WriteFile? && e.newID !in initial
    requires WellFormed(s, cfg) && WellFormed(t, cfg) && Recalls(s, events) && Mirrors(s, docs, events, initial, cfg)
    requires outcome == OutcomeOf(s, e, cfg)
    ensures Mirrors(t, Publish(docs, outcome), events + [e], initial, cfg)
  {
    var id := if e.path in s.pathIndex then s.pathIndex[e.path] else e.newID;
    WriteOutcome(s, e, t, cfg);
    forall p | p in t.pathIndex
      ensures t.pathIndex[p] in LiveIDs(Publish(docs, outcome)) <==> EndsInWrite(events + [e], p, cfg.chunkSize)
    {
      EndsInWriteExactlyWhen(events, p, cfg.chunkSize);
      LiveAfterWrite(docs, outcome, id, t.pathIndex[p], events, e, p, cfg.chunkSize);
    }
  }

  lemma DeleteMirrors(s: FileSystem, docs: Documents, events: seq<Event>, initial: Documents, e: Event,
                      t: FileSystem, cfg: Config)
    requires cfg.chunkSize > 0 && Step(s, e, t, cfg) && e.DeleteFile?
    requires WellFormed(s, cfg) && WellFormed(t, cfg) && Recalls(s, events) && Mirrors(s, docs, events, initial, cfg)
    ensures Mirrors(t, Publish(docs, OutcomeOf(s, e, cfg)), events + [e], initial, cfg)
  {
    var after := Publish(docs, OutcomeOf(s, e, cfg));
    forall p | p in t.pathIndex
      ensures t.pathIndex[p] in LiveIDs(after) <==> EndsInWrite(events + [e], p, cfg.chunkSize)
    {
      EndsInWriteMore(events, e, p, cfg.chunkSize);
      if OutcomeOf(s, e, cfg).Announced? {
        LiveAfterPut(docs, OutcomeOf(s, e, cfg).doc, t.pathIndex[p]);
      }
    }
  }

  lemma StepMirrors(s: FileSystem, docs: Documents, events: seq<Event>, initial: Documents, e: Event,
                    t: FileSystem, cfg: Config)
    requires cfg.chunkSize > 0 && Step(s, e, t, cfg) && (e.WriteFile? ==> e.newID !in initial)
    requires WellFormed(s, cfg) && WellFormed(t, cfg) && Recalls(s, events) && Mirrors(s, docs, events, initial, cfg)
    ensures Mirrors(t, Publish(docs, OutcomeOf(s, e, cfg)), events + [e], initial, cfg)
  {
    if e.WriteFile? {
      WriteMirrors(s, docs, events, initial, e, t, OutcomeOf(s, e, cfg), cfg);
    } else {
      DeleteMirrors(s, docs, events, initial, e, t, cfg);
    }
  }

  /** The last step of a run. */
  lemma LastStep(states: seq<FileSystem>, events: seq<Event>, initial: Documents, universe: set<Bytes>, cfg: Config)
    requires cfg.chunkSize > 0 && Run(states, events, cfg) && Collisionless(events, universe, cfg)
    requires Avoids(events, initial) && events != []
    ensures var n := |events| - 1;
            var front, before, s, e, t := states[..n + 1], events[..n], states[n], events[n], states[n + 1];
            && Run(front, before, cfg) && Collisionless(before, universe, cfg) && Avoids(before, initial)
            && front[|before|] == s && events == before + [e] && Step(s, e, t, cfg)
            && (e.WriteFile? ==> e.newID !in initial)
            && Published(states, events, initial, cfg)
               == Publish(Published(front, before, initial, cfg), OutcomeOf(s, e, cfg))
  {
    var n := |events| - 1;
    assert Step(states[n], events[n], states[n + 1], cfg) && events[n] in events;
    assert forall e <- events[..n] :: e in events;
  }

  lemma {:induction false} RunMirrors(states: seq<FileSystem>, events: seq<Event>, initial: Documents,
                                      universe: set<Bytes>, cfg: Config)
    requires cfg.chunkSize > 0 && Run(states, events, cfg) && Collisionless(events, universe, cfg)
    requires Avoids(events, initial)
    ensures Mirrors(states[|events|], Published(states, events, initial, cfg), events, initial, cfg)
    decreases |events|
  {
    if events == [] {
      assert states[0] == EMPTY;
    } else {
      var n := |events| - 1;
      var front, before, s, e, t := states[..n + 1], events[..n], states[n], events[n], states[n + 1];
      LastStep(states, events, initial, universe, cfg);
      RunMirrors(front, before, initial, universe, cfg);
      RunRecalls(front, before, universe, cfg);
      RunRecalls(states, events, universe, cfg);
      StepMirrors(s, Published(front, before, initial, cfg), before, initial, e, t, cfg);
    }
  }

  /** After any run, the document of a known file is live exactly if the last operation with an effect on its
      path was a successful write.  That is what a local reader sees if and only if, for a deleted
      path, no write succeeded after the deletion, and for any other path, some write succeeded at all. */
  lemma {:induction false} PublishedAgreesExactlyWhen(states: seq<FileSystem>, events: seq<Event>,
                                                      initial: Documents, path: Bytes, universe: set<Bytes>,
                                                      cfg: Config)
    requires cfg.chunkSize > 0 && Run(states, events, cfg) && Collisionless(events, universe, cfg)
    requires Avoids(events, initial)
    requires path in states[|events|].pathIndex
    ensures var s := states[|events|];
            var live := s.pathIndex[path] in LiveIDs(Published(states, events, initial, cfg));
            && WellFormed(s, cfg)
            && (live <==> EndsInWrite(events, path, cfg.chunkSize))
            && ((live <==> Read(s, path).Data?) <==>
                  if EverDeleted(events, path) then !WrittenWhenDead(events, path, cfg.chunkSize)
                  else !NeverWritten(events, path, cfg.chunkSize))
  {
    RunMirrors(states, events, initial, universe, cfg);
    RunRecalls(states, events, universe, cfg);
    EndsInWriteExactlyWhen(events, path, cfg.chunkSize);
    ReadRefines(states[|events|], path, cfg);
  }

  /** Both disagreements happen.  A file that is written, deleted and written again is dead to local readers,
      but its document is live. */
  lemma {:induction false} DeadFileLooksAlive(path: Bytes, owner: Bytes, id: Bytes, cfg: Config)
    requires cfg.chunkSize > 0
    ensures var write, delete := WriteFile(path, [], owner, id, 0, 0), DeleteFile(path, owner, 0);
            exists states: seq<FileSystem> ::
              && Run(states, [write, delete, write], cfg) && path in states[3].pathIndex
              && WellFormed(states[3], cfg) && Read(states[3], path) == FileDeleted
              && states[3].pathIndex[path] in LiveIDs(Published(states, [write, delete, write], map[], cfg))
  {
    var write, delete := WriteFile(path, [], owner, id, 0, 0), DeleteFile(path, owner, 0);
    var events := [write, delete, write];
    var states := RunOfThree(write, delete, cfg);
    WrittenAgain(write, delete, path, cfg.chunkSize);
    ReadReturnsLastWrite(states, events, path, [], {[]}, cfg);
    RunRecalls(states, events, {[]}, cfg);
    PublishedAgreesExactlyWhen(states, events, map[], path, {[]}, cfg);
  }

  lemma RunOfThree(write: Event, delete: Event, cfg: Config) returns (states: seq<FileSystem>)
    requires cfg.chunkSize > 0 && write.WriteFile? && delete.DeleteFile? && write.path == delete.path
    ensures Run(states, [write, delete, write], cfg)
  {
    var WriteFile(path, data, owner, newID, now, failAt) := write;
    var s1 := Write(EMPTY, path, data, owner, newID, now, failAt, cfg).0;
    var s2 := Delete(s1, path, delete.owner, delete.now).0;
    var s3 := Write(s2, path, data, owner, newID, now, failAt, cfg).0;
    states := [EMPTY, s1, s2, s3];
    assert Step(EMPTY, write, s1, cfg) && Step(s1, delete, s2, cfg) && Step(s2, write, s3, cfg);
  }

  lemma WrittenAgain(write: Event, delete: Event, path: Bytes, chunkSize: nat)
    requires chunkSize > 0 && Succeeds(write, chunkSize) && delete.DeleteFile? && write.path == delete.path == path
    ensures var events := [write, delete, write];
            Created(events, path) && EverDeleted(events, path) && WrittenWhenDead(events, path, chunkSize)
  {
    assert [] + [write] == [write] && [write] + [delete] == [write, delete];
    assert [write, delete] + [write] == [write, delete, write];
    OneMoreEvent([], write, path, [], chunkSize);
    OneMoreEvent([write], delete, path, [], chunkSize);
    OneMoreEvent([write, delete], write, path, [], chunkSize);
    WrittenWhenDeadMore([write, delete], write, path, chunkSize);
  }

  /** And a first write that fails leaves a file that local readers find empty, but no document. */
  lemma {:induction false} FailedFileLooksDead(path: Bytes, owner: Bytes, id: Bytes, cfg: Config)
    requires cfg.chunkSize > 0
    ensures var failure := WriteFile(path, [0], owner, id, 0, 0);
            exists states: seq<FileSystem> ::
              && Run(states, [failure], cfg) && path in states[1].pathIndex
              && WellFormed(states[1], cfg) && Read(states[1], path) == Data([])
              && states[1].pathIndex[path] !in LiveIDs(Published(states, [failure], map[], cfg))
  {
    var failure := WriteFile(path, [0], owner, id, 0, 0);
    var events := [failure];
    var s := Write(EMPTY, path, [0], owner, id, 0, 0, cfg).0;
    var states := [EMPTY, s];
    Chunking.PiecesShape([0], cfg.chunkSize);
    assert Step(EMPTY, failure, s, cfg);
    assert [] + [failure] == events;
    OneMoreEvent([], failure, path, [], cfg.chunkSize);
    assert Created(events, path) && !EverDeleted(events, path) && NeverWritten(events, path, cfg.chunkSize);
    var universe := set p <- Chunking.Pieces([0], cfg.chunkSize);
    ReadReturnsLastWrite(states, events, path, [], universe, cfg);
    PublishedAgreesExactlyWhen(states, events, map[], path, universe, cfg);
  }
}

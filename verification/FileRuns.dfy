/** What a user of the replicated file system sees after any run of writes and deletions. */
module FileRuns {
  import opened Integers
  import opened ByteStrings
  import opened Chunking
  import opened FileStates

  datatype Event =
    | WriteFile(path: Bytes, data: Bytes, owner: Bytes, newID: Bytes, now: Time, failAt: nat)
    | DeleteFile(path: Bytes, owner: Bytes, now: Time)

  const EMPTY := FileSystem(map[], map[], map[])

  /** One operation.  The identifier drawn for a new path is not in use. */
  ghost predicate Step(s: FileSystem, e: Event, t: FileSystem, cfg: Config) {
    && cfg.chunkSize > 0
    && (e.path in s.pathIndex ==> s.pathIndex[e.path] in s.files)
    && match e
       case WriteFile(path, data, owner, newID, now, failAt) =>
         && (path !in s.pathIndex ==> newID !in s.files)
         && t == Write(s, path, data, owner, newID, now, failAt, cfg).0
       case DeleteFile(path, owner, now) =>
         t == Delete(s, path, owner, now).0
  }

  ghost predicate Run(states: seq<FileSystem>, events: seq<Event>, cfg: Config) {
    && |states| == |events| + 1 && states[0] == EMPTY
    && forall i :: 0 <= i < |events| ==> Step(states[i], events[i], states[i + 1], cfg)
  }

  /** The write reaches its end: the store accepts every chunk. */
  predicate Succeeds(e: Event, chunkSize: nat)
    requires chunkSize > 0
  {
    e.WriteFile? && e.failAt >= |Pieces(e.data, chunkSize)|
  }

  function AbstractStep(v: View, e: Event, chunkSize: nat): View
    requires chunkSize > 0
  {
    if e.DeleteFile? then AbstractDelete(v, e.path)
    else if Succeeds(e, chunkSize) then AbstractWrite(v, e.path, e.data)
    else AbstractFailedWrite(v, e.path)
  }

  function AbstractRun(events: seq<Event>, chunkSize: nat): View
    requires chunkSize > 0
  {
    if events == [] then map[]
    else AbstractStep(AbstractRun(events[..|events| - 1], chunkSize), events[|events| - 1], chunkSize)
  }

  /** `universe` holds every piece written in the run, and no two of its members share a digest. */
  ghost predicate Collisionless(events: seq<Event>, universe: set<Bytes>, cfg: Config)
    requires cfg.chunkSize > 0
  {
    && CollisionFree(universe, cfg.sha)
    && forall e <- events :: e.WriteFile? ==> forall p <- Pieces(e.data, cfg.chunkSize) :: p in universe
  }

  lemma StepRefines(s: FileSystem, e: Event, t: FileSystem, cfg: Config, universe: set<Bytes>)
    requires cfg.chunkSize > 0 && Step(s, e, t, cfg) && CollisionFree(universe, cfg.sha)
    requires WellFormed(s, cfg) && Within(s.chunks, universe)
    requires e.WriteFile? ==> forall p <- Pieces(e.data, cfg.chunkSize) :: p in universe
    ensures WellFormed(t, cfg) && Within(t.chunks, universe)
    ensures Abstract(t, cfg) == AbstractStep(Abstract(s, cfg), e, cfg.chunkSize)
  {
    match e
    case WriteFile(path, data, owner, newID, now, failAt) =>
      WriteRefines(s, path, data, owner, newID, now, failAt, cfg, universe);
    case DeleteFile(path, owner, now) =>
      DeleteRefines(s, path, owner, now, cfg);
  }

  /** Every run of the chunked, deduplicated file system refines a run of the plain map. */
  lemma {:induction false} RunRefines(states: seq<FileSystem>, events: seq<Event>, universe: set<Bytes>, cfg: Config)
    requires cfg.chunkSize > 0 && Run(states, events, cfg) && Collisionless(events, universe, cfg)
    ensures var s := states[|events|];
            WellFormed(s, cfg) && Within(s.chunks, universe) && Abstract(s, cfg) == AbstractRun(events, cfg.chunkSize)
    decreases |events|
  {
    if events == [] {
      assert Abstract(EMPTY, cfg) == map[];
    } else {
      var n := |events| - 1;
      var s, e, t := states[n], events[n], states[n + 1];
      RunRefines(states[..n + 1], events[..n], universe, cfg);
      assert states[..n + 1][|events[..n]|] == s && e in events && Step(s, e, t, cfg);
      StepRefines(s, e, t, cfg, universe);
    }
  }

  /** Some write, successful or not, went to the path. */
  ghost predicate Created(events: seq<Event>, path: Bytes) {
    exists i :: 0 <= i < |events| && events[i].WriteFile? && events[i].path == path
  }

  /** The path was deleted at a moment when it existed. */
  ghost predicate EverDeleted(events: seq<Event>, path: Bytes) {
    exists j :: 0 <= j < |events| && events[j].DeleteFile? && events[j].path == path && Created(events[..j], path)
  }

  /** A successful write of `data` to the path that no later successful write replaced. */
  ghost predicate LastWritten(events: seq<Event>, path: Bytes, data: Bytes, chunkSize: nat)
    requires chunkSize > 0
  {
    exists i :: 0 <= i < |events| && Succeeds(events[i], chunkSize) && events[i].path == path && events[i].data == data
      && forall j :: i < j < |events| && Succeeds(events[j], chunkSize) ==> events[j].path != path
  }

  ghost predicate NeverWritten(events: seq<Event>, path: Bytes, chunkSize: nat)
    requires chunkSize > 0
  {
    forall i :: 0 <= i < |events| && Succeeds(events[i], chunkSize) ==> events[i].path != path
  }

  /** One more event, seen from each of the four questions about the past. */
  lemma OneMoreEvent(events: seq<Event>, e: Event, path: Bytes, data: Bytes, chunkSize: nat)
    requires chunkSize > 0
    ensures Created(events + [e], path) <==> Created(events, path) || (e.WriteFile? && e.path == path)
    ensures EverDeleted(events + [e], path) <==>
            EverDeleted(events, path) || (e.DeleteFile? && e.path == path && Created(events, path))
    ensures LastWritten(events + [e], path, data, chunkSize) <==>
            if Succeeds(e, chunkSize) && e.path == path then e.data == data
            else LastWritten(events, path, data, chunkSize)
    ensures NeverWritten(events + [e], path, chunkSize) <==>
            NeverWritten(events, path, chunkSize) && !(Succeeds(e, chunkSize) && e.path == path)
  {
    CreatedMore(events, e, path);
    DeletedMore(events, e, path);
    LastWrittenMore(events, e, path, data, chunkSize);
    NeverWrittenMore(events, e, path, chunkSize);
  }

  lemma CreatedMore(events: seq<Event>, e: Event, path: Bytes)
    ensures Created(events + [e], path) <==> Created(events, path) || (e.WriteFile? && e.path == path)
  {
    var all := events + [e];
    assert all[|events|] == e && forall i :: 0 <= i < |events| ==> all[i] == events[i];
  }

  lemma DeletedMore(events: seq<Event>, e: Event, path: Bytes)
    ensures EverDeleted(events + [e], path) <==>
            EverDeleted(events, path) || (e.DeleteFile? && e.path == path && Created(events, path))
  {
    var all := events + [e];
    assert all[|events|] == e && all[..|events|] == events;
    assert forall i :: 0 <= i < |events| ==> all[i] == events[i] && all[..i] == events[..i];
  }

  lemma LastWrittenMore(events: seq<Event>, e: Event, path: Bytes, data: Bytes, chunkSize: nat)
    requires chunkSize > 0
    ensures LastWritten(events + [e], path, data, chunkSize) <==>
            if Succeeds(e, chunkSize) && e.path == path then e.data == data
            else LastWritten(events, path, data, chunkSize)
  {
    var all := events + [e];
    assert all[|events|] == e && forall i :: 0 <= i < |events| ==> all[i] == events[i];
    if LastWritten(events, path, data, chunkSize) && !(Succeeds(e, chunkSize) && e.path == path) {
      var i :| 0 <= i < |events| && Succeeds(events[i], chunkSize) && events[i].path == path && events[i].data == data
        && forall j :: i < j < |events| && Succeeds(events[j], chunkSize) ==> events[j].path != path;
      assert Succeeds(all[i], chunkSize);
      assert forall j :: i < j < |all| && Succeeds(all[j], chunkSize) ==> all[j].path != path;
    }
  }

  lemma NeverWrittenMore(events: seq<Event>, e: Event, path: Bytes, chunkSize: nat)
    requires chunkSize > 0
    ensures NeverWritten(events + [e], path, chunkSize) <==>
            NeverWritten(events, path, chunkSize) && !(Succeeds(e, chunkSize) && e.path == path)
  {
    var all := events + [e];
    assert all[|events|] == e && forall i :: 0 <= i < |events| ==> all[i] == events[i];
  }

  /** The plain map in terms of the past: a path exists once it was written to, is dead for good once it
      was deleted, and otherwise holds the last successfully written data, or nothing if every write
      to it failed. */
  lemma {:induction false} ViewIsHistory(events: seq<Event>, path: Bytes, data: Bytes, chunkSize: nat)
    requires chunkSize > 0
    ensures var v := AbstractRun(events, chunkSize);
            && (path in v <==> Created(events, path))
            && (path in v && v[path] == Tombstone <==> EverDeleted(events, path))
            && (path in v && v[path] == Live(data) <==>
                  && Created(events, path) && !EverDeleted(events, path)
                  && (LastWritten(events, path, data, chunkSize) ||
                      (data == [] && NeverWritten(events, path, chunkSize))))
    decreases |events|
  {
    if events != [] {
      var n := |events| - 1;
      assert events == events[..n] + [events[n]];
      ViewIsHistory(events[..n], path, data, chunkSize);
      OneMoreEvent(events[..n], events[n], path, data, chunkSize);
    }
  }

  /** What `ReadFile` returns after any run. */
  lemma {:induction false} ReadReturnsLastWrite(states: seq<FileSystem>, events: seq<Event>, path: Bytes,
                                                data: Bytes, universe: set<Bytes>, cfg: Config)
    requires cfg.chunkSize > 0 && Run(states, events, cfg) && Collisionless(events, universe, cfg)
    ensures var s := states[|events|];
            && WellFormed(s, cfg)
            && (Read(s, path) == NotFound <==> !Created(events, path))
            && (Read(s, path) == FileDeleted <==> EverDeleted(events, path))
            && (Read(s, path) == Data(data) <==>
                  && Created(events, path) && !EverDeleted(events, path)
                  && (LastWritten(events, path, data, cfg.chunkSize) ||
                      (data == [] && NeverWritten(events, path, cfg.chunkSize))))
  {
    RunRefines(states, events, universe, cfg);
    ReadRefines(states[|events|], path, cfg);
    ViewIsHistory(events, path, data, cfg.chunkSize);
  }
}

/** The state of the replicated file system as a value, and what it means to its users: a map from
    paths to contents with permanent tombstones (src/storage/replicated_fs.go). */
module FileStates {
  import opened Wrappers
  import opened Integers
  import opened ByteStrings
  import opened Chunking
  import opened CRDTDocuments

  datatype Config = Config(chunkSize: nat, replicationFactor: nat, sha: Hash)

  datatype Metadata = Metadata(
    id: Bytes,
    name: Bytes,
    path: Bytes,
    chunks: seq<ChunkID>,
    size: nat,
    version: nat,
    createdAt: Time,
    modifiedAt: Time,
    owner: Bytes,
    permissions: map<Bytes, bool>,
    replication: nat,
    deleted: bool)

  datatype FileSystem = FileSystem(
    files: map<Bytes, Metadata>,
    chunks: Chunks,
    pathIndex: map<Bytes, Bytes>)

  /** What an operation reports: an error, success without effect, or success with a document about the
      file, which the source puts into its document store. */
  datatype Outcome = Failed | Unchanged | Announced(doc: Document)

  function NewMetadata(id: Bytes, path: Bytes, size: nat, owner: Bytes, now: Time, cfg: Config): Metadata {
    Metadata(id, path, path, [], size, 1, now, now, owner, map[owner := true], cfg.replicationFactor, false)
  }

  /** Before any chunk is stored: the version and size of a known file, or a new empty file.  A
      deleted file stays deleted. */
  function Open(s: FileSystem, path: Bytes, size: nat, owner: Bytes, newID: Bytes, now: Time, cfg: Config): Metadata
    requires path in s.pathIndex ==> s.pathIndex[path] in s.files
  {
    if path in s.pathIndex then
      var m := s.files[s.pathIndex[path]];
      m.(version := m.version + 1, modifiedAt := now, size := size)
    else NewMetadata(newID, path, size, owner, now, cfg)
  }

  /** `newID` is the identifier drawn for a path that has none, and `failAt` is the number of chunks the
      persistent store accepts before it refuses one. */
  function Write(s: FileSystem, path: Bytes, data: Bytes, owner: Bytes, newID: Bytes, now: Time, failAt: nat,
                 cfg: Config): (FileSystem, Outcome)
    requires cfg.chunkSize > 0
    requires path in s.pathIndex ==> s.pathIndex[path] in s.files
  {
    var m := Open(s, path, |data|, owner, newID, now, cfg);
    var id := if path in s.pathIndex then s.pathIndex[path] else newID;
    var pieces := Pieces(data, cfg.chunkSize);
    if failAt < |pieces| then
      (FileSystem(s.files[id := m],
                  StorePieces(s.chunks, pieces[..failAt + 1], m.version, now, cfg.sha),
                  s.pathIndex[path := id]), Failed)
    else
      (FileSystem(s.files[id := m.(chunks := IDs(pieces, cfg.sha))],
                  StorePieces(s.chunks, pieces, m.version, now, cfg.sha),
                  s.pathIndex[path := id]), Announced(NewDocument(id, m.path, owner, now, now, now)))
  }

  datatype ReadResult = Data(data: Bytes) | NotFound | FileDeleted | ChunkMissing

  function Read(s: FileSystem, path: Bytes): ReadResult
    requires path in s.pathIndex ==> s.pathIndex[path] in s.files
  {
    if path !in s.pathIndex then NotFound
    else
      var m := s.files[s.pathIndex[path]];
      if m.deleted then FileDeleted
      else match Assemble(m.chunks, s.chunks)
        case None => ChunkMissing
        case Some(data) => Data(data)
  }

  /** Deletes a file, or fails if there is none.  Deleting twice does nothing. */
  function Delete(s: FileSystem, path: Bytes, owner: Bytes, now: Time): (FileSystem, Outcome)
    requires path in s.pathIndex ==> s.pathIndex[path] in s.files
  {
    if path !in s.pathIndex then (s, Failed)
    else
      var id := s.pathIndex[path];
      var m := s.files[id];
      if m.deleted then (s, Unchanged)
      else
        (s.(files := s.files[id := m.(deleted := true, modifiedAt := now, version := m.version + 1)]),
         Announced(DeleteDocument(NewDocument(id, path, owner, now, now, now), owner, now)))
  }

  /** What the operations keep: the index is consistent, no file refers to a missing chunk, and chunks
      are filed under the digest of their data. */
  predicate WellFormed(s: FileSystem, cfg: Config) {
    && cfg.chunkSize > 0
    && (forall p <- s.pathIndex :: s.pathIndex[p] in s.files && s.files[s.pathIndex[p]].path == p)
    && (forall id <- s.files :: s.files[id].id == id && forall h <- s.files[id].chunks :: h in s.chunks)
    && ContentAddressed(s.chunks, cfg.sha)
  }

  /** The state a user sees at one path. */
  datatype FileView = Live(content: Bytes) | Tombstone

  type View = map<Bytes, FileView>

  function ViewAt(s: FileSystem, m: Metadata): FileView {
    if m.deleted then Tombstone
    else match Assemble(m.chunks, s.chunks)
      case Some(data) => Live(data)
      case None => Live([])
  }

  function ViewOf(s: FileSystem, path: Bytes): Option<FileView>
    requires path in s.pathIndex ==> s.pathIndex[path] in s.files
  {
    if path in s.pathIndex then Some(ViewAt(s, s.files[s.pathIndex[path]])) else None
  }

  /** The abstract state: a plain map from paths to contents and tombstones. */
  function Abstract(s: FileSystem, cfg: Config): View
    requires WellFormed(s, cfg)
  {
    map p | p in s.pathIndex :: ViewOf(s, p).value
  }

  function Lookup(v: View, path: Bytes): Option<FileView> {
    if path in v then Some(v[path]) else None
  }

  lemma AbstractAgrees(s: FileSystem, cfg: Config, v: View)
    requires WellFormed(s, cfg) && forall p :: ViewOf(s, p) == Lookup(v, p)
    ensures Abstract(s, cfg) == v
  {
    forall p
      ensures Lookup(Abstract(s, cfg), p) == Lookup(v, p)
    {
      assert ViewOf(s, p) == Lookup(v, p);
    }
    SameLookups(Abstract(s, cfg), v);
  }

  lemma SameLookups(v: View, w: View)
    requires forall p :: Lookup(v, p) == Lookup(w, p)
    ensures v == w
  {
    forall p
      ensures p in v <==> p in w
      ensures p in v ==> v[p] == w[p]
    {
      assert Lookup(v, p) == Lookup(w, p);
    }
  }

  /** A successful write: it cannot bring a deleted path back. */
  function AbstractWrite(v: View, path: Bytes, data: Bytes): View {
    if path in v && v[path].Tombstone? then v else v[path := Live(data)]
  }

  /** A failed write: it leaves an empty file at a path that did not exist. */
  function AbstractFailedWrite(v: View, path: Bytes): View {
    if path in v then v else v[path := Live([])]
  }

  function AbstractDelete(v: View, path: Bytes): View {
    if path in v then v[path := Tombstone] else v
  }

  function AbstractRead(v: View, path: Bytes): ReadResult {
    if path !in v then NotFound
    else match v[path]
      case Tombstone => FileDeleted
      case Live(content) => Data(content)
  }

  /** Reading agrees with the plain map, and never finds a chunk missing. */
  lemma {:induction false} ReadRefines(s: FileSystem, path: Bytes, cfg: Config)
    requires WellFormed(s, cfg)
    ensures Read(s, path) == AbstractRead(Abstract(s, cfg), path)
    ensures Read(s, path) != ChunkMissing
  {
    if path in s.pathIndex {
      AssembleFinds(s.files[s.pathIndex[path]].chunks, s.chunks);
    }
  }

  /** No digest is shared by different byte strings among the stored chunks and the new pieces. */
  predicate NoCollisions(s: FileSystem, data: Bytes, universe: set<Bytes>, cfg: Config)
    requires cfg.chunkSize > 0
  {
    && CollisionFree(universe, cfg.sha) && Within(s.chunks, universe)
    && forall p <- Pieces(data, cfg.chunkSize) :: p in universe
  }

  predicate KeepsData(chunks: Chunks, stored: Chunks) {
    forall h <- chunks :: h in stored && stored[h].data == chunks[h].data
  }

  lemma LooksTheSame(m: Metadata, s: FileSystem, t: FileSystem)
    requires (forall h <- m.chunks :: h in s.chunks) && KeepsData(s.chunks, t.chunks)
    ensures ViewAt(t, m) == ViewAt(s, m)
  {
    AssembleSameData(m.chunks, s.chunks, t.chunks);
  }

  /** `t` is `s` with the file at `path`, old or new, replaced by `m`, and with more chunks. */
  predicate Replaced(s: FileSystem, t: FileSystem, path: Bytes, id: Bytes, m: Metadata, cfg: Config) {
    && WellFormed(s, cfg) && ContentAddressed(t.chunks, cfg.sha) && s.chunks.Keys <= t.chunks.Keys
    && (if path in s.pathIndex then id == s.pathIndex[path] else id !in s.files)
    && t.files == s.files[id := m] && t.pathIndex == s.pathIndex[path := id]
    && m.id == id && m.path == path && forall h <- m.chunks :: h in t.chunks
  }

  lemma ReplacedWellFormed(s: FileSystem, t: FileSystem, path: Bytes, id: Bytes, m: Metadata, cfg: Config)
    requires Replaced(s, t, path, id, m, cfg)
    ensures WellFormed(t, cfg)
  {
    forall i | i in t.files
      ensures t.files[i].id == i && forall h <- t.files[i].chunks :: h in t.chunks
    {
      assert i != id ==> i in s.files && forall h <- s.files[i].chunks :: h in s.chunks;
    }
    forall p | p in t.pathIndex
      ensures t.pathIndex[p] in t.files && t.files[t.pathIndex[p]].path == p
    {
    }
  }

  /** Every other path looks the same, although the files share their chunks. */
  lemma OthersLookTheSame(s: FileSystem, t: FileSystem, path: Bytes, id: Bytes, m: Metadata, cfg: Config, p: Bytes)
    requires Replaced(s, t, path, id, m, cfg) && KeepsData(s.chunks, t.chunks) && p != path
    ensures p in t.pathIndex ==> t.pathIndex[p] in t.files
    ensures ViewOf(t, p) == ViewOf(s, p)
  {
    if p in s.pathIndex {
      assert s.pathIndex[p] != id;
      LooksTheSame(s.files[s.pathIndex[p]], s, t);
    }
  }

  lemma ReplacedRefines(s: FileSystem, t: FileSystem, path: Bytes, id: Bytes, m: Metadata, cfg: Config)
    requires Replaced(s, t, path, id, m, cfg) && KeepsData(s.chunks, t.chunks)
    ensures WellFormed(t, cfg) && Abstract(t, cfg) == Abstract(s, cfg)[path := ViewAt(t, m)]
  {
    ReplacedWellFormed(s, t, path, id, m, cfg);
    var v := Abstract(s, cfg)[path := ViewAt(t, m)];
    forall p
      ensures ViewOf(t, p) == Lookup(v, p)
    {
      if p != path {
        OthersLookTheSame(s, t, path, id, m, cfg, p);
      }
    }
    AbstractAgrees(t, cfg, v);
  }

  /** The file a write leaves at its path, and the pieces it stores. */
  function Written(s: FileSystem, path: Bytes, data: Bytes, owner: Bytes, newID: Bytes, now: Time, failAt: nat,
                   cfg: Config): (Metadata, seq<Bytes>)
    requires cfg.chunkSize > 0
    requires path in s.pathIndex ==> s.pathIndex[path] in s.files
  {
    var m := Open(s, path, |data|, owner, newID, now, cfg);
    var pieces := Pieces(data, cfg.chunkSize);
    if failAt < |pieces| then (m, pieces[..failAt + 1]) else (m.(chunks := IDs(pieces, cfg.sha)), pieces)
  }

  lemma WriteReplaces(s: FileSystem, path: Bytes, data: Bytes, owner: Bytes, newID: Bytes, now: Time, failAt: nat,
                      cfg: Config)
    requires WellFormed(s, cfg) && (path !in s.pathIndex ==> newID !in s.files)
    ensures var t := Write(s, path, data, owner, newID, now, failAt, cfg).0;
            var (m, stored) := Written(s, path, data, owner, newID, now, failAt, cfg);
            && t.chunks == StorePieces(s.chunks, stored, m.version, now, cfg.sha)
            && Replaced(s, t, path, if path in s.pathIndex then s.pathIndex[path] else newID, m, cfg)
  {
    var (m, stored) := Written(s, path, data, owner, newID, now, failAt, cfg);
    var pieces := Pieces(data, cfg.chunkSize);
    StoreAddsPieces(s.chunks, stored, m.version, now, cfg.sha, {});
    var t := Write(s, path, data, owner, newID, now, failAt, cfg).0;
    forall h | h in m.chunks
      ensures h in t.chunks
    {
      if failAt >= |pieces| {
        var i :| 0 <= i < |pieces| && IDs(pieces, cfg.sha)[i] == h;
        assert pieces[i] in pieces;
      }
    }
  }

  /** What a write leaves in the chunk table when no digests collide. */
  lemma WriteKeepsData(s: FileSystem, path: Bytes, data: Bytes, owner: Bytes, newID: Bytes, now: Time,
                       failAt: nat, cfg: Config, universe: set<Bytes>)
    requires WellFormed(s, cfg) && NoCollisions(s, data, universe, cfg)
    ensures var (m, stored) := Written(s, path, data, owner, newID, now, failAt, cfg);
            var chunks := StorePieces(s.chunks, stored, m.version, now, cfg.sha);
            && KeepsData(s.chunks, chunks) && Within(chunks, universe)
            && (failAt >= |Pieces(data, cfg.chunkSize)| ==> Assemble(m.chunks, chunks) == Some(data))
  {
    var (m, stored) := Written(s, path, data, owner, newID, now, failAt, cfg);
    var pieces := Pieces(data, cfg.chunkSize);
    assert forall p <- stored :: p in pieces;
    StoreKeepsData(s.chunks, stored, m.version, now, cfg.sha, universe);
    StoreAddsPieces(s.chunks, stored, m.version, now, cfg.sha, universe);
    if failAt >= |pieces| {
      AssembleJoins(pieces, StorePieces(s.chunks, stored, m.version, now, cfg.sha), cfg.sha);
      PiecesShape(data, cfg.chunkSize);
    }
  }

  lemma WriteLooks(s: FileSystem, path: Bytes, data: Bytes, owner: Bytes, newID: Bytes, now: Time, failAt: nat,
                   cfg: Config, universe: set<Bytes>)
    requires WellFormed(s, cfg) && (path !in s.pathIndex ==> newID !in s.files)
    requires NoCollisions(s, data, universe, cfg)
    ensures var t := Write(s, path, data, owner, newID, now, failAt, cfg).0;
            var m := Written(s, path, data, owner, newID, now, failAt, cfg).0;
            && WellFormed(t, cfg) && Within(t.chunks, universe)
            && Abstract(t, cfg) == Abstract(s, cfg)[path := ViewAt(t, m)]
  {
    var t := Write(s, path, data, owner, newID, now, failAt, cfg).0;
    var m := Written(s, path, data, owner, newID, now, failAt, cfg).0;
    WriteReplaces(s, path, data, owner, newID, now, failAt, cfg);
    WriteKeepsData(s, path, data, owner, newID, now, failAt, cfg, universe);
    ReplacedRefines(s, t, path, if path in s.pathIndex then s.pathIndex[path] else newID, m, cfg);
  }

  lemma WrittenLooks(s: FileSystem, path: Bytes, data: Bytes, owner: Bytes, newID: Bytes, now: Time, failAt: nat,
                     cfg: Config, universe: set<Bytes>)
    requires WellFormed(s, cfg) && NoCollisions(s, data, universe, cfg)
    ensures var t := Write(s, path, data, owner, newID, now, failAt, cfg).0;
            var m := Written(s, path, data, owner, newID, now, failAt, cfg).0;
            var known := path in s.pathIndex;
            ViewAt(t, m) ==
              if known && s.files[s.pathIndex[path]].deleted then Tombstone
              else if failAt >= |Pieces(data, cfg.chunkSize)| then Live(data)
              else if known then ViewAt(s, s.files[s.pathIndex[path]])
              else Live([])
  {
    var (m, stored) := Written(s, path, data, owner, newID, now, failAt, cfg);
    var t := Write(s, path, data, owner, newID, now, failAt, cfg).0;
    WriteKeepsData(s, path, data, owner, newID, now, failAt, cfg, universe);
    assert t.chunks == StorePieces(s.chunks, stored, m.version, now, cfg.sha);
    if path in s.pathIndex && failAt < |Pieces(data, cfg.chunkSize)| {
      LooksTheSame(s.files[s.pathIndex[path]], s, t);
    }
  }

  /** Writing refines the plain map: a successful write replaces the content of a path that was never
      deleted and changes nothing else; a failed one changes no path that existed. */
  lemma {:induction false} WriteRefines(s: FileSystem, path: Bytes, data: Bytes, owner: Bytes, newID: Bytes,
                                        now: Time, failAt: nat, cfg: Config, universe: set<Bytes>)
    requires WellFormed(s, cfg) && (path !in s.pathIndex ==> newID !in s.files)
    requires NoCollisions(s, data, universe, cfg)
    ensures var (t, outcome) := Write(s, path, data, owner, newID, now, failAt, cfg);
            && WellFormed(t, cfg) && Within(t.chunks, universe)
            && (outcome.Failed? <==> failAt < |Pieces(data, cfg.chunkSize)|)
            && Abstract(t, cfg) ==
                 if !outcome.Failed? then AbstractWrite(Abstract(s, cfg), path, data)
                 else AbstractFailedWrite(Abstract(s, cfg), path)
  {
    WriteLooks(s, path, data, owner, newID, now, failAt, cfg, universe);
    WrittenLooks(s, path, data, owner, newID, now, failAt, cfg, universe);
    KnownLook(s, path, cfg);
  }

  lemma KnownLook(s: FileSystem, path: Bytes, cfg: Config)
    requires WellFormed(s, cfg)
    ensures var v := Abstract(s, cfg);
            && (path in v <==> path in s.pathIndex)
            && (path in v ==> v[path] == ViewAt(s, s.files[s.pathIndex[path]]) && v[path := v[path]] == v)
            && (path in v && s.files[s.pathIndex[path]].deleted <==> path in v && v[path] == Tombstone)
  {
    var v := Abstract(s, cfg);
    if path in v {
      assert v[path := v[path]] == v;
    }
  }

  /** Deleting puts a tombstone at an existing path, and reports a missing one. */
  lemma {:induction false} DeleteRefines(s: FileSystem, path: Bytes, owner: Bytes, now: Time, cfg: Config)
    requires WellFormed(s, cfg)
    ensures var (t, outcome) := Delete(s, path, owner, now);
            && WellFormed(t, cfg) && t.chunks == s.chunks
            && (outcome.Failed? <==> path !in Abstract(s, cfg))
            && (outcome.Announced? <==> Abstract(t, cfg) != Abstract(s, cfg))
            && Abstract(t, cfg) == AbstractDelete(Abstract(s, cfg), path)
  {
    var t := Delete(s, path, owner, now).0;
    if path in s.pathIndex && !s.files[s.pathIndex[path]].deleted {
      var id := s.pathIndex[path];
      assert t.pathIndex == s.pathIndex[path := id];
      ReplacedRefines(s, t, path, id, t.files[id], cfg);
    } else if path in s.pathIndex {
      assert Abstract(s, cfg)[path] == Tombstone;
    }
  }

  /** A failed write is invisible exactly at the paths that existed before; a path that did not exist
      becomes an empty file. */
  lemma {:induction false} FailedWriteReads(s: FileSystem, path: Bytes, data: Bytes, owner: Bytes, newID: Bytes,
                                            now: Time, failAt: nat, cfg: Config, universe: set<Bytes>,
                                            other: Bytes)
    requires WellFormed(s, cfg) && (path !in s.pathIndex ==> newID !in s.files)
    requires NoCollisions(s, data, universe, cfg)
    requires failAt < |Pieces(data, cfg.chunkSize)|
    ensures var t := Write(s, path, data, owner, newID, now, failAt, cfg).0;
            && WellFormed(t, cfg)
            && (other != path ==> Read(t, other) == Read(s, other))
            && (Read(t, path) == Read(s, path) <==> path in s.pathIndex)
            && (path !in s.pathIndex ==> Read(t, path) == Data([]))
  {
    WriteRefines(s, path, data, owner, newID, now, failAt, cfg, universe);
    var t := Write(s, path, data, owner, newID, now, failAt, cfg).0;
    ReadRefines(s, path, cfg);
    ReadRefines(t, path, cfg);
    ReadRefines(s, other, cfg);
    ReadRefines(t, other, cfg);
  }
}

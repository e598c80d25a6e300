/** The replicated file system itself (src/storage/replicated_fs.go). */
module ReplicatedFiles {
  import opened Wrappers
  import opened Integers
  import opened ByteStrings
  import opened Chunking
  import opened CRDTDocuments
  import opened CRDTStores
  import Announcements
  import opened FileStates

  class FileMetadata {
    const id: Bytes
    const name: Bytes
    const path: Bytes
    var chunks: seq<ChunkID>
    var size: nat
    var version: nat
    const createdAt: Time
    var modifiedAt: Time
    const owner: Bytes
    const permissions: map<Bytes, bool>
    const replication: nat
    var deleted: bool

    ghost function View(): Metadata
      reads this
    {
      Metadata(id, name, path, chunks, size, version, createdAt, modifiedAt, owner, permissions, replication, deleted)
    }

    constructor (id: Bytes, path: Bytes, size: nat, owner: Bytes, now: Time, cfg: Config)
      ensures View() == NewMetadata(id, path, size, owner, now, cfg)
    {
      this.id := id;
      name := path;
      this.path := path;
      chunks := [];
      this.size := size;
      version := 1;
      createdAt := now;
      modifiedAt := now;
      this.owner := owner;
      permissions := map[owner := true];
      replication := cfg.replicationFactor;
      deleted := false;
    }

    method Reopen(newSize: nat, now: Time)
      modifies this
      ensures View() == old(View()).(version := old(version) + 1, modifiedAt := now, size := newSize)
    {
      version := version + 1;
      modifiedAt := now;
      size := newSize;
    }

    method SetChunks(chunkIDs: seq<ChunkID>, newSize: nat)
      modifies this
      ensures View() == old(View()).(chunks := chunkIDs, size := newSize)
    {
      chunks := chunkIDs;
      size := newSize;
    }

    method MarkDeleted(now: Time)
      modifies this
      ensures View() == old(View()).(deleted := true, modifiedAt := now, version := old(version) + 1)
    {
      deleted := true;
      modifiedAt := now;
      version := version + 1;
    }
  }

  /** The document about a file, as the value `d`: new, or deleted at once if the file is `dead`. */
  ghost predicate About(d: Document, fileID: Bytes, path: Bytes, owner: Bytes, now: Time, dead: bool) {
    var live := NewDocument(fileID, path, owner, now, now, now);
    d == if dead then DeleteDocument(live, owner, now) else live
  }

  method MakeDocument(fileID: Bytes, path: Bytes, owner: Bytes, now: Time, dead: bool) returns (doc: CRDTDocument)
    ensures doc.Valid() && fresh(doc.repr) && About(doc.View(), fileID, path, owner, now, dead)
  {
    var data := new Byte[|path|](i requires 0 <= i < |path| => path[i]);
    assert data[..] == path;
    doc := new CRDTDocument(fileID, data, owner, now, now, now);
    if dead {
      doc.Delete(owner, now);
    }
  }

  /** Puts a document about a file into the store. */
  method Announce(store: CRDTStore, fileID: Bytes, path: Bytes, owner: Bytes, now: Time, dead: bool, ghost d: Document)
    requires store.Valid() && About(d, fileID, path, owner, now, dead)
    modifies store
    ensures store.Valid() && fresh(store.repr - old(store.repr))
    ensures store.contents == PutInto(old(store.contents), d)
  {
    var doc := MakeDocument(fileID, path, owner, now, dead);
    StandsAlone(store, doc);
    store.Put(doc);
  }

  lemma StandsAlone(store: CRDTStore, doc: CRDTDocument)
    requires store.Valid() && doc.Valid() && doc.repr !! store.repr
    ensures forall id <- store.documents ::
              store.documents[id].WritesApartFrom(doc) && doc.WritesApartFrom(store.documents[id])
  {
    forall id | id in store.documents
      ensures store.documents[id].WritesApartFrom(doc) && doc.WritesApartFrom(store.documents[id])
    {
      assert CRDTStore.Holds(store.documents[id], store.contents[id], store.repr);
    }
  }

  class ReplicatedFS {
    const cfg: Config
    const crdtStore: CRDTStore
    var files: map<Bytes, FileMetadata>
    var chunks: Chunks
    var pathIndex: map<Bytes, Bytes>

    /** The states of the objects in `files`.  Each object is filed under its own id, so no two
        entries share one. */
    ghost var metas: map<Bytes, Metadata>

    ghost predicate Filed()
      reads this, files.Values
    {
      && metas.Keys == files.Keys
      && forall id <- files :: files[id].View() == metas[id] && files[id].id == id
    }

    /** The file system without its document store. */
    ghost predicate WellFiled()
      reads this, files.Values
    {
      Filed() && WellFormed(View(), cfg)
    }

    /** The file system and the document store share no object. */
    ghost predicate Apart()
      reads this, crdtStore
    {
      this !in crdtStore.repr && files.Values !! crdtStore.repr
    }

    ghost predicate Valid()
      reads this, files.Values, crdtStore, crdtStore.repr
    {
      WellFiled() && crdtStore.Valid() && Apart()
    }

    ghost function View(): FileSystem
      reads this
    {
      FileSystem(metas, chunks, pathIndex)
    }

    /** Empty stores; the index is read back from a persistent store that is empty too. */
    constructor (crdtStore: CRDTStore, replicationFactor: int, chunkSize: int, sha: Hash)
      requires crdtStore.Valid()
      ensures Valid() && this.crdtStore == crdtStore && View() == FileSystem(map[], map[], map[])
      ensures cfg.sha == sha && cfg.replicationFactor == (if replicationFactor < 3 then 3 else replicationFactor)
      ensures cfg.chunkSize == if chunkSize <= 0 then 1024 * 1024 else chunkSize
    {
      this.crdtStore := crdtStore;
      cfg := Config(if chunkSize <= 0 then 1024 * 1024 else chunkSize,
                    if replicationFactor < 3 then 3 else replicationFactor,
                    sha);
      files := map[];
      chunks := map[];
      pathIndex := map[];
      metas := map[];
    }

    /** The metadata object an operation on `path` writes to. */
    ghost function Target(path: Bytes): set<object>
      reads this
    {
      if path in pathIndex && pathIndex[path] in files then {files[pathIndex[path]]} else {}
    }

    /** The metadata objects are those from before, besides perhaps a new one for the file `id`. */
    twostate predicate GainedAtMost(id: Bytes)
      reads this
    {
      files == old(files) ||
      (id !in old(files) && id in files && fresh(files[id]) && files == old(files)[id := files[id]])
    }

    /** Metadata of a known file, with a new version, time and size. */
    method Reopen(fileID: Bytes, size: nat, now: Time)
      requires Filed() && fileID in files
      modifies this`metas, files[fileID]
      ensures Filed()
      ensures var m := old(metas)[fileID];
              metas == old(metas)[fileID := m.(version := m.version + 1, modifiedAt := now, size := size)]
    {
      files[fileID].Reopen(size, now);
      metas := metas[fileID := files[fileID].View()];
      assert forall j <- files :: j != fileID ==> files[j].View() == metas[j];
    }

    /** Metadata of a new, empty file. */
    method Create(path: Bytes, fileID: Bytes, size: nat, owner: Bytes, now: Time)
      requires Filed() && fileID !in files
      modifies this`files, this`metas
      ensures Filed() && files.Keys == old(files.Keys) + {fileID} && fresh(files[fileID])
      ensures GainedAtMost(fileID)
      ensures metas == old(metas)[fileID := NewMetadata(fileID, path, size, owner, now, cfg)]
    {
      var metadata := new FileMetadata(fileID, path, size, owner, now, cfg);
      files := files[fileID := metadata];
      metas := metas[fileID := metadata.View()];
    }

    /** The first part of `WriteFile`: finds the metadata of a known path, or makes it for a new one. */
    method OpenFile(path: Bytes, size: nat, owner: Bytes, newID: Bytes, now: Time) returns (fileID: Bytes)
      requires Filed() && (if path in pathIndex then pathIndex[path] in files else newID !in files)
      modifies this`files, this`pathIndex, this`metas, Target(path)
      ensures Filed() && fileID in files
      ensures fileID == if path in old(pathIndex) then old(pathIndex)[path] else newID
      ensures metas == old(metas)[fileID := Open(old(View()), path, size, owner, newID, now, cfg)]
      ensures pathIndex == old(pathIndex)[path := fileID]
      ensures GainedAtMost(fileID)
    {
      if path in pathIndex {
        fileID := pathIndex[path];
        SameEntry(pathIndex, path);
        Reopen(fileID, size, now);
      } else {
        fileID := newID;
        CreateAt(path, newID, size, owner, now);
      }
    }

    static lemma SameEntry(index: map<Bytes, Bytes>, path: Bytes)
      requires path in index
      ensures index[path := index[path]] == index
    {
    }

    /** A new, empty file, filed under its path. */
    method CreateAt(path: Bytes, fileID: Bytes, size: nat, owner: Bytes, now: Time)
      requires Filed() && fileID !in files
      modifies this`files, this`metas, this`pathIndex
      ensures Filed() && fileID in files && GainedAtMost(fileID)
      ensures metas == old(metas)[fileID := NewMetadata(fileID, path, size, owner, now, cfg)]
      ensures pathIndex == old(pathIndex)[path := fileID]
    {
      Create(path, fileID, size, owner, now);
      pathIndex := pathIndex[path := fileID];
    }

    method StoreChunk(chunkData: Bytes, version: nat, now: Time) returns (chunkID: ChunkID)
      modifies this`chunks
      ensures chunkID == cfg.sha(chunkData)
      ensures chunks == old(chunks)[chunkID := NewChunk(chunkData, version, now, cfg.sha)]
    {
      chunkID := cfg.sha(chunkData);
      chunks := chunks[chunkID := Chunk(chunkID, chunkData, |chunkData|, version, now)];
    }

    /** How far the chunk loop is: `done` pieces are stored and listed, `rest` is to come. */
    ghost predicate Progress(before: Chunks, table: Chunks, chunkIDs: seq<ChunkID>, done: seq<Bytes>, data: Bytes,
                             i: nat, version: nat, now: Time)
      requires cfg.chunkSize > 0
    {
      && done + Remaining(data, i, cfg.chunkSize) == Pieces(data, cfg.chunkSize)
      && chunkIDs == IDs(done, cfg.sha)
      && table == StorePieces(before, done, version, now, cfg.sha)
    }

    lemma ProgressStep(before: Chunks, table: Chunks, chunkIDs: seq<ChunkID>, done: seq<Bytes>, data: Bytes,
                       i: nat, piece: Bytes, version: nat, now: Time)
      requires cfg.chunkSize > 0 && i < |data| && Progress(before, table, chunkIDs, done, data, i, version, now)
      requires piece == data[i..if i + cfg.chunkSize > |data| then |data| else i + cfg.chunkSize]
      ensures Progress(before, table[cfg.sha(piece) := NewChunk(piece, version, now, cfg.sha)],
                       chunkIDs + [cfg.sha(piece)],
                       done + [piece], data, i + cfg.chunkSize, version, now)
      ensures |done| < |Pieces(data, cfg.chunkSize)| && Pieces(data, cfg.chunkSize)[..|done| + 1] == done + [piece]
    {
      OneMoreDone(done, data, i, piece);
      OneMoreStored(before, done, piece, version, now);
    }

    lemma OneMoreDone(done: seq<Bytes>, data: Bytes, i: nat, piece: Bytes)
      requires cfg.chunkSize > 0 && i < |data|
      requires done + Remaining(data, i, cfg.chunkSize) == Pieces(data, cfg.chunkSize)
      requires piece == data[i..if i + cfg.chunkSize > |data| then |data| else i + cfg.chunkSize]
      ensures done + [piece] + Remaining(data, i + cfg.chunkSize, cfg.chunkSize) == Pieces(data, cfg.chunkSize)
      ensures |done| < |Pieces(data, cfg.chunkSize)| && Pieces(data, cfg.chunkSize)[..|done| + 1] == done + [piece]
    {
      NextPiece(data, i, cfg.chunkSize, piece);
      MoveOver(done, piece, Remaining(data, i, cfg.chunkSize), Remaining(data, i + cfg.chunkSize, cfg.chunkSize));
    }

    static lemma MoveOver(done: seq<Bytes>, piece: Bytes, rest: seq<Bytes>, later: seq<Bytes>)
      requires rest == [piece] + later
      ensures done + rest == done + [piece] + later
      ensures |done| < |done + rest| && (done + rest)[..|done| + 1] == done + [piece]
    {
    }

    lemma OneMoreStored(before: Chunks, done: seq<Bytes>, piece: Bytes, version: nat, now: Time)
      ensures IDs(done + [piece], cfg.sha) == IDs(done, cfg.sha) + [cfg.sha(piece)]
      ensures StorePieces(before, done + [piece], version, now, cfg.sha)
              == StorePieces(before, done, version, now, cfg.sha)
                 [cfg.sha(piece) := NewChunk(piece, version, now, cfg.sha)]
    {
      assert (done + [piece])[..|done|] == done;
    }

    static function Remaining(data: Bytes, i: nat, size: nat): seq<Bytes>
      requires size > 0
    {
      Pieces(if i < |data| then data[i..] else [], size)
    }

    static lemma NextPiece(data: Bytes, i: nat, size: nat, piece: Bytes)
      requires size > 0 && i < |data| && piece == data[i..if i + size > |data| then |data| else i + size]
      ensures Remaining(data, i, size) == [piece] + Remaining(data, i + size, size)
    {
      if i + size < |data| {
        assert data[i..][..size] == data[i..i + size] && data[i..][size..] == data[i + size..];
      } else {
        assert data[i..] == data[i..|data|];
      }
    }

    /** The pieces that reach the chunk table before one is refused. */
    ghost function Stored(data: Bytes, failAt: nat): seq<Bytes>
      requires cfg.chunkSize > 0
    {
      var pieces := Pieces(data, cfg.chunkSize);
      if failAt < |pieces| then pieces[..failAt + 1] else pieces
    }

    lemma RefusedHere(data: Bytes, done: seq<Bytes>, failAt: nat)
      requires cfg.chunkSize > 0 && |done| == failAt + 1
      requires |done| <= |Pieces(data, cfg.chunkSize)| && Pieces(data, cfg.chunkSize)[..|done|] == done
      ensures failAt < |Pieces(data, cfg.chunkSize)| && Stored(data, failAt) == done
    {
    }

    lemma AllDone(before: Chunks, table: Chunks, chunkIDs: seq<ChunkID>, done: seq<Bytes>, data: Bytes, i: nat,
                  version: nat, now: Time, failAt: nat)
      requires cfg.chunkSize > 0 && Progress(before, table, chunkIDs, done, data, i, version, now)
      requires i >= |data| && |done| <= failAt
      ensures failAt >= |Pieces(data, cfg.chunkSize)| && chunkIDs == IDs(Pieces(data, cfg.chunkSize), cfg.sha)
      ensures table == StorePieces(before, Stored(data, failAt), version, now, cfg.sha)
    {
      assert done + [] == done;
    }

    /** The chunk loop of `WriteFile`.  The persistent store accepts `failAt` chunks and refuses the next. */
    method StoreChunks(data: Bytes, version: nat, now: Time, failAt: nat) returns (chunkIDs: seq<ChunkID>, ok: bool)
      requires cfg.chunkSize > 0
      modifies this`chunks
      ensures ok <==> failAt >= |Pieces(data, cfg.chunkSize)|
      ensures ok ==> chunkIDs == IDs(Pieces(data, cfg.chunkSize), cfg.sha)
      ensures chunks == StorePieces(old(chunks), Stored(data, failAt), version, now, cfg.sha)
    {
      chunkIDs := [];
      ghost var before := chunks;
      ghost var done: seq<Bytes> := [];
      var i := 0;
      while i < |data|
        invariant 0 <= i && |done| <= failAt && |chunkIDs| == |done|
        invariant Progress(before, chunks, chunkIDs, done, data, i, version, now)
        decreases |data| - i
      {
        var end := i + cfg.chunkSize;
        if end > |data| {
          end := |data|;
        }
        ProgressStep(before, chunks, chunkIDs, done, data, i, data[i..end], version, now);
        var chunkID := StoreChunk(data[i..end], version, now);
        chunkIDs := chunkIDs + [chunkID];
        done := done + [data[i..end]];
        if |chunkIDs| > failAt {
          RefusedHere(data, done, failAt);
          return [], false;
        }
        i := i + cfg.chunkSize;
      }
      AllDone(before, chunks, chunkIDs, done, data, i, version, now, failAt);
      ok := true;
    }

    static lemma UpdatedTwice(before: map<Bytes, Metadata>, id: Bytes, m: Metadata, n: Metadata)
      ensures before[id := m][id := n] == before[id := n]
    {
    }

    /** Replaces the chunk list of a file. */
    method Finish(fileID: Bytes, chunkIDs: seq<ChunkID>, size: nat)
      requires Filed() && fileID in files
      modifies this`metas, files[fileID]
      ensures Filed()
      ensures metas == old(metas)[fileID := old(metas)[fileID].(chunks := chunkIDs, size := size)]
    {
      files[fileID].SetChunks(chunkIDs, size);
      metas := metas[fileID := files[fileID].View()];
      assert forall j <- files :: j != fileID ==> files[j].View() == metas[j];
    }

    /** The state after the chunk loop of a write: file `id` is open as `m`, and its pieces are stored. */
    ghost predicate Opened(s: FileSystem, t: FileSystem, path: Bytes, data: Bytes, owner: Bytes, newID: Bytes,
                           now: Time, failAt: nat, id: Bytes, m: Metadata)
      requires cfg.chunkSize > 0 && (path in s.pathIndex ==> s.pathIndex[path] in s.files)
    {
      && id == (if path in s.pathIndex then s.pathIndex[path] else newID)
      && m == Open(s, path, |data|, owner, newID, now, cfg)
      && t.files == s.files[id := m]
      && t.chunks == StorePieces(s.chunks, Stored(data, failAt), m.version, now, cfg.sha)
      && t.pathIndex == s.pathIndex[path := id]
    }

    /** `WriteFile` up to the end of the chunk loop. */
    method OpenAndStore(path: Bytes, data: Bytes, owner: Bytes, newID: Bytes, now: Time, failAt: nat)
      returns (fileID: Bytes, chunkIDs: seq<ChunkID>, ok: bool, ghost m: Metadata)
      requires Filed() && cfg.chunkSize > 0
      requires if path in pathIndex then pathIndex[path] in files else newID !in files
      modifies this, Target(path)
      ensures Filed() && fileID in files && GainedAtMost(fileID)
      ensures ok <==> failAt >= |Pieces(data, cfg.chunkSize)|
      ensures ok ==> chunkIDs == IDs(Pieces(data, cfg.chunkSize), cfg.sha)
      ensures Opened(old(View()), View(), path, data, owner, newID, now, failAt, fileID, m)
      ensures metas[fileID] == m && m.size == |data|
    {
      m := Open(View(), path, |data|, owner, newID, now, cfg);
      fileID := OpenFile(path, |data|, owner, newID, now);
      assert files[fileID].View() == metas[fileID];
      chunkIDs, ok := StoreChunks(data, files[fileID].version, now, failAt);
    }

    /** The parts that make up the state after a write, and its outcome. */
    ghost predicate Wrote(s: FileSystem, t: FileSystem, path: Bytes, data: Bytes, owner: Bytes, newID: Bytes,
                          now: Time, failAt: nat, id: Bytes, outcome: Outcome)
      requires cfg.chunkSize > 0 && (path in s.pathIndex ==> s.pathIndex[path] in s.files)
    {
      var before := Open(s, path, |data|, owner, newID, now, cfg);
      var pieces := Pieces(data, cfg.chunkSize);
      var ok := failAt >= |pieces|;
      && id == (if path in s.pathIndex then s.pathIndex[path] else newID)
      && t.files == s.files[id := if ok then before.(chunks := IDs(pieces, cfg.sha)) else before]
      && t.chunks == StorePieces(s.chunks, Stored(data, failAt), before.version, now, cfg.sha)
      && t.pathIndex == s.pathIndex[path := id]
      && outcome == if ok then Announced(NewDocument(id, before.path, owner, now, now, now)) else Failed
    }

    lemma WroteAll(s: FileSystem, t: FileSystem, path: Bytes, data: Bytes, owner: Bytes, newID: Bytes, now: Time,
                   failAt: nat, id: Bytes, outcome: Outcome)
      requires WellFormed(s, cfg) && (path !in s.pathIndex ==> newID !in s.files)
      requires Wrote(s, t, path, data, owner, newID, now, failAt, id, outcome)
      ensures t == Write(s, path, data, owner, newID, now, failAt, cfg).0
      ensures outcome == Write(s, path, data, owner, newID, now, failAt, cfg).1
      ensures WellFormed(t, cfg)
      ensures outcome.Announced? ==> id in t.files && About(outcome.doc, id, t.files[id].path, owner, now, false)
    {
      WriteReplaces(s, path, data, owner, newID, now, failAt, cfg);
      ReplacedWellFormed(s, t, path, id, t.files[id], cfg);
    }

    /** `WriteFile`, as far as the state goes. */
    method WriteParts(path: Bytes, data: Bytes, owner: Bytes, newID: Bytes, now: Time, failAt: nat)
      returns (outcome: Outcome, fileID: Bytes)
      requires Filed() && cfg.chunkSize > 0
      requires if path in pathIndex then pathIndex[path] in files else newID !in files
      modifies this, Target(path)
      ensures Filed() && GainedAtMost(fileID)
      ensures Wrote(old(View()), View(), path, data, owner, newID, now, failAt, fileID, outcome)
    {
      ghost var s := View();
      var chunkIDs, ok;
      ghost var m;
      fileID, chunkIDs, ok, m := OpenAndStore(path, data, owner, newID, now, failAt);
      ghost var t := View();
      if ok {
        outcome := FinishWrite(fileID, chunkIDs, |data|, owner, now, m);
      } else {
        outcome := Failed;
      }
      OpenedWrote(s, t, path, data, owner, newID, now, failAt, fileID, m, chunkIDs);
    }

    lemma OpenedWrote(s: FileSystem, t: FileSystem, path: Bytes, data: Bytes, owner: Bytes, newID: Bytes,
                      now: Time, failAt: nat, id: Bytes, m: Metadata, chunkIDs: seq<ChunkID>)
      requires cfg.chunkSize > 0 && (path in s.pathIndex ==> s.pathIndex[path] in s.files)
      requires Opened(s, t, path, data, owner, newID, now, failAt, id, m)
      ensures failAt < |Pieces(data, cfg.chunkSize)| ==>
                Wrote(s, t, path, data, owner, newID, now, failAt, id, Failed)
      ensures failAt >= |Pieces(data, cfg.chunkSize)| && chunkIDs == IDs(Pieces(data, cfg.chunkSize), cfg.sha) ==>
                Wrote(s, t.(files := t.files[id := m.(chunks := chunkIDs)]), path, data, owner, newID, now, failAt, id,
                      Announced(NewDocument(id, m.path, owner, now, now, now)))
    {
      UpdatedTwice(s.files, id, m, m.(chunks := chunkIDs));
    }

    /** The end of `WriteFile`, once every chunk is stored. */
    method FinishWrite(fileID: Bytes, chunkIDs: seq<ChunkID>, size: nat, owner: Bytes, now: Time, ghost m: Metadata)
      returns (outcome: Outcome)
      requires Filed() && fileID in files && metas[fileID] == m && m.size == size
      modifies this`metas, files[fileID]
      ensures Filed() && files == old(files)
      ensures View() == old(View()).(files := old(View()).files[fileID := m.(chunks := chunkIDs)])
      ensures outcome == Announced(NewDocument(fileID, m.path, owner, now, now, now))
    {
      Finish(fileID, chunkIDs, size);
      assert files[fileID].View() == metas[fileID];
      return Announced(NewDocument(fileID, files[fileID].path, owner, now, now, now));
    }

    /** `WriteFile` before the document store comes in. */
    method WriteLocally(path: Bytes, data: Bytes, owner: Bytes, newID: Bytes, now: Time, failAt: nat)
      returns (outcome: Outcome, fileID: Bytes)
      requires WellFiled() && (path !in pathIndex ==> newID !in files)
      modifies this, Target(path)
      ensures WellFiled() && GainedAtMost(fileID)
      ensures View() == Write(old(View()), path, data, owner, newID, now, failAt, cfg).0
      ensures outcome == Write(old(View()), path, data, owner, newID, now, failAt, cfg).1
      ensures outcome.Announced? ==>
                fileID in files && About(outcome.doc, fileID, files[fileID].path, owner, now, false)
    {
      ghost var s := View();
      outcome, fileID := WriteParts(path, data, owner, newID, now, failAt);
      WroteAll(s, View(), path, data, owner, newID, now, failAt, fileID, outcome);
      assert fileID in files ==> files[fileID].View() == metas[fileID];
    }

    /** `newID` is the identifier drawn for a new path.  `Failed` is the error a refused chunk causes;
        otherwise the document that went into the document store is returned, and the metadata is in
        `files` under its identifier. */
    method WriteFile(path: Bytes, data: Bytes, owner: Bytes, newID: Bytes, now: Time, failAt: nat)
      returns (outcome: Outcome)
      requires Valid() && (path !in pathIndex ==> newID !in files)
      modifies this, Target(path), crdtStore
      ensures Valid()
      ensures View() == Write(old(View()), path, data, owner, newID, now, failAt, cfg).0
      ensures outcome == Write(old(View()), path, data, owner, newID, now, failAt, cfg).1
      ensures crdtStore.contents == Announcements.Publish(old(crdtStore.contents), outcome)
    {
      var fileID;
      outcome, fileID := WriteBesideStore(path, data, owner, newID, now, failAt);
      if outcome.Announced? {
        PutBeside(fileID, files[fileID].path, owner, now, false, outcome.doc);
      }
    }

    method WriteBesideStore(path: Bytes, data: Bytes, owner: Bytes, newID: Bytes, now: Time, failAt: nat)
      returns (outcome: Outcome, fileID: Bytes)
      requires Valid() && (path !in pathIndex ==> newID !in files)
      modifies this, Target(path)
      ensures Valid() && crdtStore.contents == old(crdtStore.contents)
      ensures View() == Write(old(View()), path, data, owner, newID, now, failAt, cfg).0
      ensures outcome == Write(old(View()), path, data, owner, newID, now, failAt, cfg).1
      ensures outcome.Announced? ==>
                fileID in files && About(outcome.doc, fileID, files[fileID].path, owner, now, false)
    {
      WritesElsewhere(path);
      outcome, fileID := WriteLocally(path, data, owner, newID, now, failAt);
      StaysApart(fileID);
    }

    lemma WritesElsewhere(path: Bytes)
      requires Valid()
      ensures {this as object} + Target(path) !! {crdtStore as object} + crdtStore.repr
    {
    }

    /** The document store does not notice what happens to the files. */
    twostate lemma StaysApart(fileID: Bytes)
      requires old(Valid()) && WellFiled() && GainedAtMost(fileID)
      requires unchanged(crdtStore) && unchanged(crdtStore.repr)
      ensures Valid() && crdtStore.contents == old(crdtStore.contents)
    {
      ghost var storeValid := crdtStore.Valid();
      assert storeValid;
    }

    /** Puts a document into the document store, which does not concern the files. */
    method PutBeside(fileID: Bytes, path: Bytes, owner: Bytes, now: Time, dead: bool, ghost d: Document)
      requires Valid() && About(d, fileID, path, owner, now, dead)
      modifies crdtStore
      ensures Valid() && View() == old(View())
      ensures crdtStore.contents == PutInto(old(crdtStore.contents), d)
    {
      Announce(crdtStore, fileID, path, owner, now, dead, d);
      ghost var storeValid, wellFiled, apart := crdtStore.Valid(), WellFiled(), Apart();
      assert storeValid && wellFiled && apart;
    }

    method DeleteParts(path: Bytes, owner: Bytes, now: Time) returns (outcome: Outcome, fileID: Bytes)
      requires Filed() && (path in pathIndex ==> pathIndex[path] in files)
      modifies this, Target(path)
      ensures Filed()
      ensures View() == Delete(old(View()), path, owner, now).0
      ensures outcome == Delete(old(View()), path, owner, now).1
      ensures outcome.Announced? ==>
                fileID in files && About(outcome.doc, fileID, path, owner, now, true)
      ensures files == old(files)
    {
      if path !in pathIndex {
        return Failed, [];
      }
      fileID := pathIndex[path];
      assert files[fileID].View() == metas[fileID];
      if files[fileID].deleted {
        return Unchanged, fileID;
      }
      MarkDeleted(fileID, now);
      outcome := Announced(DeleteDocument(NewDocument(fileID, path, owner, now, now, now), owner, now));
    }

    method DeleteLocally(path: Bytes, owner: Bytes, now: Time) returns (outcome: Outcome, fileID: Bytes)
      requires WellFiled()
      modifies this, Target(path)
      ensures WellFiled()
      ensures View() == Delete(old(View()), path, owner, now).0
      ensures outcome == Delete(old(View()), path, owner, now).1
      ensures outcome.Announced? ==>
                fileID in files && About(outcome.doc, fileID, path, owner, now, true)
      ensures files == old(files)
    {
      DeleteRefines(View(), path, owner, now, cfg);
      outcome, fileID := DeleteParts(path, owner, now);
    }

    method DeleteFile(path: Bytes, owner: Bytes, now: Time) returns (outcome: Outcome)
      requires Valid()
      modifies this, Target(path), crdtStore
      ensures Valid()
      ensures View() == Delete(old(View()), path, owner, now).0
      ensures outcome == Delete(old(View()), path, owner, now).1
      ensures crdtStore.contents == Announcements.Publish(old(crdtStore.contents), outcome)
    {
      var fileID;
      outcome, fileID := DeleteBesideStore(path, owner, now);
      if outcome.Announced? {
        PutBeside(fileID, path, owner, now, true, outcome.doc);
      }
    }

    method DeleteBesideStore(path: Bytes, owner: Bytes, now: Time) returns (outcome: Outcome, fileID: Bytes)
      requires Valid()
      modifies this, Target(path)
      ensures Valid() && crdtStore.contents == old(crdtStore.contents)
      ensures View() == Delete(old(View()), path, owner, now).0
      ensures outcome == Delete(old(View()), path, owner, now).1
      ensures outcome.Announced? ==>
                fileID in files && About(outcome.doc, fileID, path, owner, now, true)
    {
      WritesElsewhere(path);
      outcome, fileID := DeleteLocally(path, owner, now);
      StaysApart(fileID);
    }

    method MarkDeleted(fileID: Bytes, now: Time)
      requires Filed() && fileID in files
      modifies this`metas, files[fileID]
      ensures Filed()
      ensures files == old(files)
      ensures var m := old(metas)[fileID];
              metas == old(metas)[fileID := m.(deleted := true, modifiedAt := now, version := m.version + 1)]
    {
      files[fileID].MarkDeleted(now);
      metas := metas[fileID := files[fileID].View()];
      assert forall j <- files :: j != fileID ==> files[j].View() == metas[j];
    }

    method ReadFile(path: Bytes) returns (result: ReadResult)
      requires WellFiled()
      ensures result == Read(View(), path)
    {
      if path !in pathIndex {
        return NotFound;
      }
      var metadata := files[pathIndex[path]];
      assert metadata.View() == metas[pathIndex[path]];
      if metadata.deleted {
        return FileDeleted;
      }
      var data: Bytes := [];
      for i := 0 to |metadata.chunks|
        invariant Assemble(metadata.chunks[..i], chunks) == Some(data)
      {
        var chunkID := metadata.chunks[i];
        assert metadata.chunks[..i + 1][..i] == metadata.chunks[..i];
        assert chunkID in metadata.chunks;
        if chunkID !in chunks {
          assert false;
          return ChunkMissing;
        }
        data := data + chunks[chunkID].data;
      }
      assert metadata.chunks[..|metadata.chunks|] == metadata.chunks;
      return Data(data);
    }

    /** The live paths that start with `prefix`, in no particular order. */
    method ListFiles(prefix: Bytes) returns (paths: seq<Bytes>)
      requires WellFiled()
      ensures Distinct(paths)
      ensures forall p :: p in paths <==>
                prefix <= p && p in Abstract(View(), cfg) && Abstract(View(), cfg)[p].Live?
    {
      paths := [];
      var todo := pathIndex.Keys;
      while todo != {}
        invariant todo <= pathIndex.Keys
        invariant Distinct(paths)
        invariant forall p :: p in paths <==>
                    p !in todo && prefix <= p && p in pathIndex && !metas[pathIndex[p]].deleted
        decreases todo
      {
        var p :| p in todo;
        var fileID := pathIndex[p];
        if fileID in files && !files[fileID].deleted {
          if prefix == [] || (|p| >= |prefix| && p[..|prefix|] == prefix) {
            paths := paths + [p];
          }
        }
        todo := todo - {p};
      }
    }
  }
}

/** Cutting a file into chunks and putting it together again (src/storage/replicated_fs.go). */
module Chunking {
  import opened Wrappers
  import opened ByteStrings
  import Numbers

  type ChunkID = Digest

  datatype Chunk = Chunk(id: ChunkID, data: Bytes, size: nat, version: nat, timestamp: int)

  type Chunks = map<ChunkID, Chunk>

  /** Consecutive pieces of `size` bytes; the last one may be shorter. */
  function Pieces(data: Bytes, size: nat): seq<Bytes>
    requires size > 0
    decreases |data|
  {
    if |data| == 0 then []
    else if |data| <= size then [data]
    else [data[..size]] + Pieces(data[size..], size)
  }

  function IDs(pieces: seq<Bytes>, sha: Hash): (ids: seq<ChunkID>)
    ensures |ids| == |pieces| && forall i :: 0 <= i < |ids| ==> ids[i] == sha(pieces[i])
  {
    seq(|pieces|, i requires 0 <= i < |pieces| => sha(pieces[i]))
  }

  function Join(pieces: seq<Bytes>): Bytes {
    if pieces == [] then [] else pieces[0] + Join(pieces[1..])
  }

  lemma OneMoreQuotient(n: nat, size: nat)
    requires size > 0
    ensures (n + size) / size == n / size + 1
  {
    var q, r := n / size, n % size;
    assert n + size == (q + 1) * size + r;
    QuotientUnique(n + size, size, q + 1, r);
  }

  lemma QuotientUnique(n: nat, size: nat, q: nat, r: nat)
    requires size > 0 && n == q * size + r && r < size
    ensures n / size == q
  {
    var p, k := n / size, n / size - q;
    Numbers.AtLeastOnce(k, size);
    assert k * size == p * size - q * size;
    assert n == p * size + n % size;
  }

  lemma {:induction false} PieceCount(data: Bytes, size: nat)
    requires size > 0
    ensures |Pieces(data, size)| == (|data| + size - 1) / size
    decreases |data|
  {
    if |data| == 0 {
      QuotientUnique(size - 1, size, 0, size - 1);
    } else if |data| <= size {
      QuotientUnique(|data| + size - 1, size, 1, |data| - 1);
    } else {
      PieceCount(data[size..], size);
      OneMoreQuotient(|data| - 1, size);
    }
  }

  lemma {:induction false} JoinPieces(data: Bytes, size: nat)
    requires size > 0
    ensures Join(Pieces(data, size)) == data
    decreases |data|
  {
    if |data| == 0 {
    } else if |data| <= size {
      assert Join([data]) == data + Join([]);
    } else {
      JoinPieces(data[size..], size);
      assert ([data[..size]] + Pieces(data[size..], size))[1..] == Pieces(data[size..], size);
      assert data == data[..size] + data[size..];
    }
  }

  /** A file has as many pieces as its length divided by the chunk size, rounded up; they are not
      empty, all but the last are full, and together they are the file. */
  lemma {:induction false} PiecesShape(data: Bytes, size: nat)
    requires size > 0
    ensures var pieces := Pieces(data, size);
            && |pieces| == (|data| + size - 1) / size
            && (forall i :: 0 <= i < |pieces| ==> 0 < |pieces[i]| <= size)
            && (forall i :: 0 <= i < |pieces| - 1 ==> |pieces[i]| == size)
            && Join(pieces) == data
    decreases |data|
  {
    PieceCount(data, size);
    JoinPieces(data, size);
    if |data| > size {
      PiecesShape(data[size..], size);
    }
  }

  /** Records pieces in the chunk table, later ones overwriting earlier ones with the same digest. */
  function StorePieces(chunks: Chunks, pieces: seq<Bytes>, version: nat, now: int, sha: Hash): Chunks
    decreases |pieces|
  {
    if pieces == [] then chunks
    else
      var n := |pieces| - 1;
      StorePieces(chunks, pieces[..n], version, now, sha)[sha(pieces[n]) := NewChunk(pieces[n], version, now, sha)]
  }

  function NewChunk(piece: Bytes, version: nat, now: int, sha: Hash): Chunk {
    Chunk(sha(piece), piece, |piece|, version, now)
  }

  /** What `ReadFile` appends up; `None` if a chunk is missing. */
  function Assemble(ids: seq<ChunkID>, chunks: Chunks): Option<Bytes>
    decreases |ids|
  {
    if ids == [] then Some([])
    else if ids[|ids| - 1] !in chunks then None
    else
      var front := Assemble(ids[..|ids| - 1], chunks);
      if front.None? then None else Some(front.value + chunks[ids[|ids| - 1]].data)
  }

  /** Every chunk is filed under the digest of its data, and knows that digest and its size. */
  predicate ContentAddressed(chunks: Chunks, sha: Hash) {
    forall h <- chunks :: sha(chunks[h].data) == h == chunks[h].id && chunks[h].size == |chunks[h].data|
  }

  /** No two byte strings of `universe` share a digest. */
  predicate CollisionFree(universe: set<Bytes>, sha: Hash) {
    forall x <- universe, y <- universe :: sha(x) == sha(y) ==> x == y
  }

  predicate Within(chunks: Chunks, universe: set<Bytes>) {
    forall h <- chunks :: chunks[h].data in universe
  }

  /** Storing pieces adds their digests, keeps the table content-addressed, and brings in no foreign data. */
  lemma {:induction false} StoreAddsPieces(chunks: Chunks, pieces: seq<Bytes>, version: nat, now: int, sha: Hash,
                                           universe: set<Bytes>)
    requires ContentAddressed(chunks, sha)
    ensures var stored := StorePieces(chunks, pieces, version, now, sha);
            && ContentAddressed(stored, sha)
            && chunks.Keys <= stored.Keys && (forall p <- pieces :: sha(p) in stored)
            && (forall p <- pieces :: stored[sha(p)].version == version && stored[sha(p)].timestamp == now)
            && (forall h <- stored :: (h in chunks && stored[h] == chunks[h]) || exists p <- pieces :: sha(p) == h)
            && (Within(chunks, universe) && (forall p <- pieces :: p in universe) ==> Within(stored, universe))
    decreases |pieces|
  {
    if pieces != [] {
      var n := |pieces| - 1;
      StoreAddsPieces(chunks, pieces[..n], version, now, sha, universe);
      assert forall p <- pieces :: p in pieces[..n] || p == pieces[n];
    }
  }

  /** Without collisions, sharing is harmless: every chunk keeps its data whatever is stored later. */
  lemma {:induction false} StoreKeepsData(chunks: Chunks, pieces: seq<Bytes>, version: nat, now: int, sha: Hash,
                                          universe: set<Bytes>)
    requires ContentAddressed(chunks, sha) && CollisionFree(universe, sha)
    requires Within(chunks, universe) && forall p <- pieces :: p in universe
    ensures var stored := StorePieces(chunks, pieces, version, now, sha);
            && (forall h <- chunks :: h in stored && stored[h].data == chunks[h].data)
            && (forall p <- pieces :: sha(p) in stored && stored[sha(p)].data == p)
  {
    StoreAddsPieces(chunks, pieces, version, now, sha, universe);
  }

  lemma {:induction false} AssembleSameData(ids: seq<ChunkID>, chunks: Chunks, stored: Chunks)
    requires forall h <- ids :: h in chunks && h in stored && stored[h].data == chunks[h].data
    ensures Assemble(ids, stored) == Assemble(ids, chunks)
    decreases |ids|
  {
    if ids != [] {
      AssembleSameData(ids[..|ids| - 1], chunks, stored);
    }
  }

  lemma {:induction false} JoinSnoc(pieces: seq<Bytes>, last: Bytes)
    ensures Join(pieces + [last]) == Join(pieces) + last
  {
    if pieces == [] {
      assert Join([last]) == last + Join([]);
    } else {
      assert (pieces + [last])[1..] == pieces[1..] + [last];
      JoinSnoc(pieces[1..], last);
    }
  }

  lemma {:induction false} AssembleJoins(pieces: seq<Bytes>, chunks: Chunks, sha: Hash)
    requires forall p <- pieces :: sha(p) in chunks && chunks[sha(p)].data == p
    ensures Assemble(IDs(pieces, sha), chunks) == Some(Join(pieces))
    decreases |pieces|
  {
    if pieces != [] {
      var n := |pieces| - 1;
      AssembleJoins(pieces[..n], chunks, sha);
      assert IDs(pieces, sha)[..n] == IDs(pieces[..n], sha);
      assert pieces == pieces[..n] + [pieces[n]];
      JoinSnoc(pieces[..n], pieces[n]);
    }
  }

  lemma {:induction false} AssembleFinds(ids: seq<ChunkID>, chunks: Chunks)
    requires forall h <- ids :: h in chunks
    ensures Assemble(ids, chunks).Some?
    decreases |ids|
  {
    if ids != [] {
      AssembleFinds(ids[..|ids| - 1], chunks);
    }
  }
}

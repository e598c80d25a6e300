/** The proof of work of node identifiers and of connections (src/p2p/pow.go and src/p2p/gas.go). */
module NodeProofs {
  import opened Integers
  import opened ByteStrings
  import opened Numbers
  import opened NodeIDs
  import opened ProofOfWork

  /** Lays out the prefix followed by the nonce, and hashes the buffer. */
  method HashWithNonce(sha: Hash, pubKey: Bytes, nonce: Uint64) returns (hash: Digest)
    ensures hash == sha(Block(pubKey, nonce))
  {
    var n := |pubKey|;
    var data := new Byte[n + 8];
    forall i | 0 <= i < n {
      data[i] := pubKey[i];
    }
    var encoded := BigEndianBytes(nonce, 8);
    forall i | 0 <= i < 8 {
      data[n + i] := encoded[i];
    }
    assert data[..] == Block(pubKey, nonce);
    return sha(data[..]);
  }

  /** At least 0 and at most 32. */
  function Capped(bits: int): nat {
    if bits < 0 then 0 else if bits > 32 then 32 else bits
  }

  /** Looks at whole bytes, then at the bits of the next one shifted down. */
  method CheckPoW(hash: Digest, bits: int) returns (ok: bool)
    ensures ok <==> CheckAccepts(hash, bits)
    ensures ok <==> BigEndian(hash) < Pow2(256 - Capped(bits))
  {
    if bits <= 0 {
      BigEndianBound(hash);
      return true;
    }
    var limited := if bits > 32 then 32 else bits;
    var bytes, remaining := limited / 8, limited % 8;
    SplitBits(hash, limited);
    for i := 0 to bytes
      invariant forall j :: 0 <= j < i ==> hash[j] == 0
    {
      if hash[i] != 0 {
        return false;
      }
    }
    if remaining > 0 {
      ShiftTest(hash[bytes], remaining);
      if hash[bytes] >> (8 - remaining) != 0 {
        return false;
      }
    }
    return true;
  }

  /** A number of bits as whole bytes and a rest. */
  lemma SplitBits(hash: Digest, bits: nat)
    requires bits <= DIGEST_BITS
    ensures var k, r := bits / 8, bits % 8;
            && (r == 0 ==> (Meets(hash, bits) <==> forall i :: 0 <= i < k ==> hash[i] == 0))
            && (r > 0 ==>
                  (Meets(hash, bits) <==> (forall i :: 0 <= i < k ==> hash[i] == 0) && (hash[k] as nat) < Pow2(8 - r)))
  {
    var k, r := bits / 8, bits % 8;
    if r == 0 {
      WholeBytes(hash, k);
    } else {
      LeadingBits(hash, k, r);
    }
  }

  /** The least passing nonce below the bound, or none if there is none. */
  method FindNonce(sha: Hash, pubKey: Bytes, bits: int, maxAttempts: Uint64)
    returns (nonce: Uint64, hash: Digest, ok: bool)
    ensures ok ==> nonce < maxAttempts && hash == sha(Block(pubKey, nonce)) && FirstPassing(sha, pubKey, bits, nonce)
    ensures !ok ==> nonce == 0 && AllZero(hash) && NonePasses(sha, pubKey, bits, maxAttempts)
  {
    nonce := 0;
    while nonce < maxAttempts
      invariant nonce <= maxAttempts && NonePasses(sha, pubKey, bits, nonce)
      decreases maxAttempts - nonce
    {
      hash := HashWithNonce(sha, pubKey, nonce);
      var passes := CheckPoW(hash, bits);
      if passes {
        return nonce, hash, true;
      }
      OneMoreTried(sha, pubKey, nonce);
      nonce := nonce + 1;
    }
    return 0, ZeroDigest(), false;
  }

  /** The identifier is the first 20 bytes of a passing digest. */
  predicate ValidNodeID(sha: Hash, nodeID: NodeID, pubKey: Bytes, nonce: Uint64, bits: int) {
    var hash := sha(Block(pubKey, nonce));
    nodeID == hash[..20] && CheckAccepts(hash, bits)
  }

  method ValidateNodeID(sha: Hash, nodeID: NodeID, pubKey: Bytes, nonce: Uint64, bits: int) returns (ok: bool)
    ensures ok <==> ValidNodeID(sha, nodeID, pubKey, nonce, bits)
    ensures var hash := sha(Block(pubKey, nonce));
            ok <==> nodeID == hash[..20] && BigEndian(hash) < Pow2(256 - Capped(bits))
  {
    var expected := HashWithNonce(sha, pubKey, nonce);
    for i := 0 to 20
      invariant nodeID[..i] == expected[..i]
    {
      if expected[i] != nodeID[i] {
        assert expected[..20][i] != nodeID[i];
        return false;
      }
    }
    assert nodeID == nodeID[..20];
    ok := CheckPoW(expected, bits);
  }

  const DEFAULT_DIFFICULTY: int := 4
  const MAX_ATTEMPTS: Uint64 := 1_000_000

  ghost predicate SomeNoncePasses(sha: Hash, pubKey: Bytes) {
    exists n: Uint64 :: n < 1_000_000 && Passes(sha, pubKey, n, 4)
  }

  /** The identifier of a key: made of the first passing digest, or of the bare key if no nonce within the
      attempts passes.  Some nonce within the attempts validates it if and only if some nonce passes. */
  method GenerateNodeIDFromPubKey(sha: Hash, pubKey: Bytes) returns (id: NodeID)
    ensures (exists n: Uint64 :: n < 1_000_000 && ValidNodeID(sha, id, pubKey, n, 4))
       <==> SomeNoncePasses(sha, pubKey)
    ensures SomeNoncePasses(sha, pubKey) ==>
              exists n: Uint64 :: FirstPassing(sha, pubKey, 4, n) && id == sha(Block(pubKey, n))[..20]
    ensures !SomeNoncePasses(sha, pubKey) ==> id == sha(pubKey)[..20]
  {
    var nonce, hash, found := FindNonce(sha, pubKey, DEFAULT_DIFFICULTY, MAX_ATTEMPTS);
    if !found {
      hash := sha(pubKey);
    }
    id := hash[..20];
    if found {
      assert Passes(sha, pubKey, nonce, DEFAULT_DIFFICULTY) && ValidNodeID(sha, id, pubKey, nonce, DEFAULT_DIFFICULTY);
    }
    forall n: Uint64 | n < MAX_ATTEMPTS && ValidNodeID(sha, id, pubKey, n, DEFAULT_DIFFICULTY)
      ensures Passes(sha, pubKey, n, DEFAULT_DIFFICULTY)
    {
    }
  }

  /** What `FindNonce` finds validates exactly the identifier made of the digest it returns, at that
      difficulty and every lower one, and up to 32 bits it also passes the other two tests. */
  lemma {:induction false} FoundNonceIsValid(sha: Hash, pubKey: Bytes, bits: int, nonce: Uint64, nodeID: NodeID,
                                             lower: int)
    requires FirstPassing(sha, pubKey, bits, nonce) && lower <= bits
    ensures ValidNodeID(sha, nodeID, pubKey, nonce, lower) <==> nodeID == sha(Block(pubKey, nonce))[..20]
    ensures bits <= CHECK_LIMIT ==> GasVerdict(sha(Block(pubKey, nonce)), bits) == Accepted
    ensures 0 <= bits <= CHECK_LIMIT ==> Solves(sha, pubKey, nonce, bits)
  {
    var hash := sha(Block(pubKey, nonce));
    CheckMonotone(hash, lower, bits);
    if 0 <= bits {
      TestsAgree(hash, bits);
    }
  }

  lemma CheckMonotone(hash: Digest, lower: int, bits: int)
    requires CheckAccepts(hash, bits) && lower <= bits
    ensures CheckAccepts(hash, lower)
  {
    var l := if lower <= 0 then 0 else if lower > 32 then 32 else lower;
    var b := if bits <= 0 then 0 else if bits > 32 then 32 else bits;
    MeetsMonotone(hash, l, b);
  }

  /** Looks at whole bytes, then at the bits of the next one under a mask.  Asking for more bits than there
      are runs off the end of an all-zero digest. */
  method VerifyPoW(sha: Hash, challenge: Bytes, nonce: Uint64, difficulty: int) returns (verdict: Verdict)
    ensures verdict == GasVerdict(sha(Block(challenge, nonce)), difficulty)
  {
    if difficulty <= 0 {
      return Accepted;
    }
    var hash := HashWithNonce(sha, challenge, nonce);
    var bytes, remaining := difficulty / 8, difficulty % 8;
    if difficulty <= DIGEST_BITS {
      SplitBits(hash, difficulty);
    }
    for i := 0 to bytes
      invariant i <= 32
      invariant forall j :: 0 <= j < i ==> hash[j] == 0
    {
      if i == 32 {
        return Panicked;
      }
      if hash[i] != 0 {
        return Rejected;
      }
    }
    if remaining > 0 {
      if bytes == 32 {
        return Panicked;
      }
      var mask: Byte := 0xFF << (8 - remaining);
      MaskTest(hash[bytes], remaining);
      if hash[bytes] & mask != 0 {
        return Rejected;
      }
    }
    return Accepted;
  }
}

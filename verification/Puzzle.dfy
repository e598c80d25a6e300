/** The puzzle that guards the creation of identities (src/crypto/puzzle.go). */
module Puzzles {
  import opened Wrappers
  import opened Integers
  import opened ByteStrings
  import opened Numbers
  import opened ProofOfWork

  function Add32(a: Uint32, b: Uint32): Uint32 {
    if a + b < TWO32 then a + b else a + b - TWO32
  }

  lemma CountOn(count: nat, total: Uint32, zeros: Uint32)
    requires total == count % TWO32
    ensures Add32(total, zeros) == (count + zeros) % TWO32
  {
  }

  /** The zero bits before the first one bit, as far as 32 bits can count. */
  method CountLeadingZeroBits(data: Bytes) returns (total: Uint32)
    ensures total == LeadingZeros(data) % TWO32
  {
    total := 0;
    ghost var count := 0;
    for i := 0 to |data|
      invariant count >= 0 && count + LeadingZeros(data[i..]) == LeadingZeros(data)
      invariant total == count % TWO32
    {
      assert data[i..][1..] == data[i + 1..];
      var zeros := if data[i] == 0 then 8 else LeadingZeros8(data[i]);
      CountOn(count, total, zeros);
      total := Add32(total, zeros);
      count := count + zeros;
      if data[i] != 0 {
        return;
      }
    }
  }

  /** A digest has too few bits for the count to wrap around. */
  lemma DigestZerosFit(hash: Digest)
    ensures LeadingZeros(hash) % TWO32 == LeadingZeros(hash)
  {
    LeadingZerosMeaning(hash, 257);
  }

  method VerifyNonceOf(sha: Hash, did: Bytes, nonce: Uint64, difficulty: Uint32) returns (ok: bool)
    ensures ok <==> Solves(sha, did, nonce, difficulty)
  {
    var nonceBytes := BigEndianBytes(nonce, 8);
    var block := [];
    block := block + did;
    block := block + nonceBytes;
    assert block == Block(did, nonce);
    var leadingZeros := CountLeadingZeroBits(sha(block));
    DigestZerosFit(sha(block));
    return leadingZeros >= difficulty;
  }

  /** Within the bound there is no solution from difficulty 56 on. */
  lemma HardPuzzlesFail(sha: Hash, did: Bytes, nonce: Uint64, difficulty: Uint32)
    requires nonce < MaxIterations(difficulty) && Solves(sha, did, nonce, difficulty)
    ensures difficulty < 56
  {
    TestsAgree(sha(Block(did, nonce)), difficulty);
  }

  class PoWPuzzle {
    const targetDID: Bytes
    const difficulty: Uint32
    var nonce: Uint64

    constructor (did: Bytes, difficulty: Uint32)
      ensures targetDID == did && this.difficulty == difficulty && nonce == 0
    {
      targetDID := did;
      this.difficulty := difficulty;
      nonce := 0;
    }

    /** Finds the least solution below the bound and keeps it, or leaves the puzzle as it was when
        there is none. */
    method SolvePuzzle(sha: Hash) returns (found: Option<Uint64>)
      modifies this`nonce
      ensures found.Some? ==>
                nonce == found.value < MaxIterations(difficulty)
                    && FirstSolving(sha, targetDID, difficulty, found.value)
      ensures found.None? ==>
                nonce == old(nonce) && NoneSolves(sha, targetDID, difficulty, MaxIterations(difficulty))
      ensures difficulty < 56 ==>
                if found.None? then NoneSolves(sha, targetDID, difficulty, 256 * Pow2(difficulty))
                else found.value < 256 * Pow2(difficulty)
      ensures difficulty >= 56 ==> found.None?
    {
      IterationsAre(difficulty);
      var candidate: Uint64 := 0;
      var maxIterations := MaxIterations(difficulty);
      while candidate < maxIterations
        invariant candidate <= maxIterations && nonce == old(nonce)
        invariant NoneSolves(sha, targetDID, difficulty, candidate)
        decreases maxIterations - candidate
      {
        var ok := VerifyNonceOf(sha, targetDID, candidate, difficulty);
        if ok {
          HardPuzzlesFail(sha, targetDID, candidate, difficulty);
          nonce := candidate;
          return Some(candidate);
        }
        OneMoreTried(sha, targetDID, candidate);
        candidate := candidate + 1;
      }
      return None;
    }

    method VerifyNonce(sha: Hash) returns (ok: bool)
      ensures ok <==> Solves(sha, targetDID, nonce, difficulty)
    {
      ok := VerifyNonceOf(sha, targetDID, nonce, difficulty);
    }
  }

  datatype Validation = Validated(nonce: Uint64) | InvalidIdentity | NotSolved | NotVerified

  /** Solving and checking in one go, for an identity that may lack an identifier.  What was solved always
      verifies, so the last error is never reported, and otherwise it succeeds exactly when some nonce below
      the bound is a solution. */
  method ValidateIdentityWithPoW(sha: Hash, identity: Option<Bytes>, difficulty: Uint32) returns (r: Validation)
    ensures !r.NotVerified? && (r.InvalidIdentity? <==> identity.None?)
    ensures r.Validated? ==>
              r.nonce < MaxIterations(difficulty) && FirstSolving(sha, identity.value, difficulty, r.nonce)
    ensures r.NotSolved? ==> NoneSolves(sha, identity.value, difficulty, MaxIterations(difficulty))
    ensures difficulty < 56 && r.NotSolved? ==> NoneSolves(sha, identity.value, difficulty, 256 * Pow2(difficulty))
    ensures difficulty >= 56 ==> !r.Validated?
  {
    if identity.None? {
      return InvalidIdentity;
    }
    var puzzle := new PoWPuzzle(identity.value, difficulty);
    var found := puzzle.SolvePuzzle(sha);
    if found.None? {
      return NotSolved;
    }
    var verified := puzzle.VerifyNonce(sha);
    if !verified {
      return NotVerified;
    }
    return Validated(puzzle.nonce);
  }
}

/** What the proof-of-work tests mean: a digest, read as a number, is below a power of two
    (src/p2p/pow.go, src/p2p/gas.go and src/crypto/puzzle.go). */
module ProofOfWork {
  import opened Integers
  import opened ByteStrings
  import opened Numbers

  const DIGEST_BITS: nat := 256
  const CHECK_LIMIT: nat := 32

  predicate AllZero(s: Bytes) {
    forall i :: 0 <= i < |s| ==> s[i] == 0
  }

  function ZeroDigest(): (d: Digest)
    ensures AllZero(d)
  {
    seq(32, _ => 0)
  }

  /** The first `bits` bits are zero. */
  predicate Meets(hash: Digest, bits: nat) {
    bits <= DIGEST_BITS && BigEndian(hash) < Pow2(DIGEST_BITS - bits)
  }

  /** `binary.BigEndian.PutUint64`, for any width. */
  function BigEndianBytes(v: nat, width: nat): (s: Bytes)
    ensures |s| == width
  {
    if width == 0 then [] else BigEndianBytes(v / 256, width - 1) + [ToByte(v % 256)]
  }

  lemma {:induction false} BigEndianBytesRoundTrip(v: nat, width: nat)
    requires v < Pow2(8 * width)
    ensures BigEndian(BigEndianBytes(v, width)) == v
  {
    if width > 0 {
      Pow2Plus8(8 * (width - 1));
      var front, r := BigEndianBytes(v / 256, width - 1), v % 256;
      BigEndianBytesRoundTrip(v / 256, width - 1);
      assert (front + [ToByte(r)])[..width - 1] == front;
    }
  }

  /** The bytes that are hashed. */
  function Block(prefix: Bytes, nonce: Uint64): Bytes {
    prefix + BigEndianBytes(nonce, 8)
  }

  /** Different nonces, or different prefixes, are never hashed as the same bytes. */
  lemma {:induction false} BlocksDiffer(p: Bytes, m: Uint64, q: Bytes, n: Uint64)
    requires Block(p, m) == Block(q, n)
    ensures p == q && m == n
  {
    var x, y := BigEndianBytes(m, 8), BigEndianBytes(n, 8);
    assert p == Block(p, m)[..|p|] && x == Block(p, m)[|p|..];
    assert q == Block(q, n)[..|q|] && y == Block(q, n)[|q|..];
    assert Pow2(64) == TWO64 by { Pow2Of64(); }
    BigEndianBytesRoundTrip(m, 8);
    BigEndianBytesRoundTrip(n, 8);
  }

  /** The block is the prefix followed by the eight bytes of the nonce, most significant first. */
  lemma {:induction false} BlockLayout(prefix: Bytes, nonce: Uint64)
    ensures var block, n := Block(prefix, nonce), |prefix|;
            && |block| == n + 8 && block[..n] == prefix && BigEndian(block[n..]) == nonce
  {
    assert Block(prefix, nonce)[|prefix|..] == BigEndianBytes(nonce, 8);
    Pow2Of64();
    BigEndianBytesRoundTrip(nonce, 8);
  }

  lemma Scale(a: nat, b: nat, c: nat, p: nat)
    requires b < p
    ensures a * p + b < c * p <==> a < c
  {
    if a < c {
      assert (a + 1) * p <= c * p;
    } else {
      assert c * p <= a * p;
    }
  }

  /** The order of two numbers is that of their first bytes, unless those agree. */
  lemma FirstByteDecides(s: Bytes, r: nat)
    requires s != [] && r <= 8
    ensures BigEndian(s) < Pow2(8 * |s| - r) <==> (s[0] as nat) < Pow2(8 - r)
  {
    var rest := s[1..];
    var p := Pow2(8 * |rest|);
    assert s == s[..1] + rest && s[..1][..0] == [];
    BigEndianConcat(s[..1], rest);
    BigEndianBound(rest);
    Pow2Sum(8 - r, 8 * |rest|);
    Scale(s[0] as nat, BigEndian(rest), Pow2(8 - r), p);
    assert BigEndian(s[..1]) == s[0] as nat;
    assert 8 * |s| - r == 8 - r + 8 * |rest|;
  }

  lemma {:induction false} SkipZeros(s: Bytes, k: nat)
    requires k <= |s| && forall i :: 0 <= i < k ==> s[i] == 0
    ensures BigEndian(s) == BigEndian(s[k..])
  {
    assert s == s[..k] + s[k..];
    BigEndianConcat(s[..k], s[k..]);
    BigEndianZero(s[..k]);
  }

  /** A non-zero byte makes the number at least a power of two. */
  lemma NonZeroByte(s: Bytes, k: nat, i: nat)
    requires i < k <= |s| && s[i] != 0
    ensures BigEndian(s) >= Pow2(8 * (|s| - k))
  {
    assert s == s[..k] + s[k..];
    BigEndianConcat(s[..k], s[k..]);
    BigEndianZero(s[..k]);
    assert s[..k][i] != 0;
    AtLeastOnce(BigEndian(s[..k]), Pow2(8 * |s[k..]|));
  }

  /** Whole bytes first, then the bits of the next one. */
  lemma {:induction false} LeadingBits(s: Bytes, k: nat, r: nat)
    requires k < |s| && r < 8
    ensures BigEndian(s) < Pow2(8 * |s| - 8 * k - r)
       <==> (forall i :: 0 <= i < k ==> s[i] == 0) && (s[k] as nat) < Pow2(8 - r)
  {
    if forall i :: 0 <= i < k ==> s[i] == 0 {
      SkipZeros(s, k);
      FirstByteDecides(s[k..], r);
    } else {
      var i :| 0 <= i < k && s[i] != 0;
      NonZeroByte(s, k, i);
      Pow2Monotone(8 * |s| - 8 * k - r, 8 * (|s| - k));
    }
  }

  lemma WholeBytes(s: Bytes, k: nat)
    requires k <= |s|
    ensures BigEndian(s) < Pow2(8 * |s| - 8 * k) <==> forall i :: 0 <= i < k ==> s[i] == 0
  {
    if forall i :: 0 <= i < k ==> s[i] == 0 {
      SkipZeros(s, k);
      BigEndianBound(s[k..]);
    } else {
      var i :| 0 <= i < k && s[i] != 0;
      NonZeroByte(s, k, i);
    }
  }

  lemma ShiftTest(b: Byte, r: nat)
    requires r <= 8
    ensures b >> (8 - r) == 0 <==> (b as nat) < Pow2(8 - r)
  {
    Pow2Byte();
    if {
      case r == 0 =>
      case r == 1 =>
      case r == 2 =>
      case r == 3 =>
      case r == 4 =>
      case r == 5 =>
      case r == 6 =>
      case r == 7 =>
      case r == 8 =>
    }
  }

  lemma MaskTest(b: Byte, r: nat)
    requires r <= 8
    ensures b & (0xFF << (8 - r)) == 0 <==> (b as nat) < Pow2(8 - r)
  {
    Pow2Byte();
    if {
      case r == 0 =>
      case r == 1 =>
      case r == 2 =>
      case r == 3 =>
      case r == 4 =>
      case r == 5 =>
      case r == 6 =>
      case r == 7 =>
      case r == 8 =>
    }
  }

  /** `bits.LeadingZeros8`. */
  function LeadingZeros8(b: Byte): (n: nat)
    ensures n <= 8
  {
    if b == 0 then 8 else
      ByteLog(b as nat, 8);
      7 - Log2(b as nat)
  }

  lemma ByteLog(v: nat, k: nat)
    requires 0 < v < 256 && k <= 8
    ensures Log2(v) < k <==> v < Pow2(k)
    ensures Log2(v) < 8
  {
    Pow2Byte();
    if Log2(v) < k { Pow2Monotone(Log2(v) + 1, k); } else { Pow2Monotone(k, Log2(v)); }
    if 8 <= Log2(v) { Pow2Monotone(8, Log2(v)); }
  }

  function LeadingZeros(s: Bytes): nat {
    if s == [] then 0 else if s[0] == 0 then 8 + LeadingZeros(s[1..]) else LeadingZeros8(s[0])
  }

  /** Counting zeros is comparing numbers. */
  lemma {:induction false} LeadingZerosMeaning(s: Bytes, d: nat)
    ensures LeadingZeros(s) >= d <==> d <= 8 * |s| && BigEndian(s) < Pow2(8 * |s| - d)
  {
    if s == [] {
    } else if s[0] != 0 {
      NonZeroStart(s, d);
    } else if d <= 8 {
      SkipZeros(s, 1);
      BigEndianBound(s[1..]);
      Pow2Monotone(8 * |s| - 8, 8 * |s| - d);
    } else {
      SkipZeros(s, 1);
      LeadingZerosMeaning(s[1..], d - 8);
    }
  }

  lemma ByteZeros(b: Byte, v: nat, d: nat)
    requires b != 0 && v == b as nat
    ensures LeadingZeros8(b) >= d <==> d < 8 && v < Pow2(8 - d)
  {
    assert 0 < v < 256 && LeadingZeros8(b) == 7 - Log2(v);
    ZerosOf(v, d);
  }

  lemma ZerosOf(v: nat, d: nat)
    requires 0 < v < 256
    ensures 7 - Log2(v) >= d <==> d < 8 && v < Pow2(8 - d)
  {
    ByteLog(v, if d < 8 then 8 - d else 8);
  }

  lemma NonZeroStart(s: Bytes, d: nat)
    requires s != [] && s[0] != 0
    ensures LeadingZeros8(s[0]) >= d <==> d <= 8 * |s| && BigEndian(s) < Pow2(8 * |s| - d)
  {
    ByteZeros(s[0], s[0] as nat, d);
    if d < 8 {
      FirstByteDecides(s, d);
    } else if d <= 8 * |s| {
      NonZeroByte(s, 1, 0);
      Pow2Monotone(8 * |s| - d, 8 * |s| - 8);
    }
  }

  /** What `CheckPoW` accepts: it never asks for more than 32 bits, nor for less than none. */
  predicate CheckAccepts(hash: Digest, bits: int) {
    Meets(hash, if bits <= 0 then 0 else if bits > CHECK_LIMIT then CHECK_LIMIT else bits)
  }

  datatype Verdict = Accepted | Rejected | Panicked

  /** What `VerifyPoW` makes of a digest: beyond 256 bits it looks for a byte that is not there. */
  function GasVerdict(hash: Digest, difficulty: int): Verdict {
    if difficulty <= 0 then Accepted
    else if difficulty > DIGEST_BITS && AllZero(hash) then Panicked
    else if Meets(hash, difficulty) then Accepted
    else Rejected
  }

  /** What the puzzle accepts. */
  predicate PuzzleAccepts(hash: Digest, difficulty: nat) {
    LeadingZeros(hash) >= difficulty
  }

  /** The three tests accept the same digests, those whose value is below 2^(256-d), for every difficulty
      up to 32; two of them do up to 256; beyond that nothing is accepted by them. */
  lemma {:induction false} TestsAgree(hash: Digest, d: nat)
    ensures PuzzleAccepts(hash, d) <==> Meets(hash, d)
    ensures GasVerdict(hash, d) == Accepted <==> Meets(hash, d)
    ensures GasVerdict(hash, d) == Panicked <==> d > DIGEST_BITS && AllZero(hash)
    ensures d <= 32 ==> (CheckAccepts(hash, d) <==> Meets(hash, d))
  {
    LeadingZerosMeaning(hash, d);
    BigEndianBound(hash);
  }

  /** Without a difficulty nothing is asked for. */
  lemma {:induction false} NoDifficultyNoWork(hash: Digest, d: int)
    requires d <= 0
    ensures CheckAccepts(hash, d) && GasVerdict(hash, d) == Accepted && PuzzleAccepts(hash, 0)
  {
    BigEndianBound(hash);
  }

  lemma ZeroMeetsAll()
    ensures BigEndian(ZeroDigest()) == 0
    ensures forall d: nat :: d <= DIGEST_BITS ==> Meets(ZeroDigest(), d)
  {
    BigEndianZero(ZeroDigest());
  }

  lemma MeetsMonotone(hash: Digest, d: nat, e: nat)
    requires d <= e && Meets(hash, e)
    ensures Meets(hash, d)
  {
    Pow2Monotone(DIGEST_BITS - e, DIGEST_BITS - d);
  }

  /** The cap of 32 lets through exactly the digests with at least 32 but fewer than the wanted zeros. */
  lemma {:induction false} CapAcceptsTooMuchExactlyWhen(hash: Digest, bits: nat)
    ensures CheckAccepts(hash, bits) && !Meets(hash, bits) <==> 32 <= LeadingZeros(hash) < bits
    ensures Meets(hash, bits) ==> CheckAccepts(hash, bits)
  {
    LeadingZerosMeaning(hash, bits);
    LeadingZerosMeaning(hash, CHECK_LIMIT);
    if Meets(hash, bits) && bits > CHECK_LIMIT {
      MeetsMonotone(hash, CHECK_LIMIT, bits);
    }
  }

  function FourZeroBytes(): (d: Digest)
    ensures forall i :: 0 <= i < 32 ==> d[i] == if i < 4 then 0 else 0xFF
  {
    seq(32, i => if i < 4 then 0 else 0xFF)
  }

  /** Hence `CheckPoW` enforces the difficulty it is given if and only if that is at most 32. */
  lemma {:induction false} CheckIsExactExactlyWhen(bits: nat)
    ensures (forall hash: Digest :: CheckAccepts(hash, bits) <==> Meets(hash, bits)) <==> bits <= 32
  {
    if bits > CHECK_LIMIT {
      FourZeros();
      CapAcceptsTooMuchExactlyWhen(FourZeroBytes(), bits);
    }
  }

  lemma FourZeros()
    ensures LeadingZeros(FourZeroBytes()) == CHECK_LIMIT
  {
    var s: Bytes := FourZeroBytes();
    LeadingZerosMeaning(s, 32);
    LeadingZerosMeaning(s, 33);
    WholeBytes(s, 4);
    LeadingBits(s, 4, 1);
    Pow2Byte();
  }

  /** How many nonces `SolvePuzzle` tries: one shifted left in 64 bits, by an amount computed in 32 bits. */
  function MaxIterations(difficulty: Uint32): (n: Uint64) {
    ShiftFits(Shift(difficulty));
    if Shift(difficulty) < 64 then Pow2(Shift(difficulty)) else 0
  }

  function Shift(difficulty: Uint32): nat {
    if difficulty + 8 < TWO32 then difficulty + 8 else difficulty + 8 - TWO32
  }

  lemma ShiftFits(shift: nat)
    ensures shift < 64 ==> Pow2(shift) < TWO64
  {
    Pow2Of64();
    if shift < 64 {
      Pow2Monotone(shift, 63);
    }
  }

  /** For a difficulty d below 56 there are 2^(d+8) nonces to try.  From 56 on there are none, until the sum of the
      difficulty and 8 wraps around, where there are again 1 to 128. */
  lemma {:induction false} IterationsAre(difficulty: Uint32)
    ensures difficulty < 56 ==> MaxIterations(difficulty) == 256 * Pow2(difficulty)
    ensures 56 <= difficulty < TWO32 - 8 ==> MaxIterations(difficulty) == 0
    ensures TWO32 - 8 <= difficulty ==> MaxIterations(difficulty) == Pow2(difficulty - (TWO32 - 8))
  {
    if difficulty < 56 {
      Pow2Plus8(difficulty);
    }
  }

  /** The nonce solves the puzzle, resp. passes `CheckPoW`. */
  predicate Solves(sha: Hash, did: Bytes, nonce: Uint64, difficulty: nat) {
    PuzzleAccepts(sha(Block(did, nonce)), difficulty)
  }

  predicate Passes(sha: Hash, pubKey: Bytes, nonce: Uint64, bits: int) {
    CheckAccepts(sha(Block(pubKey, nonce)), bits)
  }

  /** From difficulty 56 on `SolvePuzzle` fails whatever the hash function and the identifier: either it
      tries nothing, or no digest has that many bits.  Below 56 a hash function exists for which it succeeds. */
  lemma {:induction false} SolvableExactlyWhen(difficulty: Uint32)
    ensures (exists sha: Hash, did: Bytes, n: Uint64 ::
               n < MaxIterations(difficulty) && Solves(sha, did, n, difficulty))
       <==> difficulty < 56
  {
    if difficulty < 56 {
      var sha: Hash := _ => ZeroDigest();
      ZeroMeetsAll();
      TestsAgree(ZeroDigest(), difficulty);
      assert Solves(sha, [], 0, difficulty) && 0 < MaxIterations(difficulty);
    } else {
      forall sha: Hash, did: Bytes, n: Uint64 | n < MaxIterations(difficulty)
        ensures !Solves(sha, did, n, difficulty)
      {
        TestsAgree(sha(Block(did, n)), difficulty);
      }
    }
  }

  ghost predicate NonePasses(sha: Hash, pubKey: Bytes, bits: int, bound: int) {
    forall m: Uint64 :: m < bound ==> !Passes(sha, pubKey, m, bits)
  }

  ghost predicate NoneSolves(sha: Hash, did: Bytes, difficulty: nat, bound: int) {
    forall m: Uint64 :: m < bound ==> !Solves(sha, did, m, difficulty)
  }

  lemma OneMoreTried(sha: Hash, data: Bytes, nonce: Uint64)
    ensures forall bits: int :: NonePasses(sha, data, bits, nonce) && !Passes(sha, data, nonce, bits)
                           ==> NonePasses(sha, data, bits, nonce + 1)
    ensures forall d: nat :: NoneSolves(sha, data, d, nonce) && !Solves(sha, data, nonce, d)
                        ==> NoneSolves(sha, data, d, nonce + 1)
  {
  }

  /** Both searches look for this. */
  ghost predicate FirstPassing(sha: Hash, pubKey: Bytes, bits: int, nonce: Uint64) {
    Passes(sha, pubKey, nonce, bits) && NonePasses(sha, pubKey, bits, nonce)
  }

  ghost predicate FirstSolving(sha: Hash, did: Bytes, difficulty: nat, nonce: Uint64) {
    Solves(sha, did, nonce, difficulty) && NoneSolves(sha, did, difficulty, nonce)
  }

  /** Up to 32 bits the two searches find the same nonce for the same bytes, and what they find passes
      all three tests. */
  lemma {:induction false} SearchesAgree(sha: Hash, data: Bytes, d: nat, m: Uint64, n: Uint64)
    requires d <= CHECK_LIMIT && FirstPassing(sha, data, d, m)
    ensures FirstSolving(sha, data, d, n) <==> n == m
    ensures GasVerdict(sha(Block(data, m)), d) == Accepted
  {
    TestsAgree(sha(Block(data, m)), d);
    SolvesIffPasses(sha, data, d, m);
    SolvesIffPasses(sha, data, d, n);
    forall k: Uint64 | k < m
      ensures !Solves(sha, data, k, d)
    {
      SolvesIffPasses(sha, data, d, k);
    }
  }

  lemma SolvesIffPasses(sha: Hash, data: Bytes, d: nat, n: Uint64)
    requires d <= CHECK_LIMIT
    ensures Solves(sha, data, n, d) <==> Passes(sha, data, n, d)
  {
    TestsAgree(sha(Block(data, n)), d);
  }
}

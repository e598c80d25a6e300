/** Node identifiers: the bucket an identifier falls into and the distance used to rank contacts
    (src/p2p/kademlia.go).  The two read the same XOR in opposite byte orders. */
module NodeIDs {
  import opened Integers
  import opened ByteStrings
  import opened Numbers

  type NodeID = s: Bytes | |s| == 20 witness seq(20, _ => 0)

  const BUCKETS: nat := 160

  /** The bucket of `target` in the table of `local`: the position of the highest bit in which the
      two differ, with byte 19 the most significant one.  The local identifier itself falls into bucket 0. */
  function BucketIndex(local: NodeID, target: NodeID): (k: nat)
    ensures k < BUCKETS
  {
    var d := LittleEndian(XorBytes(local, target));
    if d == 0 then 0 else
      LogBelow(XorBytes(local, target));
      Log2(d)
  }

  lemma LogBelow(s: Bytes)
    requires LittleEndian(s) > 0
    ensures Log2(LittleEndian(s)) < 8 * |s|
  {
    LittleEndianBound(s);
    if 8 * |s| <= Log2(LittleEndian(s)) {
      Pow2Monotone(8 * |s|, Log2(LittleEndian(s)));
    }
  }

  /** A node would put itself into the first bucket. */
  lemma {:induction false} OwnBucket(local: NodeID)
    ensures BucketIndex(local, local) == 0
  {
    SameBytesZeroXor(local, local);
    LittleEndianZero(XorBytes(local, local));
  }

  method GetBucketIndex(local: NodeID, target: NodeID) returns (index: nat)
    ensures index == BucketIndex(local, target)
  {
    var dist := new Byte[20];
    for i := 0 to 20
      invariant forall j :: 0 <= j < i ==> dist[j] == local[j] ^ target[j]
    {
      dist[i] := local[i] ^ target[i];
    }
    ghost var x := XorBytes(local, target);
    assert dist[..] == x;
    for i := 20 downto 0
      invariant dist[..] == x
      invariant forall j :: i <= j < 20 ==> x[j] == 0
    {
      if dist[i] != 0 {
        var d := dist[i];
        Pow2Byte();
        for bit: int := 8 downto 0
          invariant d as nat < Pow2(bit)
        {
          TestBit(d, bit);
          if d & (1 << bit) != 0 {
            HighestBit(x, i, bit);
            return i * 8 + bit;
          }
        }
      }
    }
    LittleEndianZero(x);
    return 0;
  }

  lemma HighestBit(x: Bytes, i: nat, bit: nat)
    requires i < |x| && bit < 8 && Pow2(bit) <= x[i] as nat < Pow2(bit + 1)
    requires forall j :: i < j < |x| ==> x[j] == 0
    ensures LittleEndian(x) > 0 && Log2(LittleEndian(x)) == 8 * i + bit
  {
    LittleEndianHighest(x, i, bit);
    Log2Unique(LittleEndian(x), 8 * i + bit);
  }

  lemma SameBytesZeroXor(a: Bytes, b: Bytes)
    requires |a| == |b|
    ensures (forall i :: 0 <= i < |a| ==> XorBytes(a, b)[i] == 0) <==> a == b
  {
    forall i | 0 <= i < |a|
      ensures XorBytes(a, b)[i] == 0 <==> a[i] == b[i]
    {
      ZeroXor(a[i], b[i], XorBytes(a, b)[i]);
    }
  }

  lemma ZeroXor(a: Byte, b: Byte, x: Byte)
    requires x == a ^ b
    ensures x == 0 <==> a == b
  {
  }

  /** For an identifier other than the local one, bucket k means a distance in [2^k, 2^(k+1)). */
  lemma {:induction false} BucketIsLogDistance(local: NodeID, target: NodeID, k: nat)
    requires target != local
    ensures BucketIndex(local, target) == k <==>
            Pow2(k) <= LittleEndian(XorBytes(local, target)) < Pow2(k + 1)
  {
    var x := XorBytes(local, target);
    SameBytesZeroXor(local, target);
    LittleEndianZero(x);
    Log2Unique(LittleEndian(x), k);
  }

  /** Identifiers in the same bucket are closer to each other than to the local one. */
  lemma {:induction false} BucketMatesAreClose(local: NodeID, a: NodeID, b: NodeID)
    requires a != local && b != local && BucketIndex(local, a) == BucketIndex(local, b)
    ensures LittleEndian(XorBytes(a, b)) < Pow2(BucketIndex(local, a))
    ensures LittleEndian(XorBytes(a, b)) < LittleEndian(XorBytes(local, a))
  {
    var k := BucketIndex(local, a);
    var x, y := XorBytes(local, a), XorBytes(local, b);
    BucketIsLogDistance(local, a, k);
    BucketIsLogDistance(local, b, k);
    XorBelow(x, y, k);
    assert XorBytes(x, y) == XorBytes(a, b) by { XorCancels(local, a, b); }
  }

  lemma XorCancels(local: Bytes, a: Bytes, b: Bytes)
    requires |local| == |a| == |b|
    ensures XorBytes(XorBytes(local, a), XorBytes(local, b)) == XorBytes(a, b)
  {
    assert forall i :: 0 <= i < |a| ==> (local[i] ^ a[i]) ^ (local[i] ^ b[i]) == a[i] ^ b[i];
  }

  /** The ranking distance: the XOR read with byte 0 most significant, cut down to 64 bits. */
  function XorDistance(a: NodeID, b: NodeID): nat {
    BigEndian(XorBytes(a, b)) % TWO64
  }

  /** Shifting a 64-bit word left by a byte and filling in the low byte, as arithmetic. */
  lemma ShiftIn(r: bv64, b: Byte)
    ensures ((r << 8) | (b as bv64)) as nat == (256 * (r as nat) + b as nat) % TWO64
  {
    var low := r & 0x00FF_FFFF_FFFF_FFFF;
    SplitWord(r, low);
    ShiftLow(r, low);
    FillByte(r << 8, b);
    var h, l := (r >> 56) as nat, (r << 8) as nat;
    assert 256 * (r as nat) == h * TWO64 + l;
    AddBelowModulus(h, l, b as nat, ((r << 8) | (b as bv64)) as nat);
  }

  lemma AddBelowModulus(h: nat, l: nat, b: nat, v: nat)
    requires v == l + b && v < TWO64
    ensures (h * TWO64 + l + b) % TWO64 == v
  {
  }

  lemma SplitWord(r: bv64, low: bv64)
    requires low == r & 0x00FF_FFFF_FFFF_FFFF
    ensures r as nat == (r >> 56) as nat * 0x100_0000_0000_0000 + low as nat
  {
  }

  lemma ShiftLow(r: bv64, low: bv64)
    requires low == r & 0x00FF_FFFF_FFFF_FFFF
    ensures (r << 8) as nat == 256 * (low as nat)
  {
  }

  lemma FillByte(r: bv64, b: Byte)
    requires r & 0xFF == 0
    ensures (r | (b as bv64)) as nat == r as nat + b as nat
  {
  }

  method ComputeXorDistance(a: NodeID, b: NodeID) returns (d: nat)
    ensures d == XorDistance(a, b)
  {
    var result: bv64 := 0;
    ghost var x := XorBytes(a, b);
    for i := 0 to 20
      invariant result as nat == BigEndian(x[..i]) % TWO64
    {
      var byte := a[i] ^ b[i];
      ShiftIn(result, byte);
      NextByte(x, i, result as nat, byte);
      result := (result << 8) | (byte as bv64);
    }
    assert x[..20] == x;
    return result as nat;
  }

  /** One turn of the distance loop, as arithmetic. */
  lemma NextByte(x: Bytes, i: nat, r: nat, byte: Byte)
    requires i < |x| && x[i] == byte && r == BigEndian(x[..i]) % TWO64
    ensures (256 * r + byte as nat) % TWO64 == BigEndian(x[..i + 1]) % TWO64
  {
    assert x[..i + 1][..i] == x[..i];
    ModuloStep(BigEndian(x[..i]), byte as nat);
  }

  lemma ModuloStep(v: nat, b: nat)
    ensures (256 * (v % TWO64) + b) % TWO64 == (256 * v + b) % TWO64
  {
    var q, r := v / TWO64, v % TWO64;
    assert 256 * v + b == 256 * q * TWO64 + (256 * r + b);
    DropMultiple(256 * q, 256 * r + b);
  }

  lemma {:induction false} DropMultiple(q: nat, n: nat)
    ensures (q * TWO64 + n) % TWO64 == n % TWO64
  {
    if q > 0 {
      DropMultiple(q - 1, n);
      var m := (q - 1) * TWO64 + n;
      assert q * TWO64 + n == m + TWO64;
    }
  }

  /** Only the last eight bytes count. */
  lemma {:induction false} DistanceIsLastEightBytes(a: NodeID, b: NodeID)
    ensures XorDistance(a, b) == BigEndian(XorBytes(a[12..], b[12..]))
  {
    var x := XorBytes(a, b);
    XorSuffix(a, b);
    assert x == x[..12] + x[12..];
    BigEndianConcat(x[..12], x[12..]);
    BigEndianBound(x[12..]);
    Pow2Of64();
    LowPart(BigEndian(x), BigEndian(x[..12]), BigEndian(x[12..]));
  }

  lemma XorSuffix(a: NodeID, b: NodeID)
    ensures XorBytes(a[12..], b[12..]) == XorBytes(a, b)[12..]
  {
  }

  lemma LowPart(v: nat, high: nat, low: nat)
    requires v == high * TWO64 + low && low < TWO64
    ensures v % TWO64 == low
  {
    DropMultiple(high, low);
  }

  /** The ranking distance is a pseudometric: symmetric, zero exactly for identifiers that agree on
      their last eight bytes, and subject to the triangle inequality. */
  lemma {:induction false} DistanceIsPseudometric(a: NodeID, b: NodeID, c: NodeID)
    ensures XorDistance(a, b) == XorDistance(b, a)
    ensures XorDistance(a, b) == 0 <==> a[12..] == b[12..]
    ensures XorDistance(a, c) <= XorDistance(a, b) + XorDistance(b, c)
  {
    assert XorBytes(a, b) == XorBytes(b, a) by {
      assert forall i :: 0 <= i < 20 ==> a[i] ^ b[i] == b[i] ^ a[i];
    }
    DistanceIsLastEightBytes(a, b);
    DistanceIsLastEightBytes(b, c);
    DistanceIsLastEightBytes(a, c);
    BigEndianZero(XorBytes(a[12..], b[12..]));
    SameBytesZeroXor(a[12..], b[12..]);
    XorTriangle(a[12..], b[12..], c[12..]);
  }
}

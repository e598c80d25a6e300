/** Byte strings as numbers, in both byte orders, and powers of two. */
module Numbers {
  import opened Integers
  import opened ByteStrings

  function Pow2(n: nat): (p: nat)
    ensures p > 0
  {
    if n == 0 then 1 else 2 * Pow2(n - 1)
  }

  lemma {:induction false} Pow2Sum(m: nat, n: nat)
    ensures Pow2(m + n) == Pow2(m) * Pow2(n)
  {
    if m > 0 {
      Pow2Sum(m - 1, n);
      assert Pow2(m) * Pow2(n) == 2 * (Pow2(m - 1) * Pow2(n));
    }
  }

  lemma {:induction false} Pow2Monotone(m: nat, n: nat)
    requires m <= n
    ensures Pow2(m) <= Pow2(n)
    decreases n - m
  {
    if m < n {
      Pow2Monotone(m, n - 1);
    }
  }

  lemma Pow2Byte()
    ensures Pow2(0) == 1 && Pow2(1) == 2 && Pow2(2) == 4 && Pow2(3) == 8 && Pow2(4) == 16
    ensures Pow2(5) == 32 && Pow2(6) == 64 && Pow2(7) == 128 && Pow2(8) == 256
  {
    assert Pow2(3) == 8 && Pow2(5) == 32;
  }

  lemma AtLeastOnce(k: int, size: nat)
    ensures k >= 1 ==> k * size >= size
    ensures k <= -1 ==> k * size + size <= 0
  {
  }

  lemma Pow2Of64()
    ensures Pow2(64) == TWO64
  {
    Pow2Byte();
    Pow2Sum(8, 8);
    Pow2Sum(16, 16);
    Pow2Sum(32, 32);
  }

  lemma Pow2Plus8(n: nat)
    ensures Pow2(n + 8) == 256 * Pow2(n)
  {
    Pow2Byte();
    Pow2Sum(8, n);
  }

  /** The byte with the given value. */
  function ToByte(v: nat): (b: Byte)
    requires v < 256
    ensures b as nat == v
  {
    if v == 0 then 0 else
      Increment(ToByte(v - 1));
      ToByte(v - 1) + 1
  }

  lemma Increment(b: Byte)
    requires b as nat < 255
    ensures (b + 1) as nat == b as nat + 1
  {
  }

  /** First byte most significant. */
  function BigEndian(s: Bytes): nat {
    if s == [] then 0 else 256 * BigEndian(s[..|s| - 1]) + s[|s| - 1] as nat
  }

  /** Last byte most significant. */
  function LittleEndian(s: Bytes): nat {
    if s == [] then 0 else s[0] as nat + 256 * LittleEndian(s[1..])
  }

  lemma {:induction false} BigEndianConcat(s: Bytes, t: Bytes)
    ensures BigEndian(s + t) == BigEndian(s) * Pow2(8 * |t|) + BigEndian(t)
  {
    if t == [] {
      assert s + t == s;
    } else {
      var front, last := t[..|t| - 1], t[|t| - 1] as nat;
      assert (s + t)[..|s + t| - 1] == s + front;
      BigEndianConcat(s, front);
      Pow2Plus8(8 * |front|);
      assert 256 * (BigEndian(s) * Pow2(8 * |front|)) == BigEndian(s) * Pow2(8 * |t|);
    }
  }

  lemma {:induction false} BigEndianBound(s: Bytes)
    ensures BigEndian(s) < Pow2(8 * |s|)
  {
    if s != [] {
      BigEndianBound(s[..|s| - 1]);
      Pow2Plus8(8 * (|s| - 1));
    }
  }

  lemma {:induction false} LittleEndianBound(s: Bytes)
    ensures LittleEndian(s) < Pow2(8 * |s|)
  {
    if s != [] {
      LittleEndianBound(s[1..]);
      Pow2Plus8(8 * (|s| - 1));
    }
  }

  lemma {:induction false} BigEndianZero(s: Bytes)
    ensures BigEndian(s) == 0 <==> forall i :: 0 <= i < |s| ==> s[i] == 0
  {
    if s != [] {
      var front := s[..|s| - 1];
      BigEndianZero(front);
      if forall i :: 0 <= i < |front| ==> front[i] == 0 {
        assert forall i :: 0 <= i < |front| ==> s[i] == front[i];
      } else {
        var i :| 0 <= i < |front| && front[i] != 0;
        assert s[i] != 0;
      }
    }
  }

  lemma {:induction false} LittleEndianZero(s: Bytes)
    ensures LittleEndian(s) == 0 <==> forall i :: 0 <= i < |s| ==> s[i] == 0
  {
    if s != [] {
      LittleEndianZero(s[1..]);
      assert forall i :: 0 < i < |s| ==> s[i] == s[1..][i - 1];
    }
  }

  /** The highest non-zero byte and its highest bit place the whole number between two powers of two. */
  lemma {:induction false} LittleEndianHighest(s: Bytes, i: nat, bit: nat)
    requires i < |s| && bit < 8
    requires Pow2(bit) <= s[i] as nat < Pow2(bit + 1)
    requires forall j :: i < j < |s| ==> s[j] == 0
    ensures Pow2(8 * i + bit) <= LittleEndian(s) < Pow2(8 * i + bit + 1)
  {
    if i == 0 {
      LittleEndianZero(s[1..]);
    } else {
      LittleEndianHighest(s[1..], i - 1, bit);
      Pow2Plus8(8 * (i - 1) + bit);
      Pow2Plus8(8 * (i - 1) + bit + 1);
    }
  }

  /** The position of the highest bit, counted from 0. */
  function Log2(v: nat): (k: nat)
    requires v > 0
    ensures Pow2(k) <= v < Pow2(k + 1)
  {
    if v == 1 then 0 else 1 + Log2(v / 2)
  }

  lemma Log2Unique(v: nat, k: nat)
    requires v > 0
    ensures Log2(v) == k <==> Pow2(k) <= v < Pow2(k + 1)
  {
    if Pow2(k) <= v < Pow2(k + 1) {
      if Log2(v) < k { Pow2Monotone(Log2(v) + 1, k); }
      if k < Log2(v) { Pow2Monotone(k + 1, Log2(v)); }
    }
  }

  /** Testing one bit of a byte whose higher bits are known to be clear. */
  lemma TestBit(b: Byte, bit: nat)
    requires bit < 8 && b as nat < Pow2(bit + 1)
    ensures b & (1 << bit) != 0 <==> Pow2(bit) <= b as nat
  {
    Pow2Byte();
    if {
      case bit == 0 =>
      case bit == 1 =>
      case bit == 2 =>
      case bit == 3 =>
      case bit == 4 =>
      case bit == 5 =>
      case bit == 6 =>
      case bit == 7 =>
    }
  }

  function XorBytes(a: Bytes, b: Bytes): (x: Bytes)
    requires |a| == |b|
    ensures |x| == |a|
  {
    seq(|a|, i requires 0 <= i < |a| => a[i] ^ b[i])
  }

  /** Two bytes with the same highest bit differ by less than that bit. */
  lemma XorByteBelow(a: Byte, b: Byte, x: Byte, bit: nat)
    requires bit < 8 && x == a ^ b
    requires Pow2(bit) <= a as nat < Pow2(bit + 1) && Pow2(bit) <= b as nat < Pow2(bit + 1)
    ensures x as nat < Pow2(bit)
  {
    Pow2Byte();
    if {
      case bit == 0 =>
      case bit == 1 =>
      case bit == 2 =>
      case bit == 3 =>
      case bit == 4 =>
      case bit == 5 =>
      case bit == 6 =>
      case bit == 7 =>
    }
  }

  lemma XorTail(a: Bytes, b: Bytes)
    requires |a| == |b| && a != []
    ensures XorBytes(a, b)[1..] == XorBytes(a[1..], b[1..])
  {
  }

  lemma XorFront(a: Bytes, b: Bytes)
    requires |a| == |b| && a != []
    ensures XorBytes(a, b)[..|a| - 1] == XorBytes(a[..|a| - 1], b[..|a| - 1])
  {
  }

  /** Below 256 only the first byte counts. */
  lemma LowNumber(s: Bytes)
    requires s != []
    ensures LittleEndian(s) < 256 <==> forall i :: 0 < i < |s| ==> s[i] == 0
    ensures LittleEndian(s) < 256 ==> LittleEndian(s) == s[0] as nat
  {
    LittleEndianZero(s[1..]);
    assert forall i :: 0 < i < |s| ==> s[i] == s[1..][i - 1];
    assert forall i :: 0 <= i < |s[1..]| ==> s[1..][i] == s[i + 1];
  }

  lemma XorOfLow(a: Bytes, b: Bytes)
    requires |a| == |b| && a != [] && LittleEndian(a) < 256 && LittleEndian(b) < 256
    ensures LittleEndian(XorBytes(a, b)) == XorBytes(a, b)[0] as nat
  {
    LowNumber(a);
    LowNumber(b);
    LowNumber(XorBytes(a, b));
    assert forall i :: 0 < i < |a| ==> a[i] ^ b[i] == 0;
  }

  lemma XorBelowByte(a: Bytes, b: Bytes, k: nat)
    requires |a| == |b| && a != [] && k < 8
    requires Pow2(k) <= LittleEndian(a) < Pow2(k + 1) && Pow2(k) <= LittleEndian(b) < Pow2(k + 1)
    ensures LittleEndian(XorBytes(a, b)) < Pow2(k)
  {
    assert Pow2(k + 1) <= 256 by { Pow2Byte(); Pow2Monotone(k + 1, 8); }
    LowNumber(a);
    LowNumber(b);
    XorOfLow(a, b);
    XorByteBelow(a[0], b[0], XorBytes(a, b)[0], k);
  }

  /** Two numbers with the same highest bit have an XOR below that bit. */
  lemma {:induction false} XorBelow(a: Bytes, b: Bytes, k: nat)
    requires |a| == |b|
    requires Pow2(k) <= LittleEndian(a) < Pow2(k + 1) && Pow2(k) <= LittleEndian(b) < Pow2(k + 1)
    ensures LittleEndian(XorBytes(a, b)) < Pow2(k)
  {
    if k < 8 {
      XorBelowByte(a, b, k);
    } else {
      Pow2Plus8(k - 8);
      Pow2Plus8(k - 7);
      XorBelow(a[1..], b[1..], k - 8);
      XorTail(a, b);
    }
  }

  lemma XorByteBound(a: Byte, b: Byte, x: Byte)
    requires x == a ^ b
    ensures x as nat <= a as nat + b as nat
  {
  }

  lemma XorByteTriangle(a: Bytes, b: Bytes, c: Bytes, i: nat)
    requires |a| == |b| == |c| && i < |a|
    ensures XorBytes(a, c)[i] as nat <= XorBytes(a, b)[i] as nat + XorBytes(b, c)[i] as nat
  {
    var x, y, z := XorBytes(a, b)[i], XorBytes(b, c)[i], XorBytes(a, c)[i];
    assert z == x ^ y;
    XorByteBound(x, y, z);
  }

  lemma {:induction false} XorTriangle(a: Bytes, b: Bytes, c: Bytes)
    requires |a| == |b| == |c|
    ensures BigEndian(XorBytes(a, c)) <= BigEndian(XorBytes(a, b)) + BigEndian(XorBytes(b, c))
  {
    if a != [] {
      var n := |a| - 1;
      XorTriangle(a[..n], b[..n], c[..n]);
      XorFront(a, b);
      XorFront(b, c);
      XorFront(a, c);
      XorByteTriangle(a, b, c, n);
    }
  }
}

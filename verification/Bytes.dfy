/** Byte strings and the order `bytes.Compare` and `sort.Strings` put on them.
    Go strings are byte strings, so identifiers, payloads and digests all use this type. */
module ByteStrings {

  type Byte = bv8

  type Bytes = seq<Byte>

  /** A SHA-256 digest.  The hash function itself is a parameter wherever it is used. */
  type Digest = d: Bytes | |d| == 32 witness seq(32, _ => 0)

  type Hash = Bytes -> Digest

  /** Lexicographic order: the first differing byte decides, and a proper prefix comes first. */
  predicate Precedes(a: Bytes, b: Bytes) {
    if b == [] then false
    else if a == [] then true
    else if a[0] != b[0] then a[0] < b[0]
    else Precedes(a[1..], b[1..])
  }

  lemma {:induction false} PrecedesAsymmetric(a: Bytes, b: Bytes)
    requires Precedes(a, b)
    ensures a != b && !Precedes(b, a)
  {
    if a == [] {
    } else if a[0] != b[0] {
    } else {
      PrecedesAsymmetric(a[1..], b[1..]);
    }
  }

  lemma {:induction false} PrecedesTransitive(a: Bytes, b: Bytes, c: Bytes)
    requires Precedes(a, b) && Precedes(b, c)
    ensures Precedes(a, c)
  {
    if a == [] {
    } else if a[0] == b[0] == c[0] {
      PrecedesTransitive(a[1..], b[1..], c[1..]);
    }
  }

  lemma {:induction false} PrecedesTotal(a: Bytes, b: Bytes)
    ensures a == b || Precedes(a, b) || Precedes(b, a)
  {
    if a == [] || b == [] {
    } else if a[0] == b[0] {
      PrecedesTotal(a[1..], b[1..]);
      assert a == [a[0]] + a[1..] && b == [b[0]] + b[1..];
    }
  }

  /** All that `Precedes` says about two given strings. */
  lemma PrecedesOrders(a: Bytes, b: Bytes)
    ensures !Precedes(a, a) && !Precedes(b, b)
    ensures !(Precedes(a, b) && Precedes(b, a))
    ensures a == b || Precedes(a, b) || Precedes(b, a)
  {
    if Precedes(a, a) { PrecedesAsymmetric(a, a); }
    if Precedes(b, b) { PrecedesAsymmetric(b, b); }
    if Precedes(a, b) { PrecedesAsymmetric(a, b); }
    PrecedesTotal(a, b);
  }

  /** Strictly ascending, hence without duplicates. */
  predicate Ascending(s: seq<Bytes>) {
    forall i, j :: 0 <= i < j < |s| ==> Precedes(s[i], s[j])
  }

  /** An ascending list is determined by its elements: the result of sorting does not depend on
      the order in which a map handed the elements out. */
  lemma {:induction false} AscendingUnique(s: seq<Bytes>, t: seq<Bytes>)
    requires Ascending(s) && Ascending(t)
    requires forall x :: x in s <==> x in t
    ensures s == t
  {
    if s == [] {
      FirstIsMember(t);
    } else {
      assert s[0] in t && t != [] && t[0] in s;
      if s[0] != t[0] {
        var i :| 0 < i < |s| && s[i] == t[0];
        var j :| 0 < j < |t| && t[j] == s[0];
        PrecedesAsymmetric(s[0], t[0]);
      }
      forall x
        ensures x in s[1..] <==> x in t[1..]
      {
        TailMembers(s, x);
        TailMembers(t, x);
      }
      AscendingUnique(s[1..], t[1..]);
      assert s == [s[0]] + s[1..] && t == [t[0]] + t[1..];
    }
  }

  lemma FirstIsMember(s: seq<Bytes>)
    ensures s == [] || s[0] in s
  {
  }

  lemma TailMembers(s: seq<Bytes>, x: Bytes)
    requires s != [] && Ascending(s)
    ensures x in s[1..] <==> x in s && x != s[0]
  {
    if x in s[1..] {
      var i :| 0 <= i < |s[1..]| && s[1..][i] == x;
      assert Precedes(s[0], s[i + 1]);
      PrecedesAsymmetric(s[0], x);
    }
  }

  predicate Distinct(s: seq<Bytes>) {
    forall i, j :: 0 <= i < j < |s| ==> s[i] != s[j]
  }

  function Insert(x: Bytes, s: seq<Bytes>): seq<Bytes> {
    if s == [] then [x]
    else if Precedes(s[0], x) then [s[0]] + Insert(x, s[1..])
    else [x] + s
  }

  /** What `sort.Strings` leaves in the slice. */
  function Sorted(s: seq<Bytes>): seq<Bytes> {
    if s == [] then [] else Insert(s[0], Sorted(s[1..]))
  }

  lemma {:induction false} InsertAscending(x: Bytes, s: seq<Bytes>)
    requires Ascending(s) && x !in s
    ensures Ascending(Insert(x, s))
    ensures forall y :: y in Insert(x, s) <==> y == x || y in s
  {
    if s == [] {
    } else if Precedes(s[0], x) {
      var rest := Insert(x, s[1..]);
      InsertAscending(x, s[1..]);
      assert s == [s[0]] + s[1..];
      forall j | 0 <= j < |rest|
        ensures Precedes(s[0], rest[j])
      {
        assert rest[j] in rest;
      }
    } else {
      PrecedesTotal(x, s[0]);
      forall j | 0 <= j < |s|
        ensures Precedes(x, s[j])
      {
        if j > 0 {
          PrecedesTransitive(x, s[0], s[j]);
        }
      }
    }
  }

  /** Sorting distinct strings gives the ascending list of the same strings. */
  lemma {:induction false} SortedAscending(s: seq<Bytes>)
    requires Distinct(s)
    ensures Ascending(Sorted(s))
    ensures forall y :: y in Sorted(s) <==> y in s
  {
    if s != [] {
      SortedAscending(s[1..]);
      InsertAscending(s[0], Sorted(s[1..]));
      assert s == [s[0]] + s[1..];
    }
  }
}

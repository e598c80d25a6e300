/** Dotted version vectors (src/storage/crdt.go): a map from events to stamps, merged by pointwise maximum. */
module DottedVectors {
  import opened ByteStrings

  /** The `seqNum`-th event of a node. */
  datatype EventID = EventID(node: Bytes, seqNum: nat)

  type Causality = map<EventID, nat>

  /** The state of one vector, as a value. */
  datatype Clock = Clock(causality: Causality, version: nat)

  function Max(a: int, b: int): int { if a < b then b else a }

  /** The stamp of an event, with -1 for an event the map does not hold. */
  function At(a: Causality, e: EventID): int {
    if e in a then a[e] else -1
  }

  /** The least upper bound of two causality maps. */
  function Join(a: Causality, b: Causality): Causality {
    map e | e in a.Keys + b.Keys :: Max(At(a, e), At(b, e)) as nat
  }

  /** `a` holds every event of `b` with at least the same stamp. */
  predicate Covers(a: Causality, b: Causality) {
    forall e :: e in b ==> e in a && b[e] <= a[e]
  }

  function AddToClock(c: Clock, event: EventID, stamp: nat): Clock {
    Clock(c.causality[event := stamp], c.version + 1)
  }

  function JoinClock(a: Clock, b: Clock): Clock {
    if Covers(a.causality, b.causality) then a
    else Clock(Join(a.causality, b.causality), a.version + 1)
  }

  lemma JoinAt(a: Causality, b: Causality, e: EventID)
    ensures At(Join(a, b), e) == Max(At(a, e), At(b, e))
  {
  }

  lemma CoversAt(a: Causality, b: Causality)
    ensures Covers(a, b) <==> forall e :: At(b, e) <= At(a, e)
  {
    if forall e :: At(b, e) <= At(a, e) {
      forall e | e in b
        ensures e in a && b[e] <= a[e]
      {
        assert At(b, e) <= At(a, e);
      }
    }
  }

  lemma SameStamps(a: Causality, b: Causality)
    requires forall e :: At(a, e) == At(b, e)
    ensures a == b
  {
    forall e
      ensures e in a <==> e in b
      ensures e in a ==> a[e] == b[e]
    {
      assert At(a, e) == At(b, e);
    }
  }

  /** `Join` is the least upper bound of the order `Covers`, and leaves `a` alone exactly when `a` covers `b`. */
  lemma {:induction false} JoinIsLeastUpperBound(a: Causality, b: Causality, c: Causality)
    ensures Covers(Join(a, b), a) && Covers(Join(a, b), b)
    ensures Covers(c, a) && Covers(c, b) <==> Covers(c, Join(a, b))
    ensures Covers(a, b) <==> Join(a, b) == a
  {
    forall e { JoinAt(a, b, e); }
    CoversAt(Join(a, b), a);
    CoversAt(Join(a, b), b);
    CoversAt(c, a);
    CoversAt(c, b);
    CoversAt(c, Join(a, b));
    CoversAt(a, b);
    if Covers(a, b) {
      SameStamps(Join(a, b), a);
    }
  }

  lemma {:induction false} JoinCommutes(a: Causality, b: Causality)
    ensures Join(a, b) == Join(b, a)
  {
    forall e
      ensures At(Join(a, b), e) == At(Join(b, a), e)
    {
      JoinAt(a, b, e);
      JoinAt(b, a, e);
    }
    SameStamps(Join(a, b), Join(b, a));
  }

  lemma {:induction false} JoinAssociates(a: Causality, b: Causality, c: Causality)
    ensures Join(a, Join(b, c)) == Join(Join(a, b), c)
  {
    forall e
      ensures At(Join(a, Join(b, c)), e) == At(Join(Join(a, b), c), e)
    {
      JoinAt(a, Join(b, c), e);
      JoinAt(b, c, e);
      JoinAt(Join(a, b), c, e);
      JoinAt(a, b, e);
    }
    SameStamps(Join(a, Join(b, c)), Join(Join(a, b), c));
  }

  lemma {:induction false} JoinIdempotent(a: Causality)
    ensures Join(a, a) == a
  {
    JoinIsLeastUpperBound(a, a, a);
  }

  /** One step of the merge loop: `a` already holds the maximum of itself and the events `seen`. */
  lemma JoinStep(before: Causality, seen: Causality, e: EventID, stamp: nat)
    requires e !in seen
    ensures var now := Join(before, seen);
            Join(before, seen[e := stamp]) == if stamp > At(now, e) then now[e := stamp] else now
    ensures Covers(before, seen[e := stamp]) <==> Covers(before, seen) && stamp <= At(before, e)
  {
    var grown := seen[e := stamp];
    var now := Join(before, seen);
    var next := if stamp > At(now, e) then now[e := stamp] else now;
    forall d
      ensures At(Join(before, grown), d) == At(next, d)
    {
      JoinAt(before, grown, d);
      JoinAt(before, seen, d);
    }
    SameStamps(Join(before, grown), next);
    assert grown[e] == stamp;
    forall d | d in seen
      ensures d in grown && grown[d] == seen[d]
    {
    }
  }

  class DottedVector {
    var causality: Causality
    var version: nat

    ghost function View(): Clock
      reads this
    {
      Clock(causality, version)
    }

    constructor ()
      ensures View() == Clock(map[], 0)
    {
      causality := map[];
      version := 0;
    }

    method Clone() returns (copy: DottedVector)
      ensures fresh(copy) && copy.View() == View()
    {
      copy := new DottedVector();
      copy.version := version;
      var todo := causality.Keys;
      while todo != {}
        invariant todo <= causality.Keys
        invariant copy.causality == map e | e in causality.Keys - todo :: causality[e]
        invariant copy.version == version && fresh(copy)
        decreases todo
      {
        var e :| e in todo;
        copy.causality := copy.causality[e := causality[e]];
        todo := todo - {e};
      }
    }

    method AddEvent(event: EventID, stamp: nat)
      modifies this
      ensures View() == AddToClock(old(View()), event, stamp)
    {
      causality := causality[event := stamp];
      version := version + 1;
    }

    method GetEvent(event: EventID) returns (stamp: nat, ok: bool)
      ensures ok <==> event in causality
      ensures stamp == if event in causality then causality[event] else 0
    {
      ok := event in causality;
      stamp := if ok then causality[event] else 0;
    }

    /** The events of `other` are visited in whatever order its map yields them.  A vector never
        merges with itself: the second lock would never be granted. */
    method Merge(other: DottedVector) returns (changed: bool)
      requires other != this
      modifies this
      ensures View() == JoinClock(old(View()), other.View())
      ensures causality == Join(old(causality), other.causality)
      ensures changed <==> causality != old(causality)
    {
      changed := false;
      ghost var before := causality;
      ghost var seen: Causality := map[];
      var todo := other.causality.Keys;
      JoinIsLeastUpperBound(before, map[], before);
      while todo != {}
        invariant todo <= other.causality.Keys
        invariant seen.Keys == other.causality.Keys - todo
        invariant forall e <- seen :: seen[e] == other.causality[e]
        invariant causality == Join(before, seen)
        invariant changed <==> !Covers(before, seen)
        invariant version == old(version)
        decreases todo
      {
        var e :| e in todo;
        var stamp := other.causality[e];
        JoinStep(before, seen, e, stamp);
        JoinAt(before, seen, e);
        if e !in causality || stamp > causality[e] {
          causality := causality[e := stamp];
          changed := true;
        }
        seen := seen[e := stamp];
        todo := todo - {e};
      }
      assert seen == other.causality;
      JoinIsLeastUpperBound(before, seen, before);
      if changed {
        version := version + 1;
      }
    }

    method Size() returns (n: nat)
      ensures n == |causality|
    {
      n := |causality|;
    }
  }
}

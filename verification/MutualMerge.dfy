/** Two values that merge each other, and the causality they end with (src/storage/crdt.go). */
module MutualMerge {
  import opened ByteStrings
  import opened DottedVectors
  import opened CRDTValues

  /** `a` merges `b`, then `b` merges the result. */
  function Round(a: Value, b: Value, sha: Hash): (Value, Value) {
    var a' := MergeValue(a, b, sha).0;
    (a', MergeValue(b, a', sha).0)
  }

  /** Agreement on the version, the timestamp and the events.  Source, operation and metadata are not in it: they
      need not agree even after many rounds. */
  predicate Agree(a: Value, b: Value) {
    a.version == b.version && a.timestamp == b.timestamp && a.clock.causality == b.clock.causality
  }

  /** A tie that neither the stamps nor the digests can break, although the payloads differ. */
  predicate Collides(a: Value, b: Value, sha: Hash) {
    a.version == b.version && a.timestamp == b.timestamp && sha(a.data) == sha(b.data) && a.data != b.data
  }

  predicate Settled(a: Value, b: Value, sha: Hash) {
    MergeValue(a, b, sha) == (a, false) && MergeValue(b, a, sha) == (b, false)
  }

  /** Same stamps and digests: the merge falls through to the clocks, and one more round equalises them. */
  lemma TiedRound(a: Value, b: Value, sha: Hash)
    requires a.version == b.version && a.timestamp == b.timestamp && sha(a.data) == sha(b.data)
    ensures var (a', b') := Round(a, b, sha);
            && Agree(a', b') && a'.data == a.data && b'.data == b.data
            && a'.clock.causality == Join(a.clock.causality, b.clock.causality)
            && Settled(a', b', sha)
  {
    var x, y := a.clock.causality, b.clock.causality;
    PrecedesOrders(sha(a.data), sha(b.data));
    JoinIsLeastUpperBound(x, y, x);
    JoinIsLeastUpperBound(y, Join(x, y), y);
    JoinCommutes(x, y);
    JoinAssociates(y, y, x);
    JoinIdempotent(y);
    JoinIdempotent(Join(x, y));
    JoinIsLeastUpperBound(Join(x, y), Join(x, y), x);
  }

  /** After one round the stamps and digests are equal, unless they were and then they still are. */
  lemma RoundTies(a: Value, b: Value, sha: Hash)
    ensures var (a', b') := Round(a, b, sha);
            && a'.version == b'.version && a'.timestamp == b'.timestamp && sha(a'.data) == sha(b'.data)
            && (a'.data == b'.data <==> !Collides(a, b, sha))
            && (Collides(a', b', sha) <==> Collides(a, b, sha))
  {
    PrecedesOrders(sha(a.data), sha(b.data));
  }

  /** Two rounds always settle two values: they agree on version, timestamp and the whole causality
      map, no later merge between them changes anything, and the payloads are equal too unless two
      different payloads with equal stamps have the same digest. */
  lemma {:induction false} TwoRoundsSettle(a: Value, b: Value, sha: Hash)
    ensures var (a1, b1) := Round(a, b, sha);
            var (a2, b2) := Round(a1, b1, sha);
            && Agree(a2, b2) && Settled(a2, b2, sha)
            && (a2.data == b2.data <==> !Collides(a, b, sha))
  {
    var (a1, b1) := Round(a, b, sha);
    RoundTies(a, b, sha);
    TiedRound(a1, b1, sha);
  }

  predicate Tied(a: Value, b: Value, sha: Hash) {
    a.version == b.version && a.timestamp == b.timestamp && sha(a.data) == sha(b.data)
  }

  /** With equal versions the newer timestamp wins, and then the larger digest. */
  predicate Wins(b: Value, a: Value, sha: Hash) {
    b.timestamp > a.timestamp || (b.timestamp == a.timestamp && Precedes(sha(a.data), sha(b.data)))
  }

  /** When a single round already equalises the causality maps: always with different versions or a
      full tie; otherwise the value that is overwritten must already know the winner's events,
      because the overwriting branches skip the clock. */
  lemma {:induction false} OneRoundAgreesExactlyWhen(a: Value, b: Value, sha: Hash)
    ensures var (a1, b1) := Round(a, b, sha);
            Agree(a1, b1) <==>
              || a.version != b.version
              || Tied(a, b, sha)
              || (Wins(b, a, sha) && Covers(a.clock.causality, b.clock.causality))
              || (!Wins(b, a, sha) && Covers(b.clock.causality, a.clock.causality))
  {
    var x, y := a.clock.causality, b.clock.causality;
    var (a1, b1) := Round(a, b, sha);
    JoinIsLeastUpperBound(x, y, x);
    JoinIsLeastUpperBound(y, x, y);
    JoinCommutes(x, y);
    PrecedesOrders(sha(a.data), sha(b.data));
    if Tied(a, b, sha) {
      TiedRound(a, b, sha);
    } else if a.version == b.version && Wins(b, a, sha) {
      assert a1.clock == a.clock && b1.clock == JoinClock(b.clock, a.clock);
    } else if a.version == b.version {
      assert a1.clock == JoinClock(a.clock, b.clock) && b1.clock == b.clock;
    } else if a.version > b.version {
      assert b1.clock == a1.clock;
    } else {
      JoinIsLeastUpperBound(y, y, y);
      assert a1.clock == b.clock && b1.clock == b.clock;
    }
  }

  /** One round can leave the causality maps apart: here the later value overwrites the earlier one,
      whose clock never hears of the later one's event. */
  lemma {:induction false} OneRoundIsNotEnough(sha: Hash)
    ensures var a, b := NewValue([], [1], 0), NewValue([], [2], 1);
            var (a1, b1) := Round(a, b, sha);
            !Agree(a1, b1)
  {
    var a, b := NewValue([], [1], 0), NewValue([], [2], 1);
    assert EventID([2], 1) in b.clock.causality && EventID([2], 1) !in a.clock.causality;
    OneRoundAgreesExactlyWhen(a, b, sha);
  }

  /** The flag a merge returns is true exactly when the value it left differs in what merging can
      see: version, timestamp, payload or causality. */
  lemma {:induction false} MergeReportsChange(a: Value, b: Value, sha: Hash)
    ensures var (m, changed) := MergeValue(a, b, sha);
            changed <==> !(m.version == a.version && m.timestamp == a.timestamp && m.data == a.data
                           && m.clock.causality == a.clock.causality)
  {
    JoinIsLeastUpperBound(a.clock.causality, b.clock.causality, map[]);
    PrecedesOrders(sha(a.data), sha(b.data));
  }
}

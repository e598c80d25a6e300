/** What a run of arrivals leaves in one bucket (src/p2p/kademlia.go). */
module BucketRuns {
  import opened Integers
  import opened ByteStrings
  import opened Numbers
  import opened NodeIDs
  import opened RoutingTables

  /** What a series of arrivals looks like in the table. */
  function Stamped(arrivals: seq<Arrival>): seq<Contact> {
    seq(|arrivals|, i requires 0 <= i < |arrivals| => arrivals[i].contact.(lastSeen := arrivals[i].seen))
  }

  /** New contacts of one bucket line up in the order of their arrival as long as there is room. */
  lemma {:induction false} BucketFills(local: NodeID, k: nat, front: seq<Contact>, arrivals: seq<Arrival>)
    requires k < BUCKETS && |front| + |arrivals| <= BUCKET_SIZE
    requires UniqueIDs(front + Stamped(arrivals))
    requires forall a <- arrivals :: BucketIndex(local, a.contact.id) == k
    ensures AddAll(local, EmptyTable()[k := front], arrivals) == EmptyTable()[k := front + Stamped(arrivals)]
    decreases |arrivals|
  {
    if arrivals == [] {
      assert front + Stamped(arrivals) == front;
    } else {
      var a := arrivals[0];
      var c := a.contact.(lastSeen := a.seen);
      assert a in arrivals && (front + Stamped(arrivals))[|front|] == c;
      NewcomerAppends(front, c, Stamped(arrivals), a.now);
      assert front + [c] + Stamped(arrivals[1..]) == front + Stamped(arrivals);
      AppendsInTable(local, k, front, a);
      BucketFills(local, k, front + [c], arrivals[1..]);
    }
  }

  lemma AppendsInTable(local: NodeID, k: nat, front: seq<Contact>, a: Arrival)
    requires k < BUCKETS && BucketIndex(local, a.contact.id) == k
    requires var c := a.contact.(lastSeen := a.seen); AddToBucket(front, BUCKET_SIZE, c, a.now) == front + [c]
    ensures AddToTable(local, EmptyTable()[k := front], a.contact, a.seen, a.now)
         == EmptyTable()[k := front + [a.contact.(lastSeen := a.seen)]]
  {
  }

  lemma NewcomerAppends(front: seq<Contact>, c: Contact, rest: seq<Contact>, now: Time)
    requires |front| < BUCKET_SIZE && rest != [] && rest[0] == c && UniqueIDs(front + rest)
    ensures AddToBucket(front, BUCKET_SIZE, c, now) == front + [c]
  {
    forall i | 0 <= i < |front|
      ensures front[i].id != c.id
    {
      assert (front + rest)[i].id != (front + rest)[|front|].id;
    }
  }

  lemma {:induction false} OneMoreArrival(local: NodeID, table: Table, arrivals: seq<Arrival>, a: Arrival)
    requires |table| == BUCKETS
    ensures AddAll(local, table, arrivals + [a])
         == AddToTable(local, AddAll(local, table, arrivals), a.contact, a.seen, a.now)
    decreases |arrivals|
  {
    if arrivals == [] {
      assert arrivals + [a] == [a] && [a][1..] == [];
    } else {
      var first := arrivals[0];
      assert (arrivals + [a])[1..] == arrivals[1..] + [a];
      OneMoreArrival(local, AddToTable(local, table, first.contact, first.seen, first.now), arrivals[1..], a);
    }
  }

  lemma {:induction false} OneLaterArrival(arrivals: seq<Arrival>, a: Arrival, clock: Time)
    requires Chronological(arrivals + [a], clock)
    ensures Chronological(arrivals, clock) && LastReading(arrivals, clock) <= a.seen <= a.now
    decreases |arrivals|
  {
    if arrivals != [] {
      assert (arrivals + [a])[1..] == arrivals[1..] + [a];
      OneLaterArrival(arrivals[1..], a, arrivals[0].now);
      assert LastReading(arrivals[1..], arrivals[0].now) == LastReading(arrivals, clock);
    }
  }

  /** The distinct identifiers of a bucket in the order of their first arrival. */
  function Arrived(local: NodeID, k: nat, arrivals: seq<Arrival>): (ids: seq<NodeID>)
    ensures forall id <- ids :: BucketIndex(local, id) == k
    decreases |arrivals|
  {
    if arrivals == [] then []
    else
      var before, id := Arrived(local, k, arrivals[..|arrivals| - 1]), arrivals[|arrivals| - 1].contact.id;
      if BucketIndex(local, id) == k && id !in before then before + [id] else before
  }

  /** The first twenty of them. */
  function Settlers(local: NodeID, k: nat, arrivals: seq<Arrival>): seq<NodeID> {
    var ids := Arrived(local, k, arrivals);
    if |ids| <= 20 then ids else ids[..20]
  }

  /** The contact as it last arrived, if it ever did. */
  function LastArrival(arrivals: seq<Arrival>, id: NodeID): Contact
    decreases |arrivals|
  {
    if arrivals == [] then Contact(id, "", 0)
    else
      var last := arrivals[|arrivals| - 1];
      if last.contact.id == id then Contact(id, last.contact.addr, last.seen)
      else LastArrival(arrivals[..|arrivals| - 1], id)
  }

  /** The bucket holds exactly these contacts, each once, with the address and time of its last arrival. */
  ghost predicate HoldsExactly(contacts: seq<Contact>, ids: seq<NodeID>, arrivals: seq<Arrival>) {
    && UniqueIDs(contacts) && |contacts| == |ids|
    && (forall c <- contacts :: c.id in ids && c == LastArrival(arrivals, c.id))
    && (forall id <- ids :: exists c <- contacts :: c.id == id)
  }

  lemma KnownMoves(contacts: seq<Contact>, ids: seq<NodeID>, before: seq<Arrival>, a: Arrival)
    requires HoldsExactly(contacts, ids, before) && a.contact.id in ids
    ensures HoldsExactly(AddToBucket(contacts, BUCKET_SIZE, a.contact.(lastSeen := a.seen), a.now), ids, before + [a])
  {
    var c, all := a.contact.(lastSeen := a.seen), before + [a];
    var i := Find(contacts, c.id);
    var known :| known in contacts && known.id == c.id;
    assert i < |contacts| && all[..|before|] == before;
    var rest := contacts[..i] + contacts[i + 1..];
    var after := rest + [c];
    MembersWithout(contacts, i);
    UniqueWithout(contacts, i);
    forall id | id in ids
      ensures exists d <- after :: d.id == id
    {
      var d :| d in contacts && d.id == id;
      assert if id == c.id then after[|rest|] == c else d in rest;
    }
  }

  lemma UniqueWithout(contacts: seq<Contact>, i: nat)
    requires i < |contacts| && UniqueIDs(contacts)
    ensures UniqueIDs(contacts[..i] + contacts[i + 1..])
  {
    var rest := contacts[..i] + contacts[i + 1..];
    forall j, l | 0 <= j < l < |rest|
      ensures rest[j].id != rest[l].id
    {
      assert rest[j] == contacts[if j < i then j else j + 1] && rest[l] == contacts[if l < i then l else l + 1];
    }
  }

  lemma NewSettles(contacts: seq<Contact>, ids: seq<NodeID>, before: seq<Arrival>, a: Arrival)
    requires HoldsExactly(contacts, ids, before) && a.contact.id !in ids && |ids| < BUCKET_SIZE
    ensures HoldsExactly(AddToBucket(contacts, BUCKET_SIZE, a.contact.(lastSeen := a.seen), a.now),
                         ids + [a.contact.id], before + [a])
  {
    var c, all := a.contact.(lastSeen := a.seen), before + [a];
    assert all[..|before|] == before && Find(contacts, c.id) == |contacts|;
    var after := contacts + [c];
    assert after[|contacts|] == c;
    forall id | id in ids + [c.id]
      ensures exists d <- after :: d.id == id
    {
      if id != c.id {
        var d :| d in contacts && d.id == id;
        assert d in after;
      }
    }
  }

  lemma NewIsDropped(contacts: seq<Contact>, ids: seq<NodeID>, before: seq<Arrival>, a: Arrival)
    requires HoldsExactly(contacts, ids, before) && a.contact.id !in ids && |ids| == BUCKET_SIZE
    requires forall c <- contacts :: a.now - c.lastSeen <= FIVE_MINUTES
    ensures HoldsExactly(AddToBucket(contacts, BUCKET_SIZE, a.contact.(lastSeen := a.seen), a.now), ids, before + [a])
  {
    var all := before + [a];
    assert all[..|before|] == before && Find(contacts, a.contact.id) == |contacts|;
    assert contacts[0] in contacts;
  }

  lemma OtherBucket(contacts: seq<Contact>, ids: seq<NodeID>, before: seq<Arrival>, a: Arrival)
    requires HoldsExactly(contacts, ids, before) && a.contact.id !in ids
    ensures HoldsExactly(contacts, ids, before + [a])
  {
    assert (before + [a])[..|before|] == before;
  }

  lemma {:induction false} LastArrivalIsLate(arrivals: seq<Arrival>, start: Time, id: NodeID)
    requires forall a <- arrivals :: start <= a.seen
    requires exists a <- arrivals :: a.contact.id == id
    ensures start <= LastArrival(arrivals, id).lastSeen
    decreases |arrivals|
  {
    var n := |arrivals| - 1;
    assert arrivals[n] in arrivals;
    if arrivals[n].contact.id != id {
      var a :| a in arrivals && a.contact.id == id;
      assert a in arrivals[..n];
      LastArrivalIsLate(arrivals[..n], start, id);
    }
  }

  lemma {:induction false} ArrivedArrived(local: NodeID, k: nat, arrivals: seq<Arrival>)
    ensures forall id <- Arrived(local, k, arrivals) :: exists a <- arrivals :: a.contact.id == id
    decreases |arrivals|
  {
    if arrivals != [] {
      var n := |arrivals| - 1;
      ArrivedArrived(local, k, arrivals[..n]);
      assert arrivals[n] in arrivals && forall a <- arrivals[..n] :: a in arrivals;
    }
  }

  lemma {:induction false} SeenLater(arrivals: seq<Arrival>, clock: Time)
    requires Chronological(arrivals, clock)
    ensures forall a <- arrivals :: clock <= a.seen
    decreases |arrivals|
  {
    if arrivals != [] {
      SeenLater(arrivals[1..], arrivals[0].now);
      assert arrivals == [arrivals[0]] + arrivals[1..];
    }
  }

  lemma NoneIsStale(local: NodeID, k: nat, before: seq<Arrival>, contacts: seq<Contact>, start: Time, now: Time)
    requires HoldsExactly(contacts, Settlers(local, k, before), before)
    requires (forall a <- before :: start <= a.seen) && now - start <= FIVE_MINUTES
    ensures forall c <- contacts :: now - c.lastSeen <= FIVE_MINUTES
  {
    ArrivedArrived(local, k, before);
    forall c | c in contacts
      ensures now - c.lastSeen <= FIVE_MINUTES
    {
      assert c.id in Arrived(local, k, before);
      LastArrivalIsLate(before, start, c.id);
    }
  }

  lemma SettlersMore(local: NodeID, k: nat, before: seq<Arrival>, a: Arrival)
    ensures var settled, id := Settlers(local, k, before), a.contact.id;
            Settlers(local, k, before + [a]) ==
              if BucketIndex(local, id) == k && id !in settled && |settled| < BUCKET_SIZE then settled + [id]
              else settled
  {
    var ids, id := Arrived(local, k, before), a.contact.id;
    assert (before + [a])[..|before|] == before;
    if |ids| >= BUCKET_SIZE {
      assert (ids + [id])[..BUCKET_SIZE] == ids[..BUCKET_SIZE];
    }
  }

  /** One more arrival, seen from its bucket and from any other. */
  lemma SettlersAfter(local: NodeID, k: nat, before: seq<Arrival>, a: Arrival, contacts: seq<Contact>)
    requires HoldsExactly(contacts, Settlers(local, k, before), before)
    requires forall c <- contacts :: a.now - c.lastSeen <= FIVE_MINUTES
    ensures BucketIndex(local, a.contact.id) != k ==>
              HoldsExactly(contacts, Settlers(local, k, before + [a]), before + [a])
    ensures BucketIndex(local, a.contact.id) == k ==>
              HoldsExactly(AddToBucket(contacts, BUCKET_SIZE, a.contact.(lastSeen := a.seen), a.now),
                           Settlers(local, k, before + [a]), before + [a])
  {
    var settled, id := Settlers(local, k, before), a.contact.id;
    SettlersMore(local, k, before, a);
    if BucketIndex(local, id) != k {
      OtherBucket(contacts, settled, before, a);
    } else if id in settled {
      KnownMoves(contacts, settled, before, a);
    } else if |settled| < BUCKET_SIZE {
      NewSettles(contacts, settled, before, a);
    } else {
      NewIsDropped(contacts, settled, before, a);
    }
  }

  /** As long as no arrival comes more than five minutes after the first, a bucket holds exactly the first
      twenty distinct identifiers of its index that arrived, each with the address and the time of its last arrival. */
  lemma {:induction false} BucketHoldsFirstTwenty(local: NodeID, k: nat, arrivals: seq<Arrival>, clock: Time)
    requires k < BUCKETS && Chronological(arrivals, clock)
    requires forall a <- arrivals :: a.now - arrivals[0].seen <= FIVE_MINUTES
    ensures var table := AddAll(local, EmptyTable(), arrivals);
            HoldsExactly(table[k], Settlers(local, k, arrivals), arrivals)
    decreases |arrivals|
  {
    if arrivals != [] {
      var n := |arrivals| - 1;
      var before, a := arrivals[..n], arrivals[n];
      assert arrivals == before + [a] && a in arrivals && forall b <- before :: b in arrivals;
      OneLaterArrival(before, a, clock);
      OneMoreArrival(local, EmptyTable(), before, a);
      BucketHoldsFirstTwenty(local, k, before, clock);
      var contacts := AddAll(local, EmptyTable(), before)[k];
      if before != [] {
        SeenLater(before[1..], before[0].now);
        assert before == [before[0]] + before[1..];
        NoneIsStale(local, k, before, contacts, arrivals[0].seen, a.now);
      }
      SettlersAfter(local, k, before, a, contacts);
    }
  }

  /** The identifier whose last byte is `v` and whose other bytes are zero. */
  function LowID(v: nat): NodeID
    requires v < 256
  {
    seq(19, _ => 0 as Byte) + [ToByte(v)]
  }

  lemma LowIDXor(v: nat)
    requires v < 256
    ensures XorBytes(LowID(0), LowID(v)) == LowID(v)
  {
    forall i | 0 <= i < 20
      ensures XorBytes(LowID(0), LowID(v))[i] == LowID(v)[i]
    {
      ZeroLeft(LowID(0)[i], LowID(v)[i], XorBytes(LowID(0), LowID(v))[i]);
    }
  }

  lemma ZeroLeft(z: Byte, b: Byte, x: Byte)
    requires z == 0 && x == z ^ b
    ensures x == b
  {
  }

  lemma LowIDDistance(v: nat)
    requires v < 256
    ensures XorDistance(LowID(0), LowID(v)) == v
  {
    var zeros, last: Bytes := seq(19, _ => 0 as Byte), [ToByte(v)];
    BigEndianZero(zeros);
    BigEndianConcat(zeros, last);
    assert last[..0] == [];
    LowIDXor(v);
    SmallModulo(BigEndian(LowID(v)));
  }

  lemma SmallModulo(d: nat)
    requires d < 256
    ensures d % TWO64 == d
  {
  }

  lemma LowIDBucket(v: nat)
    requires 32 <= v < 64
    ensures BucketIndex(LowID(0), LowID(v)) == 157
  {
    Pow2Byte();
    LowIDXor(v);
    LittleEndianHighest(LowID(v), 19, 5);
    Log2Unique(LittleEndian(LowID(v)), 157);
  }

  lemma {:induction false} SameTime(arrivals: seq<Arrival>)
    requires forall a <- arrivals :: a.seen == 0 && a.now == 0
    ensures Chronological(arrivals, 0)
    decreases |arrivals|
  {
    if arrivals != [] {
      assert arrivals[0] in arrivals;
      SameTime(arrivals[1..]);
    }
  }

  /** Twenty contacts of one bucket, one every nanosecond. */
  function FullHouse(n: nat): seq<Arrival>
    requires n <= BUCKET_SIZE
  {
    seq(n, i requires 0 <= i < n => Arrival(Contact(LowID(32 + i), "", 0), i, i))
  }

  const LATE: Time := FIVE_MINUTES + 20

  lemma {:induction false} FullHouseInTime(n: nat, from: nat)
    requires from <= n <= BUCKET_SIZE
    ensures Chronological(FullHouse(n)[from..], from)
    decreases n - from
  {
    if from < n {
      FullHouseInTime(n, from + 1);
      assert FullHouse(n)[from..][1..] == FullHouse(n)[from + 1..];
      EarlierClock(FullHouse(n)[from + 1..], from, from + 1);
    }
  }

  lemma EarlierClock(arrivals: seq<Arrival>, early: Time, late: Time)
    requires Chronological(arrivals, late) && early <= late
    ensures Chronological(arrivals, early)
  {
  }

  lemma FullHouseContacts(n: nat, i: nat)
    requires i < n <= BUCKET_SIZE
    ensures var c := Stamped(FullHouse(n))[i];
            c.id == LowID(32 + i) && c.id[19] as nat == 32 + i && c.lastSeen == i
    ensures BucketIndex(LowID(0), FullHouse(n)[i].contact.id) == 157
  {
    LowIDBucket(32 + i);
  }

  lemma FullHouseOrdered(n: nat)
    requires n <= BUCKET_SIZE
    ensures UniqueIDs(Stamped(FullHouse(n))) && OrderedByAge(Stamped(FullHouse(n)))
    ensures forall c <- Stamped(FullHouse(n)) :: c.id != LowID(52) && c.lastSeen <= LATE
  {
    var all := Stamped(FullHouse(n));
    forall i | 0 <= i < n
      ensures all[i].id[19] as nat == 32 + i && all[i].lastSeen == i
    {
      FullHouseContacts(n, i);
    }
    assert LowID(52)[19] as nat == 52;
  }

  lemma FullHouseLinesUp(n: nat)
    requires n <= BUCKET_SIZE
    ensures AddAll(LowID(0), EmptyTable(), FullHouse(n))[157] == Stamped(FullHouse(n))
  {
    var arrivals := FullHouse(n);
    FullHouseOrdered(n);
    forall a | a in arrivals
      ensures BucketIndex(LowID(0), a.contact.id) == 157
    {
      var i :| 0 <= i < n && arrivals[i] == a;
      FullHouseContacts(n, i);
    }
    assert EmptyTable()[157 := []] == EmptyTable() && [] + Stamped(arrivals) == Stamped(arrivals);
    BucketFills(LowID(0), 157, [], arrivals);
  }

  lemma ReplacedInFront(all: seq<Contact>, c: Contact)
    requires |all| == BUCKET_SIZE && UniqueIDs(all) && OrderedByAge(all)
    requires forall d <- all :: d.id != c.id && d.lastSeen <= c.lastSeen
    requires all[0].lastSeen == 0 && all[1].lastSeen == 1 && c.lastSeen == LATE
    ensures !OrderedByAge(AddToBucket(all, BUCKET_SIZE, c, LATE))
  {
    forall i | 0 <= i < |all|
      ensures all[i].id != c.id
    {
      assert all[i] in all;
    }
    assert Find(all, c.id) == |all|;
    OrderLostExactlyWhen(all, c, LATE);
  }

  /** A bucket does lose its order by age: twenty contacts fill it, and a newcomer replaces the first one
      more than five minutes later. */
  lemma {:induction false} OrderGetsLost()
    ensures var early := FullHouse(BUCKET_SIZE);
            var late := early + [Arrival(Contact(LowID(52), "", 0), LATE, LATE)];
            && Chronological(late, 0)
            && OrderedByAge(AddAll(LowID(0), EmptyTable(), early)[157])
            && !OrderedByAge(AddAll(LowID(0), EmptyTable(), late)[157])
  {
    var n := BUCKET_SIZE;
    var early, a := FullHouse(n), Arrival(Contact(LowID(52), "", 0), LATE, LATE);
    FullHouseInTime(n, 0);
    assert early[0..] == early;
    LaterArrival(early, a, 0);
    FullHouseLinesUp(n);
    FullHouseOrdered(n);
    FullHouseContacts(n, 0);
    FullHouseContacts(n, 1);
    OneMoreArrival(LowID(0), EmptyTable(), early, a);
    LowIDBucket(52);
    ReplacedInFront(Stamped(early), a.contact.(lastSeen := LATE));
  }

  lemma {:induction false} LaterArrival(arrivals: seq<Arrival>, a: Arrival, clock: Time)
    requires Chronological(arrivals, clock) && LastReading(arrivals, clock) <= a.seen <= a.now
    ensures Chronological(arrivals + [a], clock)
    decreases |arrivals|
  {
    if arrivals == [] {
      assert arrivals + [a] == [a] && [a][1..] == [];
    } else {
      assert (arrivals + [a])[1..] == arrivals[1..] + [a];
      assert LastReading(arrivals[1..], arrivals[0].now) == LastReading(arrivals, clock);
      LaterArrival(arrivals[1..], a, arrivals[0].now);
    }
  }
}

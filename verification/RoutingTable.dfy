/** k-buckets and the routing table they make up (src/p2p/kademlia.go). */
module RoutingTables {
  import opened Integers
  import opened NodeIDs

  /** Nanoseconds. */
  const FIVE_MINUTES: Time := 300_000_000_000

  const BUCKET_SIZE: nat := 20

  datatype Contact = Contact(id: NodeID, addr: string, lastSeen: Time)

  /** The position of the first contact with this id, or the length if there is none. */
  function Find(contacts: seq<Contact>, id: NodeID): (i: nat)
    ensures i <= |contacts| && (i < |contacts| ==> contacts[i].id == id)
    ensures forall j :: 0 <= j < i ==> contacts[j].id != id
  {
    if contacts == [] || contacts[0].id == id then 0 else 1 + Find(contacts[1..], id)
  }

  /** A known contact moves to the end; a new one takes a free place, or the first place if the
      contact there has not been seen for more than five minutes, or is dropped. */
  function AddToBucket(contacts: seq<Contact>, maxSize: nat, c: Contact, now: Time): seq<Contact>
    requires maxSize > 0
  {
    var i := Find(contacts, c.id);
    if i < |contacts| then contacts[..i] + contacts[i + 1..] + [c]
    else if |contacts| < maxSize then contacts + [c]
    else if now - contacts[0].lastSeen > FIVE_MINUTES then contacts[0 := c]
    else contacts
  }

  class Bucket {
    var contacts: seq<Contact>
    const maxSize: nat

    constructor (maxSize: nat)
      ensures contacts == [] && this.maxSize == if maxSize == 0 then 20 else maxSize
    {
      contacts := [];
      this.maxSize := if maxSize == 0 then 20 else maxSize;
    }

    method Add(contact: Contact, now: Time)
      requires maxSize > 0
      modifies this
      ensures contacts == AddToBucket(old(contacts), maxSize, contact, now)
    {
      for i := 0 to |contacts|
        invariant contacts == old(contacts)
        invariant forall j :: 0 <= j < i ==> contacts[j].id != contact.id
      {
        if contacts[i].id == contact.id {
          assert Find(contacts, contact.id) == i;
          contacts := contacts[..i] + contacts[i + 1..];
          contacts := contacts + [contact];
          return;
        }
      }
      if |contacts| < maxSize {
        contacts := contacts + [contact];
        return;
      }
      if now - contacts[0].lastSeen > FIVE_MINUTES {
        contacts := contacts[0 := contact];
      }
    }

    method GetContacts(limit: nat) returns (result: seq<Contact>)
      ensures result == Prefix(contacts, limit)
    {
      result := contacts[..if limit > |contacts| then |contacts| else limit];
    }
  }

  function Prefix(contacts: seq<Contact>, limit: nat): seq<Contact> {
    contacts[..if limit > |contacts| then |contacts| else limit]
  }

  /** What adding a contact does to a bucket, member by member: it is in afterwards, as it is, if it was known, if
      there is room, or if the first contact is stale; then it is the last one or takes that one's place.  All
      others stay, but for a stale first one that makes way. */
  lemma {:induction false} AddOutcome(contacts: seq<Contact>, c: Contact, now: Time)
    requires UniqueIDs(contacts) && |contacts| <= 20
    ensures var added := AddToBucket(contacts, BUCKET_SIZE, c, now);
            var roomy := (exists d <- contacts :: d.id == c.id) || |contacts| < 20;
            var stale := !roomy && now - contacts[0].lastSeen > 5 * 60 * 1_000_000_000;
            && (c in added <==> roomy || stale)
            && (roomy ==> added != [] && added[|added| - 1] == c)
            && (stale ==> added[0] == c)
            && (forall d <- contacts :: d.id != c.id ==> (d in added <==> !(stale && d == contacts[0])))
            && (forall d <- added :: d == c || (d in contacts && d.id != c.id))
  {
    var i := Find(contacts, c.id);
    if i < |contacts| {
      MembersWithout(contacts, i);
    } else {
      forall d | d in contacts
        ensures d.id != c.id
      {
        var j :| 0 <= j < |contacts| && contacts[j] == d;
      }
      if |contacts| < 20 {
        assert (contacts + [c])[|contacts|] == c;
      } else {
        FirstReplaced(contacts, c);
      }
    }
  }

  lemma FirstReplaced(contacts: seq<Contact>, c: Contact)
    requires contacts != [] && UniqueIDs(contacts) && forall d <- contacts :: d.id != c.id
    ensures var added := contacts[0 := c];
            && c in added && c !in contacts && contacts[0] !in added
            && (forall d <- contacts :: d in added <==> d != contacts[0])
            && (forall d <- added :: d == c || d in contacts)
  {
    var added := contacts[0 := c];
    assert added[0] == c && contacts == [contacts[0]] + contacts[1..] && added == [c] + contacts[1..];
    assert contacts[0] in contacts;
    forall j | 0 < j < |contacts|
      ensures contacts[j] != contacts[0] && contacts[j] in added
    {
      assert added[j] == contacts[j];
    }
  }

  lemma MembersWithout(contacts: seq<Contact>, i: nat)
    requires i < |contacts| && UniqueIDs(contacts)
    ensures var rest := contacts[..i] + contacts[i + 1..];
            && (forall d <- contacts :: d.id != contacts[i].id ==> d in rest)
            && (forall d <- rest :: d in contacts && d.id != contacts[i].id)
  {
    var rest := contacts[..i] + contacts[i + 1..];
    assert contacts == contacts[..i] + [contacts[i]] + contacts[i + 1..];
    forall d | d in rest
      ensures d in contacts && d.id != contacts[i].id
    {
      var j :| 0 <= j < |rest| && rest[j] == d;
      assert contacts[if j < i then j else j + 1] == d;
    }
  }

  type Table = seq<seq<Contact>>

  /** `seen` becomes the contact's `lastSeen`; `now` is the later reading that ages the first contact. */
  function AddToTable(local: NodeID, table: Table, c: Contact, seen: Time, now: Time): Table
    requires |table| == BUCKETS
  {
    var k := BucketIndex(local, c.id);
    table[k := AddToBucket(table[k], BUCKET_SIZE, c.(lastSeen := seen), now)]
  }

  predicate UniqueIDs(contacts: seq<Contact>) {
    forall i, j :: 0 <= i < j < |contacts| ==> contacts[i].id != contacts[j].id
  }

  /** Ordered by `lastSeen` from position 1 on.  The first place is different: a newcomer that
      replaces a stale contact there stays in front. */
  predicate OrderedTail(contacts: seq<Contact>) {
    forall i, j :: 1 <= i < j < |contacts| ==> contacts[i].lastSeen <= contacts[j].lastSeen
  }

  /** What every bucket keeps: place, size, uniqueness, order, and no contact from the future. */
  predicate BucketInvariant(local: NodeID, k: nat, contacts: seq<Contact>, clock: Time) {
    && |contacts| <= 20
    && (forall c <- contacts :: BucketIndex(local, c.id) == k && c.lastSeen <= clock)
    && UniqueIDs(contacts) && OrderedTail(contacts)
  }

  predicate TableInvariant(local: NodeID, table: Table, clock: Time) {
    |table| == BUCKETS && forall k :: 0 <= k < BUCKETS ==> BucketInvariant(local, k, table[k], clock)
  }

  /** Dropping the contact at `i` keeps the ids distinct and the tail in order. */
  lemma RemoveKeepsOrder(contacts: seq<Contact>, i: nat)
    requires i < |contacts| && UniqueIDs(contacts) && OrderedTail(contacts)
    ensures var rest := contacts[..i] + contacts[i + 1..];
            && UniqueIDs(rest) && OrderedTail(rest)
            && (forall d <- rest :: d in contacts && d.id != contacts[i].id)
  {
    var rest := contacts[..i] + contacts[i + 1..];
    forall d | d in rest
      ensures d in contacts && d.id != contacts[i].id
    {
      var p :| 0 <= p < |rest| && rest[p] == d;
      assert d == contacts[if p < i then p else p + 1];
    }
  }

  /** Appending a contact that is not older than the others and has an id of its own. */
  lemma AppendKeepsOrder(contacts: seq<Contact>, c: Contact)
    requires UniqueIDs(contacts) && OrderedTail(contacts)
    requires forall d <- contacts :: d.id != c.id && d.lastSeen <= c.lastSeen
    ensures UniqueIDs(contacts + [c]) && OrderedTail(contacts + [c])
  {
  }

  lemma AddKeepsOrder(contacts: seq<Contact>, c: Contact, now: Time)
    requires UniqueIDs(contacts) && OrderedTail(contacts)
    requires forall d <- contacts :: d.lastSeen <= c.lastSeen
    ensures var added := AddToBucket(contacts, BUCKET_SIZE, c, now);
            UniqueIDs(added) && OrderedTail(added)
  {
    var i := Find(contacts, c.id);
    if i < |contacts| {
      RemoveKeepsOrder(contacts, i);
      AppendKeepsOrder(contacts[..i] + contacts[i + 1..], c);
    } else {
      AppendKeepsOrder(contacts, c);
    }
  }

  lemma AddKeepsBucket(local: NodeID, k: nat, contacts: seq<Contact>, clock: Time, c: Contact, now: Time)
    requires BucketInvariant(local, k, contacts, clock)
    requires BucketIndex(local, c.id) == k && clock <= c.lastSeen <= now
    ensures BucketInvariant(local, k, AddToBucket(contacts, BUCKET_SIZE, c, now), now)
  {
    AddKeepsOrder(contacts, c, now);
    var added := AddToBucket(contacts, BUCKET_SIZE, c, now);
    forall d | d in added
      ensures BucketIndex(local, d.id) == k && d.lastSeen <= now
    {
      assert d == c || d in contacts;
    }
  }

  /** A contact with this id is in the bucket and was seen at `t` or later. */
  predicate Holds(contacts: seq<Contact>, id: NodeID, t: Time) {
    exists i :: 0 <= i < |contacts| && contacts[i].id == id && contacts[i].lastSeen >= t
  }

  /** Adding a contact never drops another one that was seen within the last five minutes. */
  lemma AddKeepsRecent(contacts: seq<Contact>, clock: Time, c: Contact, now: Time, id: NodeID, t: Time)
    requires UniqueIDs(contacts) && |contacts| <= BUCKET_SIZE
    requires Holds(contacts, id, t) && t <= clock <= c.lastSeen && now - t <= FIVE_MINUTES
    ensures Holds(AddToBucket(contacts, BUCKET_SIZE, c, now), id, t)
  {
    var added := AddToBucket(contacts, BUCKET_SIZE, c, now);
    var i := Find(contacts, c.id);
    var p :| 0 <= p < |contacts| && contacts[p].id == id && contacts[p].lastSeen >= t;
    if i < |contacts| {
      if p == i {
        assert added[|added| - 1] == c;
      } else if p < i {
        assert added[p] == contacts[p];
      } else {
        assert added[p - 1] == contacts[p];
      }
    } else {
      assert added[p] == contacts[p];
    }
  }

  /** One call of `AddContact`, with its two clock readings. */
  datatype Arrival = Arrival(contact: Contact, seen: Time, now: Time)

  /** The clock never runs backwards. */
  predicate Chronological(arrivals: seq<Arrival>, clock: Time)
    decreases |arrivals|
  {
    arrivals == [] ||
    (clock <= arrivals[0].seen <= arrivals[0].now && Chronological(arrivals[1..], arrivals[0].now))
  }

  function AddAll(local: NodeID, table: Table, arrivals: seq<Arrival>): (after: Table)
    requires |table| == BUCKETS
    ensures |after| == BUCKETS
    decreases |arrivals|
  {
    if arrivals == [] then table
    else AddAll(local, AddToTable(local, table, arrivals[0].contact, arrivals[0].seen, arrivals[0].now), arrivals[1..])
  }

  lemma AddKeepsTable(local: NodeID, table: Table, clock: Time, a: Arrival)
    requires TableInvariant(local, table, clock) && clock <= a.seen <= a.now
    ensures TableInvariant(local, AddToTable(local, table, a.contact, a.seen, a.now), a.now)
  {
    var k, c := BucketIndex(local, a.contact.id), a.contact.(lastSeen := a.seen);
    AddKeepsBucket(local, k, table[k], clock, c, a.now);
    forall j | 0 <= j < BUCKETS && j != k
      ensures BucketInvariant(local, j, table[j], a.now)
    {
      assert BucketInvariant(local, j, table[j], clock);
    }
  }

  function LastReading(arrivals: seq<Arrival>, clock: Time): Time {
    if arrivals == [] then clock else arrivals[|arrivals| - 1].now
  }

  /** In every run of `AddContact`, each contact sits in the bucket its identifier names, no bucket
      holds more than twenty, identifiers are unique, and all but the first place are ordered by age. */
  lemma {:induction false} RunKeepsTable(local: NodeID, table: Table, clock: Time, arrivals: seq<Arrival>)
    requires TableInvariant(local, table, clock) && Chronological(arrivals, clock)
    ensures TableInvariant(local, AddAll(local, table, arrivals), LastReading(arrivals, clock))
    decreases |arrivals|
  {
    if arrivals != [] {
      var a := arrivals[0];
      AddKeepsTable(local, table, clock, a);
      RunKeepsTable(local, AddToTable(local, table, a.contact, a.seen, a.now), a.now, arrivals[1..]);
      assert LastReading(arrivals[1..], a.now) == LastReading(arrivals, clock);
    }
  }

  function EmptyTable(): Table {
    seq(BUCKETS, _ => [])
  }

  lemma EmptyTableInvariant(local: NodeID, clock: Time)
    ensures TableInvariant(local, EmptyTable(), clock)
  {
  }

  /** An identifier is unique in the whole table, not just in its bucket. */
  lemma {:induction false} UniqueAcrossTable(local: NodeID, table: Table, clock: Time, k: nat, i: nat, l: nat, j: nat)
    requires TableInvariant(local, table, clock)
    requires k < BUCKETS && l < BUCKETS && i < |table[k]| && j < |table[l]|
    requires table[k][i].id == table[l][j].id
    ensures k == l && i == j
  {
    assert BucketInvariant(local, k, table[k], clock) && BucketInvariant(local, l, table[l], clock);
    assert table[k][i] in table[k] && table[l][j] in table[l];
  }

  /** A contact of the table is never dropped within five minutes of being seen, whoever else
      arrives in the meantime. */
  lemma {:induction false} RecentContactsStay(local: NodeID, table: Table, clock: Time, arrivals: seq<Arrival>,
                                              id: NodeID, t: Time)
    requires TableInvariant(local, table, clock) && Chronological(arrivals, clock) && t <= clock
    requires Holds(table[BucketIndex(local, id)], id, t)
    requires forall a <- arrivals :: a.now - t <= FIVE_MINUTES
    ensures var after := AddAll(local, table, arrivals);
            Holds(after[BucketIndex(local, id)], id, t)
    decreases |arrivals|
  {
    if arrivals != [] {
      var a := arrivals[0];
      var k := BucketIndex(local, a.contact.id);
      assert a in arrivals && BucketInvariant(local, k, table[k], clock);
      if k == BucketIndex(local, id) {
        AddKeepsRecent(table[k], clock, a.contact.(lastSeen := a.seen), a.now, id, t);
      }
      AddKeepsTable(local, table, clock, a);
      RecentContactsStay(local, AddToTable(local, table, a.contact, a.seen, a.now), a.now, arrivals[1..], id, t);
    }
  }

  predicate OrderedByAge(contacts: seq<Contact>) {
    forall i, j :: 0 <= i < j < |contacts| ==> contacts[i].lastSeen <= contacts[j].lastSeen
  }

  /** A bucket does not stay ordered as a whole: the order is lost exactly when a newcomer takes the
      place of a stale first contact and the second contact is older than it. */
  lemma {:induction false} OrderLostExactlyWhen(contacts: seq<Contact>, c: Contact, now: Time)
    requires UniqueIDs(contacts) && OrderedByAge(contacts) && |contacts| <= BUCKET_SIZE
    requires forall d <- contacts :: d.lastSeen <= c.lastSeen
    ensures !OrderedByAge(AddToBucket(contacts, BUCKET_SIZE, c, now)) <==>
            && Find(contacts, c.id) == |contacts| == BUCKET_SIZE
            && now - contacts[0].lastSeen > FIVE_MINUTES
            && contacts[1].lastSeen < c.lastSeen
  {
    var i := Find(contacts, c.id);
    if i < |contacts| {
      RemoveKeepsAge(contacts, i);
      AppendKeepsAge(contacts[..i] + contacts[i + 1..], c);
    } else if |contacts| < BUCKET_SIZE {
      AppendKeepsAge(contacts, c);
    } else if now - contacts[0].lastSeen > FIVE_MINUTES {
      FrontKeepsAge(contacts, c);
    }
  }

  lemma RemoveKeepsAge(contacts: seq<Contact>, i: nat)
    requires i < |contacts| && OrderedByAge(contacts)
    ensures OrderedByAge(contacts[..i] + contacts[i + 1..])
    ensures forall d <- contacts[..i] + contacts[i + 1..] :: d in contacts
  {
  }

  lemma AppendKeepsAge(contacts: seq<Contact>, c: Contact)
    requires OrderedByAge(contacts) && forall d <- contacts :: d.lastSeen <= c.lastSeen
    ensures OrderedByAge(contacts + [c])
  {
  }

  lemma FrontKeepsAge(contacts: seq<Contact>, c: Contact)
    requires |contacts| > 1 && OrderedByAge(contacts) && forall d <- contacts :: d.lastSeen <= c.lastSeen
    ensures OrderedByAge(contacts[0 := c]) <==> contacts[1].lastSeen >= c.lastSeen
  {
    var replaced := contacts[0 := c];
    if contacts[1].lastSeen >= c.lastSeen {
      forall i, j | 0 <= i < j < |replaced|
        ensures replaced[i].lastSeen <= replaced[j].lastSeen
      {
        assert contacts[1].lastSeen <= contacts[j].lastSeen;
      }
    } else {
      assert replaced[0].lastSeen > replaced[1].lastSeen;
    }
  }
}

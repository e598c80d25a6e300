/** The closest contacts to a target (src/p2p/kademlia.go): collect, sort in place, cut off. */
module ClosestContacts {
  import opened Integers
  import opened NodeIDs
  import opened RoutingTables
  import opened BucketRuns

  function Distance(target: NodeID, c: Contact): nat {
    XorDistance(target, c.id)
  }

  predicate SortedByDistance(target: NodeID, s: seq<Contact>) {
    forall i, j :: 0 <= i < j < |s| ==> Distance(target, s[i]) <= Distance(target, s[j])
  }

  /** The first `limit` contacts of every bucket from `k` on. */
  function Collected(table: Table, limit: nat, k: nat): seq<Contact>
    requires k <= |table|
    decreases |table| - k
  {
    if k == |table| then [] else Prefix(table[k], limit) + Collected(table, limit, k + 1)
  }

  lemma {:induction false} CollectedSplit(table: Table, limit: nat, k: nat, all: seq<Contact>)
    requires k < |table| && all + Collected(table, limit, k) == Collected(table, limit, 0)
    ensures all + Prefix(table[k], limit) + Collected(table, limit, k + 1) == Collected(table, limit, 0)
  {
    assert all + (Prefix(table[k], limit) + Collected(table, limit, k + 1))
        == all + Prefix(table[k], limit) + Collected(table, limit, k + 1);
  }

  /** `result` is the nearest part of `candidates`: taken from them, sorted, as many as asked for or
      all there are, and no candidate left out is strictly nearer than one returned. */
  predicate Nearest(target: NodeID, candidates: seq<Contact>, limit: nat, result: seq<Contact>) {
    && multiset(result) <= multiset(candidates)
    && |result| == (if limit < |candidates| then limit else |candidates|)
    && SortedByDistance(target, result)
    && forall c <- result, d <- multiset(candidates) - multiset(result) :: Distance(target, c) <= Distance(target, d)
  }

  lemma SwapPermutes(s: seq<Contact>, i: nat, j: nat)
    requires i < j < |s|
    ensures multiset(s[i := s[j]][j := s[i]]) == multiset(s)
  {
  }

  /** Nothing before `i` is farther than anything after it. */
  predicate Settled(target: NodeID, s: seq<Contact>, i: nat) {
    forall p, q :: 0 <= p < i && p < q < |s| ==> Distance(target, s[p]) <= Distance(target, s[q])
  }

  /** Besides, position `i` holds the nearest of the positions from `i` up to `j`. */
  predicate Settling(target: NodeID, s: seq<Contact>, i: nat, j: nat)
    requires i < |s|
  {
    Settled(target, s, i) && forall q :: i < q < j && q < |s| ==> Distance(target, s[i]) <= Distance(target, s[q])
  }

  /** One comparison of the sort, with the exchange it may cause. */
  function Exchange(target: NodeID, s: seq<Contact>, i: nat, j: nat): seq<Contact>
    requires i < j < |s|
  {
    if Distance(target, s[i]) > Distance(target, s[j]) then s[i := s[j]][j := s[i]] else s
  }

  lemma ExchangeSettles(target: NodeID, s: seq<Contact>, i: nat, j: nat)
    requires i < j < |s| && Settling(target, s, i, j)
    ensures Settling(target, Exchange(target, s, i, j), i, j + 1)
    ensures multiset(Exchange(target, s, i, j)) == multiset(s)
  {
    SwapPermutes(s, i, j);
  }

  method ExchangeSort(a: array<Contact>, target: NodeID)
    modifies a
    ensures SortedByDistance(target, a[..])
    ensures multiset(a[..]) == multiset(old(a[..]))
  {
    var i := 0;
    while i < a.Length - 1
      invariant 0 <= i && Settled(target, a[..], i)
      invariant multiset(a[..]) == multiset(old(a[..]))
    {
      for j := i + 1 to a.Length
        invariant Settling(target, a[..], i, j)
        invariant multiset(a[..]) == multiset(old(a[..]))
      {
        ghost var s := a[..];
        ExchangeSettles(target, s, i, j);
        var distI := ComputeXorDistance(target, a[i].id);
        var distJ := ComputeXorDistance(target, a[j].id);
        if distI > distJ {
          a[i], a[j] := a[j], a[i];
        }
        assert a[..] == Exchange(target, s, i, j);
      }
      i := i + 1;
    }
  }

  lemma FrontNotFarther(target: NodeID, result: seq<Contact>, rest: seq<Contact>)
    requires SortedByDistance(target, result + rest)
    ensures SortedByDistance(target, result)
    ensures forall c <- result, d <- rest :: Distance(target, c) <= Distance(target, d)
  {
    var all := result + rest;
    forall i, j | 0 <= i < j < |result|
      ensures Distance(target, result[i]) <= Distance(target, result[j])
    {
      assert result[i] == all[i] && result[j] == all[j];
    }
    forall c, d | c in result && d in rest
      ensures Distance(target, c) <= Distance(target, d)
    {
      var p :| 0 <= p < |result| && result[p] == c;
      var q :| 0 <= q < |rest| && rest[q] == d;
      assert c == all[p] && d == all[|result| + q];
    }
  }

  lemma CutOff(target: NodeID, candidates: seq<Contact>, sorted: seq<Contact>, limit: nat)
    requires multiset(sorted) == multiset(candidates) && |sorted| == |candidates| && SortedByDistance(target, sorted)
    ensures Nearest(target, candidates, limit, Prefix(sorted, limit))
  {
    var result := Prefix(sorted, limit);
    var rest := sorted[|result|..];
    assert sorted == result + rest;
    FrontNotFarther(target, result, rest);
    assert multiset(candidates) - multiset(result) == multiset(rest);
  }

  method Collect(buckets: seq<Bucket>, limit: nat) returns (all: seq<Contact>)
    requires |buckets| == BUCKETS
    ensures all == Collected(Contents(buckets), limit, 0)
  {
    ghost var table := Contents(buckets);
    all := [];
    for i := 0 to BUCKETS
      invariant all + Collected(table, limit, i) == Collected(table, limit, 0)
    {
      var contacts := buckets[i].GetContacts(limit);
      CollectedSplit(table, limit, i, all);
      all := all + contacts;
    }
    assert all + [] == all;
  }

  method SortAndCut(all: seq<Contact>, target: NodeID, limit: nat) returns (result: seq<Contact>)
    ensures Nearest(target, all, limit, result)
  {
    var a := new Contact[|all|](i requires 0 <= i < |all| => all[i]);
    assert a[..] == all;
    ExchangeSort(a, target);
    CutOff(target, all, a[..], limit);
    if a.Length > limit {
      return a[..limit];
    }
    assert Prefix(a[..], limit) == a[..];
    return a[..];
  }

  function Limit(count: int): nat {
    if count <= 0 then 20 else count
  }

  ghost function Contents(buckets: seq<Bucket>): (t: Table)
    reads buckets
    ensures |t| == |buckets| && forall k :: 0 <= k < |t| ==> t[k] == buckets[k].contacts
  {
    seq(|buckets|, k requires 0 <= k < |buckets| reads buckets => buckets[k].contacts)
  }

  /** The contacts of the whole table from bucket `k` on. */
  function AllContacts(table: Table, k: nat): seq<Contact>
    requires k <= |table|
    decreases |table| - k
  {
    if k == |table| then [] else table[k] + AllContacts(table, k + 1)
  }

  /** Asking for at least as many contacts as a bucket can hold leaves nothing out. */
  lemma {:induction false} LargeLimitCollectsAll(table: Table, limit: nat, k: nat)
    requires k <= |table| && forall bucket <- table :: |bucket| <= limit
    ensures Collected(table, limit, k) == AllContacts(table, k)
    decreases |table| - k
  {
    if k < |table| {
      LargeLimitCollectsAll(table, limit, k + 1);
      WholeBucket(table[k], limit);
    }
  }

  lemma WholeBucket(contacts: seq<Contact>, limit: nat)
    requires |contacts| <= limit
    ensures Prefix(contacts, limit) == contacts
  {
  }

  lemma {:induction false} CollectedFrom(table: Table, limit: nat, k: nat, c: Contact)
    requires k <= |table| && c in Collected(table, limit, k)
    ensures exists j :: k <= j < |table| && c in table[j]
    decreases |table| - k
  {
    if c in Prefix(table[k], limit) {
      assert c in table[k];
    } else {
      CollectedFrom(table, limit, k + 1, c);
    }
  }

  /** In a table that keeps its invariant, the collected contacts have distinct identifiers. */
  lemma {:induction false} CollectedUnique(local: NodeID, table: Table, clock: Time, limit: nat, k: nat)
    requires TableInvariant(local, table, clock) && k <= |table|
    ensures UniqueIDs(Collected(table, limit, k))
    decreases |table| - k
  {
    if k < |table| {
      var first, rest := Prefix(table[k], limit), Collected(table, limit, k + 1);
      CollectedUnique(local, table, clock, limit, k + 1);
      assert BucketInvariant(local, k, table[k], clock);
      forall i, j | 0 <= i < |first| && 0 <= j < |rest|
        ensures first[i].id != rest[j].id
      {
        assert first[i] in table[k];
        CollectedFrom(table, limit, k + 1, rest[j]);
        var l :| k + 1 <= l < |table| && rest[j] in table[l];
        assert BucketInvariant(local, l, table[l], clock);
      }
    }
  }

  lemma UniqueSubset(all: seq<Contact>, some: seq<Contact>)
    requires UniqueIDs(all) && multiset(some) <= multiset(all)
    ensures UniqueIDs(some)
  {
    forall i, j | 0 <= i < j < |some|
      ensures some[i].id != some[j].id
    {
      if some[i].id == some[j].id {
        var c, d := some[i], some[j];
        assert c in multiset(some) && d in multiset(some);
        var p :| 0 <= p < |all| && all[p] == c;
        var q :| 0 <= q < |all| && all[q] == d;
        assert p == q;
        OneOccurrence(all, p);
        TwoOccurrences(some, i, j);
        assert false;
      }
    }
  }

  lemma {:induction false} OneOccurrence(all: seq<Contact>, p: nat)
    requires UniqueIDs(all) && p < |all|
    ensures multiset(all)[all[p]] == 1
  {
    assert all == all[..p] + [all[p]] + all[p + 1..];
    assert all[p] !in all[..p] && all[p] !in all[p + 1..];
  }

  lemma TwoOccurrences(some: seq<Contact>, i: nat, j: nat)
    requires i < j < |some| && some[i] == some[j]
    ensures multiset(some)[some[i]] >= 2
  {
    assert some == some[..j] + [some[j]] + some[j + 1..];
    assert some[i] in some[..j];
  }

  /** For every reachable table, what `FindClosest` returns has no identifier twice; and when the
      caller asks for at least twenty contacts, or leaves the number to it, the result is nearest
      among all contacts of the table. */
  lemma {:induction false} ClosestOfTable(local: NodeID, arrivals: seq<Arrival>, clock: Time, target: NodeID,
                                          count: int, result: seq<Contact>)
    requires Chronological(arrivals, clock)
    requires Nearest(target, Collected(AddAll(local, EmptyTable(), arrivals), Limit(count), 0), Limit(count), result)
    ensures UniqueIDs(result)
    ensures count <= 0 || count >= BUCKET_SIZE ==>
              Nearest(target, AllContacts(AddAll(local, EmptyTable(), arrivals), 0), Limit(count), result)
  {
    var limit := Limit(count);
    var table := AddAll(local, EmptyTable(), arrivals);
    EmptyTableInvariant(local, clock);
    RunKeepsTable(local, EmptyTable(), clock, arrivals);
    CollectedUnique(local, table, LastReading(arrivals, clock), limit, 0);
    UniqueSubset(Collected(table, limit, 0), result);
    if limit >= BUCKET_SIZE {
      forall bucket | bucket in table
        ensures |bucket| <= limit
      {
        var k :| 0 <= k < |table| && table[k] == bucket;
        assert BucketInvariant(local, k, table[k], LastReading(arrivals, clock));
      }
      LargeLimitCollectsAll(table, limit, 0);
    }
  }

  /** The answer to a query for `count` contacts near `target` is nearest in the whole table. */
  ghost predicate AnswersNearest(local: NodeID, arrivals: seq<Arrival>, target: NodeID, count: int,
                                 result: seq<Contact>) {
    var table := AddAll(local, EmptyTable(), arrivals);
    Nearest(target, Collected(table, Limit(count), 0), Limit(count), result) ==>
      Nearest(target, AllContacts(table, 0), Limit(count), result)
  }

  lemma TableOfOneBucket(local: NodeID, arrivals: seq<Arrival>, count: nat, k: nat)
    requires |arrivals| == count + 1 <= BUCKET_SIZE && k < BUCKETS
    requires UniqueIDs(Stamped(arrivals)) && forall a <- arrivals :: BucketIndex(local, a.contact.id) == k
    ensures var table := AddAll(local, EmptyTable(), arrivals);
            Collected(table, count, 0) == Stamped(arrivals)[..count] && AllContacts(table, 0) == Stamped(arrivals)
  {
    var all := Stamped(arrivals);
    assert EmptyTable()[k := []] == EmptyTable() && [] + all == all;
    BucketFills(local, k, [], arrivals);
    OnlyBucket(EmptyTable()[k := all], count, k, 0);
  }

  lemma LastIsMissed(target: NodeID, all: seq<Contact>, count: nat, i: nat, result: seq<Contact>)
    requires |all| == count + 1 && i < count && Distance(target, all[count]) < Distance(target, all[i])
    requires Nearest(target, all[..count], count, result)
    ensures multiset(result) == multiset(all[..count]) && !Nearest(target, all, count, result)
  {
    var near, first := all[count], all[..count];
    assert all == first + [near];
    SameSize(multiset(result), multiset(first));
    assert first[i] in multiset(result);
    assert multiset(all) - multiset(result) == multiset{near};
  }

  /** With a smaller count the nearest contact of the table can be missed: each bucket offers only its
      first `count` contacts, the least recently seen ones.  A node that met `count` contacts and then, in
      the same bucket, one nearer to the target than one of these, returns just the first ones. */
  lemma {:induction false} SmallCountMissesNearest(local: NodeID, arrivals: seq<Arrival>, target: NodeID,
                                                   count: nat, k: nat, i: nat, result: seq<Contact>)
    requires 0 < count < BUCKET_SIZE && |arrivals| == count + 1 && i < count && k < BUCKETS
    requires UniqueIDs(Stamped(arrivals)) && forall a <- arrivals :: BucketIndex(local, a.contact.id) == k
    requires XorDistance(target, arrivals[count].contact.id) < XorDistance(target, arrivals[i].contact.id)
    requires Nearest(target, Collected(AddAll(local, EmptyTable(), arrivals), count, 0), count, result)
    ensures multiset(result) == multiset(Stamped(arrivals)[..count])
    ensures !Nearest(target, AllContacts(AddAll(local, EmptyTable(), arrivals), 0), count, result)
  {
    TableOfOneBucket(local, arrivals, count, k);
    LastIsMissed(target, Stamped(arrivals), count, i, result);
  }

  lemma SameSize(some: multiset<Contact>, all: multiset<Contact>)
    requires some <= all && |some| == |all|
    ensures some == all
  {
    assert all == some + (all - some);
    assert |all - some| == 0;
  }

  /** Contacts at distances 33, 34, ... from the identifier zero, and at last one at distance 32. */
  function Meetings(count: nat): seq<Arrival>
    requires count < BUCKET_SIZE
  {
    seq(count + 1, i requires 0 <= i <= count => Arrival(Contact(LowID(Away(count, i)), "", 0), 0, 0))
  }

  function Away(count: nat, i: nat): nat {
    if i < count then 33 + i else 32
  }

  lemma MeetingsApart(count: nat)
    requires 0 < count < BUCKET_SIZE
    ensures var arrivals, all := Meetings(count), Stamped(Meetings(count));
            && (forall i :: 0 <= i <= count ==> Distance(LowID(0), all[i]) == Away(count, i))
            && (forall a <- arrivals :: BucketIndex(LowID(0), a.contact.id) == 157)
  {
    var arrivals, all := Meetings(count), Stamped(Meetings(count));
    forall i | 0 <= i <= count
      ensures BucketIndex(LowID(0), arrivals[i].contact.id) == 157
      ensures Distance(LowID(0), all[i]) == Away(count, i)
    {
      LowIDBucket(Away(count, i));
      LowIDDistance(Away(count, i));
    }
  }

  lemma AwayIsNearest(target: NodeID, all: seq<Contact>, count: nat)
    requires |all| == count + 1 && forall i :: 0 <= i <= count ==> Distance(target, all[i]) == Away(count, i)
    ensures UniqueIDs(all) && Nearest(target, all[..count], count, all[..count])
  {
    forall i, j | 0 <= i < j <= count
      ensures all[i].id != all[j].id
    {
      assert Distance(target, all[i]) != Distance(target, all[j]);
    }
  }

  lemma MeetingsMissNearest(count: nat)
    requires 0 < count < BUCKET_SIZE
    ensures Chronological(Meetings(count), 0)
    ensures !AnswersNearest(LowID(0), Meetings(count), LowID(0), count, Stamped(Meetings(count))[..count])
  {
    var arrivals, all := Meetings(count), Stamped(Meetings(count));
    SameTime(arrivals);
    MeetingsApart(count);
    AwayIsNearest(LowID(0), all, count);
    TableOfOneBucket(LowID(0), arrivals, count, 157);
    assert Distance(LowID(0), all[count]) < Distance(LowID(0), all[0]);
    LastIsMissed(LowID(0), all, count, 0, all[..count]);
  }

  /** In every run and for every target. */
  ghost predicate AlwaysAnswersNearest(count: int) {
    forall local, arrivals, clock, target, result ::
      Chronological(arrivals, clock) ==> AnswersNearest(local, arrivals, target, count, result)
  }

  /** `FindClosest` returns the nearest contacts of the whole table, in every run and for every target, if
      and only if it is asked for at least as many as a bucket holds, or for no particular number. */
  lemma {:induction false} NearestOfTableExactlyWhen(count: int)
    ensures AlwaysAnswersNearest(count) <==> count <= 0 || count >= 20
  {
    if count <= 0 || count >= BUCKET_SIZE {
      forall local, arrivals, clock, target, result | Chronological(arrivals, clock)
        ensures AnswersNearest(local, arrivals, target, count, result)
      {
        LargeCountAnswers(local, arrivals, clock, target, count, result);
      }
    } else {
      MeetingsMissNearest(count);
      var zero, arrivals, result := LowID(0), Meetings(count), Stamped(Meetings(count))[..count];
      assert Chronological(arrivals, 0) && !AnswersNearest(zero, arrivals, zero, count, result);
    }
  }

  lemma LargeCountAnswers(local: NodeID, arrivals: seq<Arrival>, clock: Time, target: NodeID, count: int,
                          result: seq<Contact>)
    requires Chronological(arrivals, clock) && (count <= 0 || count >= BUCKET_SIZE)
    ensures AnswersNearest(local, arrivals, target, count, result)
  {
    if Nearest(target, Collected(AddAll(local, EmptyTable(), arrivals), Limit(count), 0), Limit(count), result) {
      ClosestOfTable(local, arrivals, clock, target, count, result);
    }
  }

  lemma {:induction false} OnlyBucket(table: Table, limit: nat, k: nat, from: nat)
    requires k < |table| && from <= k && forall j :: 0 <= j < |table| && j != k ==> table[j] == []
    ensures Collected(table, limit, from) == Prefix(table[k], limit)
    ensures AllContacts(table, from) == table[k]
    decreases k - from
  {
    if from < k {
      OnlyBucket(table, limit, k, from + 1);
      assert Prefix([], limit) == [];
    } else {
      NothingCollected(table, limit, k + 1);
    }
  }

  lemma {:induction false} NothingCollected(table: Table, limit: nat, from: nat)
    requires from <= |table| && forall j :: from <= j < |table| ==> table[j] == []
    ensures Collected(table, limit, from) == [] && AllContacts(table, from) == []
    decreases |table| - from
  {
    if from < |table| {
      NothingCollected(table, limit, from + 1);
    }
  }
}

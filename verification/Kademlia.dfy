/** A Kademlia node (src/p2p/kademlia.go): its buckets and its value store. */
module KademliaNodes {
  import opened Integers
  import opened NodeIDs
  import opened RoutingTables
  import opened ClosestContacts
  import opened WireStores

  class Kademlia {
    const localID: NodeID
    const buckets: seq<Bucket>
    var dataStore: Values

    ghost predicate Valid() {
      && |buckets| == BUCKETS
      && (forall i :: 0 <= i < BUCKETS ==> buckets[i].maxSize == BUCKET_SIZE)
      && (forall i, j :: 0 <= i < j < BUCKETS ==> buckets[i] != buckets[j])
    }

    ghost function RoutingTable(): (t: Table)
      requires Valid()
      reads buckets
      ensures |t| == BUCKETS
    {
      Contents(buckets)
    }

    constructor (localID: NodeID)
      ensures Valid() && this.localID == localID && fresh(buckets)
      ensures RoutingTable() == EmptyTable() && dataStore == map[]
    {
      var made: seq<Bucket> := [];
      for i := 0 to BUCKETS
        invariant |made| == i && fresh(made)
        invariant forall j :: 0 <= j < i ==> made[j].contacts == [] && made[j].maxSize == BUCKET_SIZE
        invariant forall j, k :: 0 <= j < k < i ==> made[j] != made[k]
      {
        var b := new Bucket(20);
        made := made + [b];
      }
      this.localID := localID;
      buckets := made;
      dataStore := map[];
    }

    method AddContact(contact: Contact, seen: Time, now: Time)
      requires Valid()
      modifies buckets
      ensures RoutingTable() == AddToTable(localID, old(RoutingTable()), contact, seen, now)
    {
      var stamped := contact.(lastSeen := seen);
      var index := GetBucketIndex(localID, stamped.id);
      ghost var before := RoutingTable();
      buckets[index].Add(stamped, now);
      assert forall i :: 0 <= i < BUCKETS && i != index ==> buckets[i].contacts == before[i];
    }

    /** The `count` contacts nearest to `target` among the first `count` of every bucket. */
    method FindClosest(target: NodeID, count: int) returns (result: seq<Contact>)
      requires Valid()
      ensures var limit := if count <= 0 then 20 else count;
              Nearest(target, Collected(RoutingTable(), limit, 0), limit, result)
    {
      var allContacts := Collect(buckets, Limit(count));
      result := SortAndCut(allContacts, target, Limit(count));
    }

    method Store(key: string, value: string)
      modifies this`dataStore
      ensures dataStore == old(dataStore)[key := value]
    {
      dataStore := dataStore[key := value];
    }

    method FindValue(key: string) returns (value: string, ok: bool)
      ensures ok <==> key in dataStore
      ensures ok ==> value == dataStore[key]
    {
      ok := key in dataStore;
      value := if ok then dataStore[key] else "";
    }

    /** One turn of the message loop. */
    method HandleMessage(msg: string) returns (reply: Reply)
      modifies this`dataStore
      ensures (dataStore, reply) == Dispatch(old(dataStore), msg)
    {
      reply := Silence;
      if |msg| > 4 && msg[..4] == "HELLO" {
        reply := Handshake;
      } else if msg == "PING" {
        reply := Text("PONG");
      } else if msg == "PONG" {
      } else if msg == "FIND_NODE" {
        reply := Text("NODES");
      } else if |msg| > 6 && msg[..6] == "STORE:" {
        var parts := SplitTwo(msg[6..]);
        if parts.Some? {
          Store(parts.value.0, parts.value.1);
        }
      } else if |msg| > 11 && msg[..11] == "FIND_VALUE:" {
        var value, ok := FindValue(msg[11..]);
        if ok {
          reply := Text("VALUE:" + value);
        }
      }
    }
  }
}

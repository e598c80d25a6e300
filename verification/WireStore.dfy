/** The text protocol and the value store behind it (src/p2p/kademlia.go). */
module WireStores {
  import opened Wrappers

  /** What a node sends back: nothing, a text, or its part of the handshake. */
  datatype Reply = Silence | Text(text: string) | Handshake

  type Values = map<string, string>

  /** The position of the first colon, or the length if there is none. */
  function Colon(s: string): (i: nat)
    ensures i <= |s| && (i < |s| ==> s[i] == ':')
    ensures forall j :: 0 <= j < i ==> s[j] != ':'
  {
    if s == [] || s[0] == ':' then 0 else 1 + Colon(s[1..])
  }

  /** `strings.SplitN(s, ":", 2)`: the parts before and after the first colon, if there is one. */
  function SplitTwo(s: string): Option<(string, string)> {
    var i := Colon(s);
    if i == |s| then None else Some((s[..i], s[i + 1..]))
  }

  /** One incoming message: the new store and the reply.  The first test compares four bytes with
      a word of five, so it never succeeds. */
  function Dispatch(values: Values, msg: string): (Values, Reply) {
    if |msg| > 4 && msg[..4] == "HELLO" then (values, Handshake)
    else if msg == "PING" then (values, Text("PONG"))
    else if msg == "PONG" then (values, Silence)
    else if msg == "FIND_NODE" then (values, Text("NODES"))
    else if |msg| > 6 && msg[..6] == "STORE:" then
      match SplitTwo(msg[6..])
      case Some((key, value)) => (values[key := value], Silence)
      case None => (values, Silence)
    else if |msg| > 11 && msg[..11] == "FIND_VALUE:" then
      var key := msg[11..];
      if key in values then (values, Text("VALUE:" + values[key])) else (values, Silence)
    else (values, Silence)
  }

  function DispatchAll(values: Values, msgs: seq<string>): Values {
    if msgs == [] then values
    else
      var before := DispatchAll(values, msgs[..|msgs| - 1]);
      Dispatch(before, msgs[|msgs| - 1]).0
  }

  /** `msg` asks to store `value` under `key`. */
  predicate Stores(msg: string, key: string, value: string) {
    ':' !in key && msg == "STORE:" + key + ":" + value
  }

  /** `value` was stored under `key`, and nothing was stored under it afterwards. */
  ghost predicate LatestStore(msgs: seq<string>, key: string, value: string) {
    exists i :: 0 <= i < |msgs| && Stores(msgs[i], key, value)
                && forall j, v :: i < j < |msgs| ==> !Stores(msgs[j], key, v)
  }

  lemma {:induction false} ColonOf(key: string, rest: string)
    requires ':' !in key
    ensures Colon(key + ":" + rest) == |key|
  {
    if key != [] {
      assert (key + ":" + rest)[1..] == key[1..] + ":" + rest;
      ColonOf(key[1..], rest);
    }
  }

  /** Splitting at the first colon undoes joining with a colon, for colon-free keys and only for them. */
  lemma {:induction false} SplitUndoesJoin(key: string, value: string, s: string)
    ensures SplitTwo(s) == Some((key, value)) <==> ':' !in key && s == key + ":" + value
  {
    if ':' !in key && s == key + ":" + value {
      ColonOf(key, value);
      assert s[..|key|] == key && s[|key| + 1..] == value;
    }
    if SplitTwo(s) == Some((key, value)) {
      assert s == s[..Colon(s)] + ":" + s[Colon(s) + 1..];
    }
  }

  lemma StoreChanges(values: Values, msg: string, key: string, value: string)
    requires Stores(msg, key, value)
    ensures Dispatch(values, msg).0 == values[key := value]
  {
    assert msg[..6] == "STORE:" && msg[6..] == key + ":" + value;
    assert msg[0] == 'S';
    SplitUndoesJoin(key, value, msg[6..]);
  }

  /** A message changes the store exactly if it is a well-formed `STORE`. */
  lemma DispatchStores(values: Values, msg: string)
    ensures forall key, value :: Stores(msg, key, value) ==> Dispatch(values, msg).0 == values[key := value]
    ensures (forall key, value :: !Stores(msg, key, value)) ==> Dispatch(values, msg).0 == values
  {
    forall key, value | Stores(msg, key, value)
      ensures Dispatch(values, msg).0 == values[key := value]
    {
      StoreChanges(values, msg, key, value);
    }
    if |msg| > 6 && msg[..6] == "STORE:" && SplitTwo(msg[6..]).Some? {
      SplitStores(msg);
    }
  }

  lemma SplitStores(msg: string)
    requires |msg| > 6 && msg[..6] == "STORE:" && SplitTwo(msg[6..]).Some?
    ensures var (key, value) := SplitTwo(msg[6..]).value; Stores(msg, key, value)
  {
    var (key, value) := SplitTwo(msg[6..]).value;
    SplitUndoesJoin(key, value, msg[6..]);
    assert msg == msg[..6] + msg[6..];
  }

  /** After any messages, the store holds exactly the latest well-formed `STORE` of each key. */
  lemma {:induction false} StoreHoldsLatest(msgs: seq<string>, key: string, value: string)
    ensures var values := DispatchAll(map[], msgs);
            (key in values && values[key] == value) <==> LatestStore(msgs, key, value)
  {
    if msgs != [] {
      var n := |msgs| - 1;
      var before, msg := DispatchAll(map[], msgs[..n]), msgs[n];
      StoreHoldsLatest(msgs[..n], key, value);
      DispatchStores(before, msg);
      if exists v :: Stores(msg, key, v) {
        var v :| Stores(msg, key, v);
        LatestIsLast(msgs, key, value, v);
      } else {
        LatestIsEarlier(msgs, msg, key, value);
        if exists k, v :: Stores(msg, k, v) {
          var k, v :| Stores(msg, k, v);
          assert k != key;
        }
      }
    }
  }

  /** A message stores under one key and one value only. */
  lemma StoresOneThing(msg: string, key: string, value: string, key': string, value': string)
    requires Stores(msg, key, value) && Stores(msg, key', value')
    ensures key == key' && value == value'
  {
    assert msg[6..] == key + ":" + value && msg[6..] == key' + ":" + value';
    SplitUndoesJoin(key, value, msg[6..]);
    SplitUndoesJoin(key', value', msg[6..]);
  }

  lemma LatestIsLast(msgs: seq<string>, key: string, value: string, last: string)
    requires msgs != [] && Stores(msgs[|msgs| - 1], key, last)
    ensures LatestStore(msgs, key, value) <==> value == last
  {
    var n := |msgs| - 1;
    if LatestStore(msgs, key, value) {
      var i :| 0 <= i < |msgs| && Stores(msgs[i], key, value)
               && forall j, v :: i < j < |msgs| ==> !Stores(msgs[j], key, v);
      assert i == n;
      StoresOneThing(msgs[n], key, value, key, last);
    }
  }

  lemma LatestStays(msgs: seq<string>, last: string, key: string, value: string)
    requires LatestStore(msgs, key, value) && forall v :: !Stores(last, key, v)
    ensures LatestStore(msgs + [last], key, value)
  {
    var all := msgs + [last];
    var i :| 0 <= i < |msgs| && Stores(msgs[i], key, value)
             && forall j, v :: i < j < |msgs| ==> !Stores(msgs[j], key, v);
    assert Stores(all[i], key, value);
    forall j, v | i < j < |all|
      ensures !Stores(all[j], key, v)
    {
      assert all[j] == if j < |msgs| then msgs[j] else last;
    }
  }

  lemma LatestWas(msgs: seq<string>, last: string, key: string, value: string)
    requires LatestStore(msgs + [last], key, value) && forall v :: !Stores(last, key, v)
    ensures LatestStore(msgs, key, value)
  {
    var all := msgs + [last];
    var i :| 0 <= i < |all| && Stores(all[i], key, value)
             && forall j, v :: i < j < |all| ==> !Stores(all[j], key, v);
    assert i < |msgs| && Stores(msgs[i], key, value);
    forall j, v | i < j < |msgs|
      ensures !Stores(msgs[j], key, v)
    {
      assert all[j] == msgs[j];
    }
  }

  lemma LatestIsEarlier(msgs: seq<string>, last: string, key: string, value: string)
    requires msgs != [] && last == msgs[|msgs| - 1] && forall v :: !Stores(last, key, v)
    ensures LatestStore(msgs, key, value) <==> LatestStore(msgs[..|msgs| - 1], key, value)
  {
    var front := msgs[..|msgs| - 1];
    assert msgs == front + [last];
    if LatestStore(msgs, key, value) {
      LatestWas(front, last, key, value);
    }
    if LatestStore(front, key, value) {
      LatestStays(front, last, key, value);
    }
  }

  function Query(key: string): string {
    "FIND_VALUE:" + key
  }

  /** The wire store refines a map from colon-free keys to values: after any messages, a query for a
      non-empty key is answered with a value exactly if that value was the latest one stored under the
      key, is left unanswered otherwise, and changes nothing.  In particular a key with a colon is
      never found. */
  lemma {:induction false} QueryAnswersLatest(msgs: seq<string>, key: string)
    requires key != ""
    ensures var values := DispatchAll(map[], msgs);
            var (after, reply) := Dispatch(values, Query(key));
            && after == values
            && (forall value :: reply == Text("VALUE:" + value) <==> LatestStore(msgs, key, value))
            && ((forall value :: !LatestStore(msgs, key, value)) <==> reply == Silence)
            && (':' in key ==> reply == Silence)
  {
    var values := DispatchAll(map[], msgs);
    var msg := Query(key);
    assert msg[..11] == "FIND_VALUE:" && msg[11..] == key && msg[0] == 'F' && msg[5] == 'V';
    assert msg[..6] == "FIND_V" && msg != "FIND_NODE";
    var reply := Dispatch(values, msg).1;
    assert reply == if key in values then Text("VALUE:" + values[key]) else Silence;
    forall value
      ensures reply == Text("VALUE:" + value) <==> LatestStore(msgs, key, value)
    {
      StoreHoldsLatest(msgs, key, value);
      if reply == Text("VALUE:" + value) {
        assert ("VALUE:" + values[key])[6..] == values[key] && ("VALUE:" + value)[6..] == value;
      }
    }
    if key in values {
      StoreHoldsLatest(msgs, key, values[key]);
    }
  }

  /** No sequence of messages stores a key with a colon. */
  lemma {:induction false} KeysAreColonFree(msgs: seq<string>)
    ensures forall key <- DispatchAll(map[], msgs) :: ':' !in key
  {
    forall key | key in DispatchAll(map[], msgs)
      ensures ':' !in key
    {
      StoreHoldsLatest(msgs, key, DispatchAll(map[], msgs)[key]);
    }
  }

  lemma QueryReply(values: Values, msg: string)
    requires |msg| > 11 && msg[..11] == "FIND_VALUE:" && msg[..6] != "STORE:"
    ensures Dispatch(values, msg).1 == if msg[11..] in values then Text("VALUE:" + values[msg[11..]]) else Silence
  {
  }

  /** All that a node ever answers: a ping, a request for nodes, and a query for a value it holds. */
  lemma {:induction false} AnswersExactlyWhen(values: Values, msg: string, text: string)
    ensures Dispatch(values, msg).1 == Text(text) <==>
              || (msg == "PING" && text == "PONG")
              || (msg == "FIND_NODE" && text == "NODES")
              || exists key :: key != "" && msg == Query(key) && key in values && text == "VALUE:" + values[key]
  {
    if |msg| > 11 && msg[..11] == "FIND_VALUE:" {
      assert msg == Query(msg[11..]);
      assert msg[..6][0] == msg[..11][0] && "FIND_VALUE:"[0] != "STORE:"[0];
      QueryReply(values, msg);
      forall key | msg == Query(key)
        ensures key == msg[11..]
      {
        assert Query(key)[11..] == key;
      }
    } else {
      forall key | key != ""
        ensures msg != Query(key)
      {
        assert Query(key)[..11] == "FIND_VALUE:";
      }
    }
  }

  /** No message is ever treated as a handshake: a `HELLO` is ignored, although the branch for it is
      there. */
  lemma {:induction false} HelloIsIgnored(values: Values, msg: string)
    ensures Dispatch(values, msg).1 != Handshake
    ensures |msg| >= 5 && msg[..5] == "HELLO" ==> Dispatch(values, msg) == (values, Silence)
  {
    if |msg| >= 5 && msg[..5] == "HELLO" {
      assert msg[0] == 'H' && msg[..5][0] == 'H';
    }
    if |msg| > 4 {
      assert |msg[..4]| != |"HELLO"|;
    }
  }
}

/** Versioned values (src/storage/crdt.go): last-writer-wins data with a dotted version vector. */
module CRDTValues {
  import opened Wrappers
  import opened Integers
  import opened ByteStrings
  import opened DottedVectors

  datatype Operation = Create | Update | Delete

  /** The state of one `CRDTValue`, as a value. */
  datatype Value = Value(
    data: Bytes,
    version: nat,
    timestamp: Time,
    operation: Operation,
    clock: Clock,
    source: Bytes,
    signature: Option<Bytes>,
    metadata: map<Bytes, Bytes>)

  function NewValue(data: Bytes, source: Bytes, now: Time): Value {
    Value(data, 1, now, Create, Clock(map[EventID(source, 1) := 1], 1), source, None, map[])
  }

  /** The dot of the next local event.  The sequence number is truncated to 32 bits. */
  function NextEvent(v: Value, source: Bytes): EventID {
    EventID(source, (|v.clock.causality| + 1) % TWO32)
  }

  function UpdateValue(v: Value, data: Bytes, source: Bytes, now: Time): Value {
    v.(data := data,
       timestamp := now,
       operation := Update,
       source := source,
       version := v.version + 1,
       clock := AddToClock(v.clock, NextEvent(v, source), v.version + 1))
  }

  /** Merges `b` into `a`, and reports whether anything changed. */
  function MergeValue(a: Value, b: Value, sha: Hash): (Value, bool) {
    if b.version > a.version then
      (b.(signature := a.signature, metadata := a.metadata + b.metadata), true)
    else if b.version == a.version && b.timestamp > a.timestamp then
      (a.(data := b.data, timestamp := b.timestamp, source := b.source), true)
    else if b.version == a.version && b.timestamp == a.timestamp && Precedes(sha(a.data), sha(b.data)) then
      (a.(data := b.data, source := b.source), true)
    else
      (a.(clock := JoinClock(a.clock, b.clock)), !Covers(a.clock.causality, b.clock.causality))
  }

  method CopyBytes(source: array<Byte>) returns (copy: array<Byte>)
    ensures fresh(copy) && copy[..] == source[..]
  {
    copy := new Byte[source.Length](i requires 0 <= i < source.Length reads source => source[i]);
  }

  class CRDTValue {
    var data: array<Byte>
    var version: nat
    var timestamp: Time
    var operation: Operation
    var vectorClock: DottedVector
    var source: Bytes
    var signature: Option<Bytes>
    var metadata: map<Bytes, Bytes>

    ghost function View(): Value
      reads this, data, vectorClock
    {
      Value(data[..], version, timestamp, operation, vectorClock.View(), source, signature, metadata)
    }

    /** Keeps the caller's slice: the new value shares `data` with it. */
    constructor (data: array<Byte>, source: Bytes, now: Time)
      ensures this.data == data && fresh(vectorClock)
      ensures View() == NewValue(data[..], source, now)
    {
      var clock := new DottedVector();
      clock.AddEvent(EventID(source, 1), 1);
      this.data := data;
      version := 1;
      timestamp := now;
      operation := Create;
      vectorClock := clock;
      this.source := source;
      signature := None;
      metadata := map[];
    }

    /** A field-by-field copy, used by `Clone`, which passes slices and a clock of its own. */
    constructor Copy(data: array<Byte>, clock: DottedVector, from: CRDTValue)
      ensures this.data == data && vectorClock == clock
      ensures version == from.version && timestamp == from.timestamp && operation == from.operation
      ensures source == from.source && signature == from.signature && metadata == from.metadata
    {
      this.data := data;
      version := from.version;
      timestamp := from.timestamp;
      operation := from.operation;
      vectorClock := clock;
      source := from.source;
      signature := from.signature;
      metadata := from.metadata;
    }

    /** A deep copy: it shares no array and no clock with its source. */
    method Clone() returns (copy: CRDTValue)
      ensures fresh(copy) && fresh(copy.data) && fresh(copy.vectorClock)
      ensures copy.View() == View()
    {
      var dataCopy := CopyBytes(data);
      var clock := vectorClock.Clone();
      copy := new CRDTValue.Copy(dataCopy, clock, this);
    }

    method Update(newData: array<Byte>, sourceNode: Bytes, now: Time)
      modifies this, vectorClock
      ensures View() == UpdateValue(old(View()), old(newData[..]), sourceNode, now)
      ensures fresh(data) && vectorClock == old(vectorClock)
    {
      data := CopyBytes(newData);
      timestamp := now;
      operation := Operation.Update;
      source := sourceNode;
      version := version + 1;
      var size := vectorClock.Size();
      var event := EventID(sourceNode, (size + 1) % TWO32);
      vectorClock.AddEvent(event, version);
    }

    /** `other` may be missing.  A value never merges with itself: its lock would never be granted. */
    method Merge(other: CRDTValue?, sha: Hash) returns (changed: bool)
      requires other != this
      requires other != null ==> other.vectorClock != vectorClock
      modifies this, vectorClock
      ensures other == null ==> !changed && View() == old(View())
      ensures other != null ==> (View(), changed) == MergeValue(old(View()), old(other.View()), sha)
      ensures data == old(data) || fresh(data)
      ensures vectorClock == old(vectorClock) || fresh(vectorClock)
    {
      if other == null {
        return false;
      }
      if other.version > version {
        data := CopyBytes(other.data);
        version := other.version;
        timestamp := other.timestamp;
        operation := other.operation;
        source := other.source;
        vectorClock := other.vectorClock.Clone();
        metadata := metadata + other.metadata;
        return true;
      } else if other.version == version {
        if other.timestamp > timestamp {
          data := CopyBytes(other.data);
          timestamp := other.timestamp;
          source := other.source;
          return true;
        } else if other.timestamp == timestamp {
          if Precedes(sha(data[..]), sha(other.data[..])) {
            data := CopyBytes(other.data);
            source := other.source;
            return true;
          }
        }
      }
      JoinIsLeastUpperBound(vectorClock.causality, other.vectorClock.causality, map[]);
      changed := vectorClock.Merge(other.vectorClock);
    }
  }
}

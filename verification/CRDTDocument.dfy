/** Documents (src/storage/crdt.go): a value, up to ten snapshots of its past, and a deletion mark. */
module CRDTDocuments {
  import opened Wrappers
  import opened Integers
  import opened ByteStrings
  import opened CRDTValues

  const HISTORY_LIMIT: nat := 10

  /** The state of one `CRDTDocument`, as a value. */
  datatype Document = Document(
    id: Bytes,
    value: Value,
    history: seq<Value>,
    deleted: bool,
    createdAt: Time,
    updatedAt: Time)

  function NewDocument(id: Bytes, data: Bytes, source: Bytes, now: Time, createdAt: Time, updatedAt: Time): Document {
    Document(id, NewValue(data, source, now), [], false, createdAt, updatedAt)
  }

  function Remembered(d: Document): seq<Value> {
    if |d.history| < HISTORY_LIMIT then d.history + [d.value] else d.history
  }

  /** `now` stamps the value and `later` the document: the source reads its clock twice. */
  function UpdateDocument(d: Document, data: Bytes, source: Bytes, now: Time, later: Time): Document {
    if d.deleted then d
    else d.(history := Remembered(d),
            value := UpdateValue(d.value, data, source, now),
            updatedAt := later)
  }

  function MergeDocuments(d: Document, other: Document, sha: Hash): (Document, bool) {
    if other.deleted then (d.(deleted := true), true)
    else
      var (value, changed) := MergeValue(d.value, other.value, sha);
      (d.(value := value), changed)
  }

  function DeleteDocument(d: Document, source: Bytes, later: Time): Document {
    d.(deleted := true,
       value := d.value.(operation := Delete, source := source, version := d.value.version + 1),
       updatedAt := later)
  }

  function VisibleData(d: Document): Option<Bytes> {
    if d.deleted then None else Some(d.value.data)
  }

  class CRDTDocument {
    const id: Bytes
    var value: CRDTValue
    var history: seq<CRDTValue>
    var deleted: bool
    var createdAt: Time
    var updatedAt: Time

    /** The states of the snapshots in `history`. */
    ghost var past: seq<Value>

    /** Every object this document's state depends on. */
    ghost var repr: set<object>

    /** The document writes to itself, its value and that value's clock, none of which belongs to a
        snapshot.  Byte arrays are replaced, never written to, so they may be shared. */
    ghost predicate Valid()
      reads this, repr
    {
      && this in repr && value in repr && value.data in repr && value.vectorClock in repr
      && |past| == |history|
      && forall i :: 0 <= i < |history| ==>
         && history[i] in repr && history[i].data in repr && history[i].vectorClock in repr
         && history[i] != value && history[i].vectorClock != value.vectorClock
         && past[i] == history[i].View()
    }

    ghost function View(): Document
      requires Valid()
      reads this, repr
    {
      Document(id, value.View(), past, deleted, createdAt, updatedAt)
    }

    /** This document writes to nothing on which `other` depends. */
    ghost predicate WritesApartFrom(other: CRDTDocument)
      reads this, value, other
    {
      this !in other.repr && value !in other.repr && value.vectorClock !in other.repr
    }

    /** The document kept its value object, and every object it now depends on besides is new. */
    twostate predicate GainedOnlyNew()
      reads this, value
    {
      && value == old(value)
      && (value.vectorClock == old(value.vectorClock) || fresh(value.vectorClock))
      && fresh(repr - old(repr))
    }

    /** Writing to `other` leaves this document as it was, and the two stay apart. */
    twostate lemma StaysApart(other: CRDTDocument)
      requires old(Valid()) && old(other.Valid()) && old(WritesApartFrom(other)) && old(other.WritesApartFrom(this))
      requires unchanged(this) && unchanged(repr) && other.GainedOnlyNew()
      ensures Valid() && View() == old(View())
      ensures WritesApartFrom(other) && other.WritesApartFrom(this)
    {
    }

    constructor (id: Bytes, data: array<Byte>, source: Bytes, now: Time, createdAt: Time, updatedAt: Time)
      ensures Valid() && fresh(repr - {data}) && history == [] && value.data == data
      ensures View() == NewDocument(id, data[..], source, now, createdAt, updatedAt)
    {
      var v := new CRDTValue(data, source, now);
      this.id := id;
      value := v;
      history := [];
      deleted := false;
      this.createdAt := createdAt;
      this.updatedAt := updatedAt;
      past := [];
      repr := {this, v, data, v.vectorClock};
    }

    constructor Copy(value: CRDTValue, history: seq<CRDTValue>, ghost objects: set<object>, from: CRDTDocument)
      ensures this.value == value && this.history == history && id == from.id && repr == objects + {this}
      ensures deleted == from.deleted && createdAt == from.createdAt && updatedAt == from.updatedAt && past == from.past
    {
      id := from.id;
      this.value := value;
      this.history := history;
      deleted := from.deleted;
      createdAt := from.createdAt;
      updatedAt := from.updatedAt;
      past := from.past;
      repr := objects + {this};
    }

    /** A deep copy: it shares no object with its source, not even through the history. */
    method Clone() returns (copy: CRDTDocument)
      requires Valid()
      ensures fresh(copy) && fresh(copy.repr) && copy.Valid() && copy.View() == View()
    {
      var v := value.Clone();
      var snapshots: seq<CRDTValue> := [];
      ghost var objects: set<object> := {v, v.data, v.vectorClock};
      for i := 0 to |history|
        invariant |snapshots| == i && fresh(objects)
        invariant v in objects && v.data in objects && v.vectorClock in objects && v.View() == value.View()
        invariant forall s <- snapshots :: s in objects && s.data in objects && s.vectorClock in objects
        invariant forall s <- snapshots :: s != v && s.vectorClock != v.vectorClock
        invariant forall k :: 0 <= k < i ==> snapshots[k].View() == history[k].View()
      {
        var h := history[i].Clone();
        snapshots := snapshots + [h];
        objects := objects + {h, h.data, h.vectorClock};
      }
      copy := new CRDTDocument.Copy(v, snapshots, objects, this);
    }

    /** Appends a copy of the current value to the history, unless that is full. */
    method Remember()
      requires Valid()
      modifies this
      ensures Valid() && View() == old(View()).(history := Remembered(old(View())))
      ensures value == old(value) && old(history) <= history
      ensures fresh(repr - old(repr)) && old(repr) <= repr
    {
      if |history| < HISTORY_LIMIT {
        var snapshot := value.Clone();
        history := history + [snapshot];
        past := past + [snapshot.View()];
        repr := repr + {snapshot, snapshot.data, snapshot.vectorClock};
      }
    }

    method Update(data: array<Byte>, source: Bytes, now: Time, later: Time)
      requires Valid()
      modifies this, value, value.vectorClock
      ensures Valid() && View() == UpdateDocument(old(View()), old(data[..]), source, now, later)
      ensures GainedOnlyNew() && old(history) <= history && old(repr) <= repr
    {
      if deleted {
        return;
      }
      Remember();
      value.Update(data, source, now);
      repr := repr + {value.data};
      updatedAt := later;
    }

    method Merge(other: CRDTDocument, sha: Hash) returns (changed: bool)
      requires Valid() && other.Valid() && WritesApartFrom(other)
      modifies this, value, value.vectorClock
      ensures Valid() && (View(), changed) == MergeDocuments(old(View()), old(other.View()), sha)
      ensures GainedOnlyNew() && history == old(history) && old(repr) <= repr
    {
      if other.deleted {
        deleted := true;
        return true;
      }
      changed := value.Merge(other.value, sha);
      repr := repr + {value.data, value.vectorClock};
    }

    /** `None` stands for the nil slice returned for a deleted document. */
    method GetData() returns (data: Option<array<Byte>>)
      requires Valid()
      ensures data.Some? ==> fresh(data.value)
      ensures VisibleData(View()) == if data.None? then None else Some(data.value[..])
    {
      if deleted {
        return None;
      }
      var copy := CopyBytes(value.data);
      return Some(copy);
    }

    method Delete(source: Bytes, later: Time)
      requires Valid()
      modifies this, value
      ensures Valid() && View() == DeleteDocument(old(View()), source, later)
      ensures GainedOnlyNew() && history == old(history) && repr == old(repr)
    {
      deleted := true;
      value.operation := Operation.Delete;
      value.source := source;
      value.version := value.version + 1;
      updatedAt := later;
    }
  }
}

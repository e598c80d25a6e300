/** The history of a document: copies of its value from just before its first updates, never
    rewritten afterwards (src/storage/crdt.go). */
module History {
  import opened Integers
  import opened ByteStrings
  import opened CRDTValues
  import opened CRDTDocuments

  datatype Change =
    | Updated(data: Bytes, source: Bytes, now: Time, later: Time)
    | Merged(other: Document)
    | Deleted(source: Bytes, later: Time)

  function Apply(d: Document, op: Change, sha: Hash): Document {
    match op
    case Updated(data, source, now, later) => UpdateDocument(d, data, source, now, later)
    case Merged(other) => MergeDocuments(d, other, sha).0
    case Deleted(source, later) => DeleteDocument(d, source, later)
  }

  function ApplyAll(d: Document, ops: seq<Change>, sha: Hash): Document
    decreases |ops|
  {
    if ops == [] then d else ApplyAll(Apply(d, ops[0], sha), ops[1..], sha)
  }

  /** The values the document held just before each of its updates, oldest first. */
  function Replaced(d: Document, ops: seq<Change>, sha: Hash): seq<Value>
    decreases |ops|
  {
    if ops == [] then []
    else (if ops[0].Updated? && !d.deleted then [d.value] else [])
         + Replaced(Apply(d, ops[0], sha), ops[1..], sha)
  }

  function First(n: nat, s: seq<Value>): seq<Value> {
    if |s| <= n then s else s[..n]
  }

  lemma Regroup(history: seq<Value>, v: Value, past: seq<Value>)
    ensures history + ([v] + past) == (history + [v]) + past && [] + past == past
    ensures |history| >= HISTORY_LIMIT ==>
              First(HISTORY_LIMIT, history + ([v] + past)) == First(HISTORY_LIMIT, history + past)
  {
  }

  /** Whatever happens to a document, its history stays what it was followed by the values replaced
      since, cut off at ten entries. */
  lemma {:induction false} HistoryIsThePast(d: Document, ops: seq<Change>, sha: Hash)
    requires |d.history| <= 10
    ensures ApplyAll(d, ops, sha).history == First(10, d.history + Replaced(d, ops, sha))
    decreases |ops|
  {
    if ops == [] {
      assert d.history + [] == d.history;
    } else {
      var e := Apply(d, ops[0], sha);
      HistoryIsThePast(e, ops[1..], sha);
      var past := Replaced(e, ops[1..], sha);
      Regroup(d.history, d.value, past);
      assert e.history == if ops[0].Updated? && !d.deleted then Remembered(d) else d.history;
    }
  }

  /** Versions strictly increase along the history and stay below the current one. */
  predicate Ordered(d: Document) {
    && |d.history| <= 10
    && (forall i, j :: 0 <= i < j < |d.history| ==> d.history[i].version < d.history[j].version)
    && (forall i :: 0 <= i < |d.history| ==> d.history[i].version < d.value.version)
  }

  lemma ApplyKeepsOrdered(d: Document, op: Change, sha: Hash)
    requires Ordered(d)
    ensures Ordered(Apply(d, op, sha)) && d.value.version <= Apply(d, op, sha).value.version
  {
  }

  /** A document's life: its history is bounded, ordered by version, only ever appended to, and made
      of the values its updates replaced. */
  lemma {:induction false} RunsKeepHistory(d: Document, ops: seq<Change>, sha: Hash)
    requires Ordered(d)
    ensures Ordered(ApplyAll(d, ops, sha)) && d.history <= ApplyAll(d, ops, sha).history
    decreases |ops|
  {
    if ops != [] {
      ApplyKeepsOrdered(d, ops[0], sha);
      RunsKeepHistory(Apply(d, ops[0], sha), ops[1..], sha);
    }
  }

  /** From its creation on, a document's history holds the first ten values it replaced. */
  lemma {:induction false} HistoryFromCreation(id: Bytes, data: Bytes, source: Bytes, now: Time, createdAt: Time,
                                               updatedAt: Time, ops: seq<Change>, sha: Hash)
    ensures var d := NewDocument(id, data, source, now, createdAt, updatedAt);
            && ApplyAll(d, ops, sha).history == First(10, Replaced(d, ops, sha))
            && Ordered(ApplyAll(d, ops, sha))
  {
    var d := NewDocument(id, data, source, now, createdAt, updatedAt);
    HistoryIsThePast(d, ops, sha);
    assert d.history + Replaced(d, ops, sha) == Replaced(d, ops, sha);
    RunsKeepHistory(d, ops, sha);
  }
}

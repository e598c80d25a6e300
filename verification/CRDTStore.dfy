/** The document store of one node (src/storage/crdt.go). */
module CRDTStores {
  import opened Integers
  import opened ByteStrings
  import opened CRDTDocuments

  /** The state of one store, as a value. */
  type Documents = map<Bytes, Document>

  function PutInto(s: Documents, d: Document): Documents {
    s[d.id := d]
  }

  function DeleteFrom(s: Documents, id: Bytes, source: Bytes, later: Time): (Documents, bool) {
    if id !in s || s[id].deleted then (s, false)
    else (s[id := DeleteDocument(s[id], source, later)], true)
  }

  function MergeInto(s: Documents, external: Document, sha: Hash): (Documents, bool) {
    if external.id !in s then (s[external.id := external], true)
    else
      var (merged, changed) := MergeDocuments(s[external.id], external, sha);
      (s[external.id := merged], changed)
  }

  /** `Get` followed by `Update` on the stored document. */
  function EditIn(s: Documents, id: Bytes, data: Bytes, source: Bytes, now: Time, later: Time): Documents {
    if id !in s then s else s[id := UpdateDocument(s[id], data, source, now, later)]
  }

  function LiveIDs(s: Documents): set<Bytes> {
    set id | id in s && !s[id].deleted
  }

  /** `ids` is what `GetAllIDs` returns: the live identifiers in ascending order. */
  ghost predicate Lists(ids: seq<Bytes>, s: Documents) {
    Ascending(ids) && forall id :: id in ids <==> id in LiveIDs(s)
  }

  class CRDTStore {
    var documents: map<Bytes, CRDTDocument>
    ghost var contents: Documents
    ghost var repr: set<object>

    /** `doc` is in the state `view`, and everything it depends on lies in `repr`. */
    static ghost predicate Holds(doc: CRDTDocument, view: Document, repr: set<object>)
      reads repr
    {
      doc in repr && doc.repr <= repr && doc.Valid() && doc.View() == view && doc.id == view.id
    }

    /** Each document is stored under its own id, and no document writes to an object on which
        another one depends. */
    static ghost predicate Consistent(docs: map<Bytes, CRDTDocument>, views: Documents, repr: set<object>)
      reads repr
    {
      && views.Keys == docs.Keys
      && (forall id <- docs :: Holds(docs[id], views[id], repr) && docs[id].id == id)
      && (forall i, j :: i in docs && j in docs && i != j ==> docs[i].WritesApartFrom(docs[j]))
    }

    ghost predicate Valid()
      reads this, repr
    {
      this !in repr && Consistent(documents, contents, repr)
    }

    /** What an operation on one stored document may write to. */
    ghost function Written(id: Bytes): set<object>
      requires Valid()
      reads this, repr
    {
      if id in documents then {documents[id], documents[id].value, documents[id].value.vectorClock} else {}
    }

    static lemma FileDocument(docs: map<Bytes, CRDTDocument>, views: Documents, repr: set<object>, doc: CRDTDocument)
      requires Consistent(docs, views, repr) && doc.Valid()
      requires forall id <- docs :: id != doc.id ==> docs[id].WritesApartFrom(doc) && doc.WritesApartFrom(docs[id])
      ensures Consistent(docs[doc.id := doc], views[doc.id := doc.View()], repr + doc.repr)
    {
      forall id | id in docs && id != doc.id
        ensures Holds(docs[id], views[id], repr + doc.repr)
      {
        assert Holds(docs[id], views[id], repr);
      }
    }

    constructor ()
      ensures Valid() && contents == map[] && documents == map[]
    {
      documents := map[];
      contents := map[];
      repr := {};
    }

    /** Replaces the map of documents; the rest of the heap, and so their consistency, stays. */
    method Install(docs: map<Bytes, CRDTDocument>, ghost views: Documents, ghost objects: set<object>)
      requires this !in objects && Consistent(docs, views, objects)
      modifies this
      ensures Valid() && documents == docs && contents == views && repr == objects
    {
      documents := docs;
      contents := views;
      repr := objects;
      ghost var consistent := Consistent(docs, views, objects);
      assert consistent;
    }

    /** Stores the document itself, not a copy, and drops any document of the same id. */
    method Put(doc: CRDTDocument)
      requires Valid() && doc.Valid() && this !in doc.repr
      requires forall id <- documents ::
                 id != doc.id ==> documents[id].WritesApartFrom(doc) && doc.WritesApartFrom(documents[id])
      modifies this
      ensures Valid() && contents == PutInto(old(contents), old(doc.View()))
      ensures documents == old(documents)[doc.id := doc] && repr == old(repr) + doc.repr
    {
      FileDocument(documents, contents, repr, doc);
      Install(documents[doc.id := doc], contents[doc.id := doc.View()], repr + doc.repr);
    }

    method Get(id: Bytes) returns (doc: CRDTDocument?)
      ensures doc == if id in documents then documents[id] else null
    {
      if id in documents {
        return documents[id];
      }
      return null;
    }

    /** One stored document was written to, and whatever it gained is new. */
    twostate lemma OneChanged(id: Bytes)
      requires old(Valid()) && unchanged(this) && id in documents && documents[id].Valid()
      requires forall j <- documents :: j != id ==> unchanged(documents[j]) && unchanged(documents[j].repr)
      requires documents[id].GainedOnlyNew()
      ensures Consistent(documents, contents[id := documents[id].View()], repr + documents[id].repr)
    {
      ghost var views, all := contents[id := documents[id].View()], repr + documents[id].repr;
      forall j | j in documents
        ensures Holds(documents[j], views[j], all) && documents[j].id == j
      {
        assert old(Holds(documents[j], contents[j], repr));
        if j != id {
          assert old(documents[j].WritesApartFrom(documents[id])) && old(documents[id].WritesApartFrom(documents[j]));
          documents[j].StaysApart(documents[id]);
        }
      }
      forall j | j in documents && j != id
        ensures documents[j].WritesApartFrom(documents[id]) && documents[id].WritesApartFrom(documents[j])
      {
        assert old(Holds(documents[j], contents[j], repr));
        assert old(documents[j].WritesApartFrom(documents[id])) && old(documents[id].WritesApartFrom(documents[j]));
        documents[j].StaysApart(documents[id]);
      }
      forall i, j | i in documents && j in documents && i != j
        ensures documents[i].WritesApartFrom(documents[j])
      {
        assert old(documents[i].WritesApartFrom(documents[j]));
      }
    }

    method Delete(id: Bytes, source: Bytes, later: Time) returns (deleted: bool)
      requires Valid()
      modifies this, Written(id)
      ensures Valid() && (contents, deleted) == DeleteFrom(old(contents), id, source, later)
      ensures documents == old(documents)
    {
      if id !in documents || documents[id].deleted {
        return false;
      }
      documents[id].Delete(source, later);
      OneChanged(id);
      Install(documents, contents[id := documents[id].View()], repr + documents[id].repr);
      return true;
    }

    /** The way callers edit a stored document: look it up, then update it in place. */
    method Edit(id: Bytes, data: array<Byte>, source: Bytes, now: Time, later: Time)
      requires Valid()
      modifies this, Written(id)
      ensures Valid() && contents == EditIn(old(contents), id, old(data[..]), source, now, later)
      ensures documents == old(documents) && fresh(repr - old(repr))
    {
      var doc := Get(id);
      if doc != null {
        doc.Update(data, source, now, later);
        OneChanged(id);
        Install(documents, contents[id := doc.View()], repr + doc.repr);
      }
    }

    /** Files a copy of a document whose id is new to the store. */
    method Adopt(external: CRDTDocument)
      requires Valid() && external.Valid() && external.id !in documents
      modifies this
      ensures Valid() && contents == old(contents)[external.id := old(external.View())]
      ensures fresh(repr - old(repr))
    {
      var copy := external.Clone();
      FileDocument(documents, contents, repr, copy);
      Install(documents[copy.id := copy], contents[copy.id := copy.View()], repr + copy.repr);
    }

    /** Everything the store gains is new: it never shares an object with `external`. */
    method MergeDocument(external: CRDTDocument, sha: Hash) returns (changed: bool)
      requires Valid() && external.Valid() && this !in external.repr
      requires external.id in documents ==> documents[external.id].WritesApartFrom(external)
      modifies this, Written(external.id)
      ensures Valid() && (contents, changed) == MergeInto(old(contents), old(external.View()), sha)
      ensures fresh(repr - old(repr))
    {
      if external.id !in documents {
        Adopt(external);
        return true;
      }
      var local := documents[external.id];
      changed := local.Merge(external, sha);
      OneChanged(external.id);
      Install(documents, contents[external.id := local.View()], repr + local.repr);
    }

    /** The map is visited in any order; sorting makes the answer independent of it. */
    method GetAllIDs() returns (ids: seq<Bytes>)
      requires Valid()
      ensures Lists(ids, contents)
    {
      var found: seq<Bytes> := [];
      var todo := documents.Keys;
      while todo != {}
        invariant todo <= documents.Keys
        invariant forall id :: id in found <==> id in LiveIDs(contents) && id !in todo
        invariant Distinct(found)
        decreases todo
      {
        var id :| id in todo;
        assert Holds(documents[id], contents[id], repr);
        if !documents[id].deleted {
          found := found + [id];
        }
        todo := todo - {id};
      }
      ids := Sorted(found);
      SortedAscending(found);
    }
  }
}

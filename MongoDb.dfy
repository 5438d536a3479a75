/** MongoDbRepository: a Mongo collection of entity documents addressed by their
    string id. The collection is kept as the sequence of its documents in natural
    order; every query by id selects the first document whose id matches, as
    find(eq("id", id)).first(), replaceOne and findOneAndDelete do. */
module MongoDb {
  import opened Common

  /** A stored entity: its id and the rest of its state. */
  datatype Document<T> = Document(id: Id, body: T)

  predicate IsHexDigit(c: char) {
    ('0' <= c <= '9') || ('a' <= c <= 'f') || ('A' <= c <= 'F')
  }

  /** The ids UUID.fromString accepts, taken as the canonical 8-4-4-4-12 hexadecimal form. */
  predicate IsUuid(s: string) {
    |s| == 36 &&
    forall k :: 0 <= k < |s| ==>
      if k == 8 || k == 13 || k == 18 || k == 23 then s[k] == '-' else IsHexDigit(s[k])
  }

  /** Position of the first document with the given id, or -1 when there is none. */
  function IndexOf<T>(docs: seq<Document<T>>, id: Id): (k: int)
    ensures -1 <= k < |docs|
    ensures 0 <= k ==> docs[k].id == id
    ensures forall j :: 0 <= j < |docs| && (k < 0 || j < k) ==> docs[j].id != id
  {
    if |docs| == 0 then -1
    else if docs[0].id == id then 0
    else
      var k := IndexOf(docs[1..], id);
      if k < 0 then -1 else k + 1
  }

  /** The document a lookup by id yields: the first with that id, or null. */
  function Find<T>(docs: seq<Document<T>>, id: Id): (r: Option<Document<T>>)
    ensures r.Some? ==> r.value in docs && r.value.id == id
    ensures r.None? <==> forall d :: d in docs ==> d.id != id
  {
    var k := IndexOf(docs, id);
    if k < 0 then None else Some(docs[k])
  }

  /** replaceOne(eq("id", e.id), e): the first document with e's id becomes e;
      every other position keeps its document. */
  function ReplaceFirst<T>(docs: seq<Document<T>>, e: Document<T>): (r: seq<Document<T>>)
    ensures Find(docs, e.id).None? ==> r == docs
    ensures Find(docs, e.id).Some? ==> e in r && |r| == |docs|
    ensures forall d :: d in r ==> d == e || d in docs
    ensures |r| == |docs|
    ensures forall j :: 0 <= j < |docs| && j != IndexOf(docs, e.id) ==> r[j] == docs[j]
  {
    var k := IndexOf(docs, e.id);
    if k < 0 then docs
    else
      var r := docs[k := e];
      assert r[k] == e;
      assert forall d :: d in r ==> d == e || d in docs by {
        forall d | d in r ensures d == e || d in docs {
          var i :| 0 <= i < |r| && r[i] == d;
          if i != k { assert d == docs[i]; }
        }
      }
      r
  }

  /** findOneAndDelete(eq("id", id)): the first document with that id is removed. */
  function RemoveFirst<T>(docs: seq<Document<T>>, id: Id): (r: seq<Document<T>>)
    ensures Find(docs, id).None? ==> r == docs
    ensures Find(docs, id).Some? ==> |r| == |docs| - 1 && multiset(r) + multiset{Find(docs, id).value} == multiset(docs)
    ensures Find(docs, id).Some? ==> r == docs[..IndexOf(docs, id)] + docs[IndexOf(docs, id) + 1..]
  {
    var k := IndexOf(docs, id);
    if k < 0 then docs
    else
      assert docs == docs[..k] + [docs[k]] + docs[k + 1..];
      docs[..k] + docs[k + 1..]
  }

  /** No two documents share an id. */
  ghost predicate UniqueIds<T>(docs: seq<Document<T>>) {
    forall i, j :: 0 <= i < |docs| && 0 <= j < |docs| && docs[i].id == docs[j].id ==> i == j
  }

  /** After an insert of an absent id, a lookup by that id yields the inserted entity. */
  lemma AddThenFind<T>(docs: seq<Document<T>>, e: Document<T>)
    requires Find(docs, e.id).None?
    ensures Find(docs + [e], e.id) == Some(e)
    ensures UniqueIds(docs) ==> UniqueIds(docs + [e])
  {
    assert (docs + [e])[|docs|].id == e.id;
    forall j | 0 <= j < |docs| ensures (docs + [e])[j].id != e.id {
      assert (docs + [e])[j] in docs;
    }
  }

  /** After a successful update, a lookup yields the new entity; ids and
      every other document are unchanged. */
  lemma UpdateThenFind<T>(docs: seq<Document<T>>, e: Document<T>)
    requires Find(docs, e.id).Some?
    ensures Find(ReplaceFirst(docs, e), e.id) == Some(e)
    ensures |ReplaceFirst(docs, e)| == |docs|
    ensures forall j :: 0 <= j < |docs| ==> ReplaceFirst(docs, e)[j].id == docs[j].id
    ensures UniqueIds(docs) ==> UniqueIds(ReplaceFirst(docs, e))
  {
    var k := IndexOf(docs, e.id);
    var r := docs[k := e];
    assert IndexOf(r, e.id) == k by {
      assert r[k].id == e.id;
      forall j | 0 <= j < k ensures r[j].id != e.id { assert r[j] == docs[j]; }
    }
  }

  /** The documents left once position k is cut out, by their old positions. */
  lemma CutAt<T>(docs: seq<Document<T>>, k: nat, r: seq<Document<T>>)
    requires k < |docs| && r == docs[..k] + docs[k + 1..]
    ensures |r| == |docs| - 1
    ensures forall i :: 0 <= i < k ==> r[i] == docs[i]
    ensures forall i :: k <= i < |r| ==> r[i] == docs[i + 1]
  {
  }

  /** With unique ids, no document of the id survives the cut at its position. */
  lemma CutRemovesId<T>(docs: seq<Document<T>>, id: Id, k: nat)
    requires UniqueIds(docs) && k < |docs| && docs[k].id == id
    ensures forall d :: d in docs[..k] + docs[k + 1..] ==> d.id != id
  {
    var r := docs[..k] + docs[k + 1..];
    CutAt(docs, k, r);
    forall d | d in r ensures d.id != id {
      var j :| 0 <= j < |r| && r[j] == d;
      var j' := if j < k then j else j + 1;
      assert r[j] == docs[j'] && j' != k;
    }
  }

  /** The cut at position k keeps every document of another id. */
  lemma CutKeepsOthers<T>(docs: seq<Document<T>>, id: Id, k: nat)
    requires k < |docs| && docs[k].id == id
    ensures forall d :: d in docs && d.id != id ==> d in docs[..k] + docs[k + 1..]
  {
    var r := docs[..k] + docs[k + 1..];
    CutAt(docs, k, r);
    forall d | d in docs && d.id != id ensures d in r {
      var j :| 0 <= j < |docs| && docs[j] == d;
      var j' := if j < k then j else j - 1;
      assert j != k && r[j'] == d;
    }
  }

  /** The cut of a collection with unique ids has unique ids. */
  lemma CutKeepsUnique<T>(docs: seq<Document<T>>, k: nat)
    requires UniqueIds(docs) && k < |docs|
    ensures UniqueIds(docs[..k] + docs[k + 1..])
  {
    var r := docs[..k] + docs[k + 1..];
    CutAt(docs, k, r);
    forall i, j | 0 <= i < |r| && 0 <= j < |r| && r[i].id == r[j].id ensures i == j {
      var i' := if i < k then i else i + 1;
      var j' := if j < k then j else j + 1;
      assert r[i] == docs[i'] && r[j] == docs[j'];
    }
  }

  /** Deleting an id from a collection without duplicate ids leaves no document
      with that id and keeps every other document. */
  lemma DeleteThenFind<T>(docs: seq<Document<T>>, id: Id)
    requires UniqueIds(docs)
    ensures Find(RemoveFirst(docs, id), id).None?
    ensures forall d :: d in docs && d.id != id ==> d in RemoveFirst(docs, id)
    ensures UniqueIds(RemoveFirst(docs, id))
  {
    var k := IndexOf(docs, id);
    if 0 <= k {
      CutRemovesId(docs, id, k);
      CutKeepsOthers(docs, id, k);
      CutKeepsUnique(docs, k);
    }
  }

  class MongoDbRepository<T> {
    /** The documents of the collection, in natural order. */
    var collection: seq<Document<T>>

    /** The constructor that is handed an (e.g. mocked) collection. */
    constructor (mockedCollection: seq<Document<T>>)
      ensures collection == mockedCollection
    {
      collection := mockedCollection;
    }

    /** The scan that find(eq("id", id)).first() performs. */
    method First(id: Id) returns (k: int)
      ensures k == IndexOf(collection, id)
    {
      k := 0;
      while k < |collection| && collection[k].id != id
        invariant 0 <= k <= |collection|
        invariant forall j :: 0 <= j < k ==> collection[j].id != id
      {
        k := k + 1;
      }
      if k == |collection| {
        k := -1;
      }
    }

    /** getById: null for a null id; an id UUID.fromString rejects raises an
        IllegalArgumentException that nothing catches; otherwise the first
        stored entity with that id, or null. */
    method GetById(id: Option<Id>) returns (r: Outcome<Option<Document<T>>>)
      ensures id.None? ==> r == Returns(None)
      ensures id.Some? && !IsUuid(id.value) ==> r == Throws(IllegalArgumentException)
      ensures id.Some? && IsUuid(id.value) ==> r == Returns(Find(collection, id.value))
    {
      if id.None? {
        return Returns(None);
      }
      if !IsUuid(id.value) {
        return Throws(IllegalArgumentException);
      }
      var k := First(id.value);
      r := Returns(if k < 0 then None else Some(collection[k]));
    }

    /** getAll: one entity per stored document, in the collection's order. */
    method GetAll() returns (result: seq<Document<T>>)
      ensures result == collection
    {
      result := [];
      var k := 0;
      while k < |collection|
        invariant 0 <= k <= |collection|
        invariant result == collection[..k]
      {
        result := result + [collection[k]];
        k := k + 1;
      }
    }

    /** add: null for a null entry; the lookup of the entry's id may throw;
        an id already stored gives null and no change; otherwise the entry is
        inserted and returned. */
    method Add(entry: Option<Document<T>>) returns (r: Outcome<Option<Document<T>>>)
      modifies this
      ensures entry.None? ==> r == Returns(None) && collection == old(collection)
      ensures entry.Some? && !IsUuid(entry.value.id) ==>
                r == Throws(IllegalArgumentException) && collection == old(collection)
      ensures entry.Some? && IsUuid(entry.value.id) && Find(old(collection), entry.value.id).Some? ==>
                r == Returns(None) && collection == old(collection)
      ensures entry.Some? && IsUuid(entry.value.id) && Find(old(collection), entry.value.id).None? ==>
                r == Returns(entry) && collection == old(collection) + [entry.value]
                && Find(collection, entry.value.id) == entry
    {
      if entry.None? {
        return Returns(None);
      }
      var found := GetById(Some(entry.value.id));
      if found.Throws? {
        return Throws(found.exception);
      }
      if found.value.None? {
        AddThenFind(collection, entry.value);
        collection := collection + [entry.value];
        return Returns(entry);
      }
      r := Returns(None);
    }

    /** update: null for a null entry; replaceOne matches at most one document,
        so the entry is returned exactly when one stored document with its id
        was replaced, and null leaves the collection unchanged. */
    method Update(entry: Option<Document<T>>) returns (r: Option<Document<T>>)
      modifies this
      ensures entry.None? ==> r == None && collection == old(collection)
      ensures entry.Some? ==> collection == ReplaceFirst(old(collection), entry.value)
      ensures entry.Some? && Find(old(collection), entry.value.id).Some? ==>
                r == entry && Find(collection, entry.value.id) == entry
      ensures entry.Some? && Find(old(collection), entry.value.id).None? ==>
                r == None && collection == old(collection)
    {
      if entry.None? {
        return None;
      }
      var k := First(entry.value.id);
      if k < 0 {
        return None;
      }
      UpdateThenFind(collection, entry.value);
      collection := collection[k := entry.value];
      r := entry;
    }

    /** delete: null for a null id; the IllegalArgumentException of a non-UUID
        id is caught and gives null; otherwise the first document with the id
        is removed and returned, or null when there is none. */
    method Delete(id: Option<Id>) returns (r: Option<Document<T>>)
      modifies this
      ensures (id.None? || !IsUuid(id.value)) ==> r == None && collection == old(collection)
      ensures id.Some? && IsUuid(id.value) ==>
                r == Find(old(collection), id.value) && collection == RemoveFirst(old(collection), id.value)
    {
      if id.None? || !IsUuid(id.value) {
        return None;
      }
      var k := First(id.value);
      if k < 0 {
        return None;
      }
      r := Some(collection[k]);
      collection := collection[..k] + collection[k + 1..];
    }
  }
}

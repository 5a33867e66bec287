/**
 * The mutating half of db/index.js: `addRecord`, `updateRecord` and `deleteRecord` on the
 * `records` collection, each announcing its change with `vaultEvents.emit`. The collection
 * is a sequence of documents in collection order; the emitted events are kept in a ghost log.
 */
module Store {
  import opened Wrappers
  import opened Text
  import opened Records
  import Validator

  /** The position of the document whose `_id` is `id`: what `{_id: id}` selects. */
  function IndexOf(docs: seq<Doc>, id: Id): (r: Option<nat>)
    ensures r.Some? ==> r.value < |docs| && docs[r.value].id == id
    ensures r.Some? ==> forall j :: 0 <= j < r.value ==> docs[j].id != id
    ensures r.None? ==> forall j :: 0 <= j < |docs| ==> docs[j].id != id
  {
    if docs == [] then None
    else if docs[0].id == id then Some(0)
    else
      match IndexOf(docs[1..], id)
      case None => None
      case Some(k) => Some(k + 1)
  }

  /** The largest id in use, or 0: the insertion after it gets a fresh id. */
  function MaxId(docs: seq<Doc>): (m: Id)
    ensures forall d :: d in docs ==> d.id <= m
    ensures docs != [] ==> exists d :: d in docs && d.id == m
  {
    if docs == [] then 0
    else
      var m := MaxId(docs[1..]);
      assert forall d :: d in docs[1..] ==> d in docs;
      if docs[0].id > m then docs[0].id else (if docs[1..] == [] then docs[0].id else m)
  }

  /** `createdAt <= updatedAt` for every document that has both. */
  ghost predicate Chronological(docs: seq<Doc>) {
    forall d :: d in docs && d.createdAt.Some? && d.updatedAt.Some? ==> d.createdAt.value <= d.updatedAt.value
  }

  /** The clock reads no earlier than any stored timestamp. */
  ghost predicate ClockAhead(docs: seq<Doc>, now: Time) {
    forall d :: d in docs ==> (d.createdAt.Some? ==> d.createdAt.value <= now) && (d.updatedAt.Some? ==> d.updatedAt.value <= now)
  }

  /** Appending a document whose id is new and whose creation precedes its update keeps the ids unique and the collection chronological. */
  lemma AppendFresh(docs: seq<Doc>, d: Doc)
    requires forall e :: e in docs ==> e.id != d.id
    ensures UniqueIds(docs) ==> UniqueIds(docs + [d])
    ensures forall e :: e in docs + [d] ==> e in docs || e == d
    ensures Chronological(docs) && (d.createdAt.Some? && d.updatedAt.Some? ==> d.createdAt.value <= d.updatedAt.value)
      ==> Chronological(docs + [d])
  {
    var s := docs + [d];
    forall e | e in s ensures e in docs || e == d {
      var i :| 0 <= i < |s| && s[i] == e;
      if i < |docs| { assert s[i] == docs[i]; }
    }
    if UniqueIds(docs) {
      forall i, j | 0 <= i < j < |s| ensures s[i].id != s[j].id {
        assert s[i] == docs[i];
        if j == |docs| { assert docs[i] in docs; }
        else { assert s[j] == docs[j]; }
      }
    }
  }

  /**
   * Removing the document at position `k` from a collection with unique ids keeps the ids
   * unique and the collection chronological, and leaves no document with that id.
   */
  lemma RemoveAt(docs: seq<Doc>, k: nat)
    requires UniqueIds(docs) && k < |docs|
    ensures var s := docs[..k] + docs[k + 1..];
      && UniqueIds(s)
      && (forall e :: e in s ==> e in docs && e.id != docs[k].id)
      && (Chronological(docs) ==> Chronological(s))
  {
    var s := docs[..k] + docs[k + 1..];
    assert forall i :: 0 <= i < |s| ==> s[i] == docs[if i < k then i else i + 1];
    forall e | e in s ensures e in docs && e.id != docs[k].id {
      var i :| 0 <= i < |s| && s[i] == e;
      assert s[i] == docs[if i < k then i else i + 1];
    }
  }

  class RecordStore {
    /** The documents of the collection, in collection order. */
    var docs: seq<Doc>
    /** The next id the backend hands out. */
    var nextId: Id
    /** Every id the collection has ever held: ids are never reused. */
    ghost var issued: set<Id>
    /** Every `vaultEvents.emit` call so far, in order. */
    ghost var events: seq<Event>

    ghost predicate Valid()
      reads this
    {
      UniqueIds(docs) &&
      (forall d :: d in docs ==> d.id in issued) &&
      (forall id :: id in issued ==> id < nextId)
    }

    /** The store over the collection as the backend holds it when the connection opens. */
    constructor (initial: seq<Doc>)
      requires UniqueIds(initial)
      ensures Valid() && docs == initial && events == []
    {
      docs := initial;
      nextId := MaxId(initial) + 1;
      issued := set d | d in initial :: d.id;
      events := [];
    }

    /**
     * `addRecord({name, value})`: inserts one document with a fresh id, the trimmed name
     * and value and both timestamps set to the one time taken, then emits `recordAdded`
     * with it. No validation takes place, so a blank name or value is stored as `""`.
     */
    method AddRecord(name: string, value: string, now: Time) returns (saved: Doc)
      requires Valid()
      modifies this
      ensures Valid()
      ensures saved.name == Some(Trim(name)) && saved.value == Some(Trim(value))
      ensures saved.createdAt == Some(now) && saved.updatedAt == Some(now)
      ensures saved.id !in old(issued) && issued == old(issued) + {saved.id}
      ensures forall d :: d in old(docs) ==> d.id != saved.id
      ensures docs == old(docs) + [saved]
      ensures events == old(events) + [RecordAdded(saved)]
      ensures old(Chronological(docs)) ==> Chronological(docs)
    {
      var timestamp := now;
      var newRecord := Doc(nextId, Some(Trim(name)), Some(Trim(value)), Some(timestamp), Some(timestamp));
      AppendFresh(docs, newRecord);
      docs := docs + [newRecord];
      issued := issued + {nextId};
      nextId := nextId + 1;
      saved := newRecord;
      events := events + [RecordAdded(saved)];
    }

    /**
     * `updateRecord(id, newName, newValue)`: on the document with that id, sets the trimmed
     * name and value and a new `updatedAt`, keeps `_id` and `createdAt`, leaves every other
     * document alone and emits `recordUpdated` with the result. A malformed or unknown id
     * yields `null` and changes nothing.
     */
    method UpdateRecord(id: IdArg, newName: string, newValue: string, now: Time) returns (updated: Option<Doc>)
      requires Valid()
      modifies this
      ensures Valid() && issued == old(issued) && nextId == old(nextId)
      ensures updated.None? <==> id.MalformedId? || forall d :: d in old(docs) ==> d.id != id.id
      ensures updated.None? ==> docs == old(docs) && events == old(events)
      ensures updated.Some? ==>
        exists k :: 0 <= k < |old(docs)| && old(docs)[k].id == id.id &&
          updated.value == old(docs)[k].(name := Some(Trim(newName)), value := Some(Trim(newValue)), updatedAt := Some(now))
      ensures updated.Some? ==> |docs| == |old(docs)|
      ensures updated.Some? ==>
        forall j :: 0 <= j < |docs| ==> docs[j] == if old(docs)[j].id == id.id then updated.value else old(docs)[j]
      ensures updated.Some? ==> events == old(events) + [RecordUpdated(updated.value)]
      ensures old(Chronological(docs)) && old(ClockAhead(docs, now)) ==> Chronological(docs)
    {
      var name, value, updatedAt := Trim(newName), Trim(newValue), now;
      if id.MalformedId? {
        // `new ObjectId(id)` throws; the catch returns null.
        return None;
      }
      var found := IndexOf(docs, id.id);
      if found.None? {
        return None;
      }
      var k := found.value;
      var doc := docs[k].(name := Some(name), value := Some(value), updatedAt := Some(updatedAt));
      docs := docs[k := doc];
      updated := Some(doc);
      events := events + [RecordUpdated(doc)];
    }

    /**
     * `deleteRecord(id)`: removes the document with that id, keeping the others in order,
     * and returns and emits (`recordDeleted`) its exact pre-delete fields. A malformed or
     * unknown id yields `null` and changes nothing.
     */
    method DeleteRecord(id: IdArg) returns (deleted: Option<Doc>)
      requires Valid()
      modifies this
      ensures Valid() && issued == old(issued) && nextId == old(nextId)
      ensures deleted.None? <==> id.MalformedId? || forall d :: d in old(docs) ==> d.id != id.id
      ensures deleted.None? ==> docs == old(docs) && events == old(events)
      ensures deleted.Some? ==>
        exists k :: 0 <= k < |old(docs)| && old(docs)[k] == deleted.value && deleted.value.id == id.id &&
          docs == old(docs)[..k] + old(docs)[k + 1..]
      ensures deleted.Some? ==> forall d :: d in docs ==> d.id != id.id
      ensures deleted.Some? ==> events == old(events) + [RecordDeleted(deleted.value)]
      ensures old(Chronological(docs)) ==> Chronological(docs)
    {
      if id.MalformedId? {
        return None;
      }
      var found := IndexOf(docs, id.id);
      if found.None? {
        return None;
      }
      var k := found.value;
      var record := docs[k];
      RemoveAt(docs, k);
      docs := docs[..k] + docs[k + 1..];
      deleted := Some(record);
      events := events + [RecordDeleted(record)];
    }
  }

  /**
   * Ids are never reused: after a record is deleted, the next insertion gets an id
   * different from the deleted one (and from every id still stored).
   */
  method DeleteThenAdd(store: RecordStore, id: IdArg, name: string, value: string, now: Time)
    returns (deleted: Option<Doc>, added: Doc)
    requires store.Valid()
    modifies store
    ensures store.Valid()
    ensures deleted.Some? ==> added.id != deleted.value.id
    ensures |store.docs| > 0 && store.docs[|store.docs| - 1] == added
    ensures forall d :: d in store.docs[..|store.docs| - 1] ==> d.id != added.id
  {
    deleted := store.DeleteRecord(id);
    added := store.AddRecord(name, value, now);
  }

  /**
   * `addRecord` stores whatever it is given, trimmed: a whitespace-only name, which
   * `validateRecord` refuses with the name error, is stored as `""`.
   */
  method BlankNameStoredByAdd(store: RecordStore, name: string, value: string, now: Time) returns (saved: Doc)
    requires store.Valid() && AllWhitespace(name)
    modifies store
    ensures store.Valid()
    ensures saved.name == Some("") && saved in store.docs
    ensures Validator.ValidateRecord(Validator.Candidate(Validator.Str(name), Validator.Str(value)))
      == Validator.Fail(Validator.NameRequired)
  {
    saved := store.AddRecord(name, value, now);
    assert store.docs[|store.docs| - 1] == saved;
  }

  /**
   * `updateRecord` does not validate either: when the id selects a document, a
   * whitespace-only name, which `validateRecord` refuses, replaces its name with `""`.
   */
  method BlankNameStoredByUpdate(store: RecordStore, id: IdArg, name: string, value: string, now: Time)
    returns (updated: Option<Doc>)
    requires store.Valid() && AllWhitespace(name)
    modifies store
    ensures store.Valid()
    ensures updated.Some? <==> id.ParsedId? && exists d :: d in old(store.docs) && d.id == id.id
    ensures updated.Some? ==> updated.value.name == Some("") && updated.value in store.docs
    ensures Validator.ValidateRecord(Validator.Candidate(Validator.Str(name), Validator.Str(value)))
      == Validator.Fail(Validator.NameRequired)
  {
    updated := store.UpdateRecord(id, name, value, now);
    if updated.Some? {
      ghost var k :| 0 <= k < |old(store.docs)| && old(store.docs)[k].id == id.id &&
        updated.value == old(store.docs)[k].(name := Some(Trim(name)), value := Some(Trim(value)), updatedAt := Some(now));
      assert store.docs[k] == updated.value;
    }
  }
}

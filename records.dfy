/**
 * The record shapes of db/index.js: the backend document as stored in the `records`
 * collection, the normalised record `listRecords` hands out, the change events the
 * store emits, and `listRecords` itself.
 */
module Records {
  import opened Wrappers

  /** An ObjectId, modelled as a natural number. */
  type Id = nat

  /** An instant. ISO-8601 strings of one format order the same way as the instants they encode. */
  type Time = nat

  /**
   * A document of the collection. The store always writes every field, but a document
   * written by another client may lack any of them; `_id` is always present.
   */
  datatype Doc = Doc(id: Id, name: Option<string>, value: Option<string>, createdAt: Option<Time>, updatedAt: Option<Time>)

  /** The public record shape `listRecords` produces: every field filled in. */
  datatype Record = Record(id: Id, name: string, value: string, createdAt: Time, updatedAt: Time)

  /** The caller-supplied id of `updateRecord` and `deleteRecord`, after `new ObjectId(id)`. */
  datatype IdArg = ParsedId(id: Id) | MalformedId

  /** One `vaultEvents.emit` call: the event name and the record it carries. */
  datatype Event = RecordAdded(doc: Doc) | RecordUpdated(doc: Doc) | RecordDeleted(doc: Doc)

  /** No two documents of the collection share an `_id`. */
  predicate UniqueIds(docs: seq<Doc>) {
    forall i, j :: 0 <= i < j < |docs| ==> docs[i].id != docs[j].id
  }

  /** A document with every field present, as the store itself writes them. */
  predicate Complete(d: Doc) {
    d.name.Some? && d.value.Some? && d.createdAt.Some? && d.updatedAt.Some?
  }

  /** The document that carries exactly the fields of `r`. */
  function AsDoc(r: Record): Doc {
    Doc(r.id, Some(r.name), Some(r.value), Some(r.createdAt), Some(r.updatedAt))
  }

  /**
   * The defensive normalisation of one document: a missing name or value reads as `""`,
   * a missing timestamp as the time of the call; fields that are present are copied.
   */
  function Normalise(d: Doc, now: Time): (r: Record)
    ensures r.id == d.id
    ensures d.name.Some? ==> r.name == d.name.value
    ensures d.name.None? ==> r.name == ""
    ensures d.value.Some? ==> r.value == d.value.value
    ensures d.value.None? ==> r.value == ""
    ensures r.createdAt == if d.createdAt.Some? then d.createdAt.value else now
    ensures r.updatedAt == if d.updatedAt.Some? then d.updatedAt.value else now
  {
    Record(d.id, d.name.GetOr(""), d.value.GetOr(""), d.createdAt.GetOr(now), d.updatedAt.GetOr(now))
  }

  /** `listRecords`: every document of the collection, in collection order, normalised. */
  function ListRecords(docs: seq<Doc>, now: Time): (rs: seq<Record>)
    ensures |rs| == |docs|
    ensures forall i :: 0 <= i < |docs| ==> rs[i] == Normalise(docs[i], now)
  {
    seq(|docs|, i requires 0 <= i < |docs| => Normalise(docs[i], now))
  }

  /** Normalisation loses nothing on a complete document: it is a bijection onto records. */
  lemma NormaliseComplete(d: Doc, now: Time)
    requires Complete(d)
    ensures AsDoc(Normalise(d, now)) == d
  {
  }

  /** On a collection the store wrote itself, listing is lossless and independent of the clock. */
  lemma ListRecordsLossless(docs: seq<Doc>, now1: Time, now2: Time)
    requires forall d :: d in docs ==> Complete(d)
    ensures ListRecords(docs, now1) == ListRecords(docs, now2)
    ensures forall i :: 0 <= i < |docs| ==> AsDoc(ListRecords(docs, now1)[i]) == docs[i]
  {
    var rs1, rs2 := ListRecords(docs, now1), ListRecords(docs, now2);
    forall i | 0 <= i < |docs|
      ensures rs1[i] == rs2[i] && AsDoc(rs1[i]) == docs[i]
    {
      assert docs[i] in docs;
      NormaliseComplete(docs[i], now1);
    }
  }
}

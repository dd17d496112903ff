/**
 * The in-memory submission store that stands in for a document database:
 * a map from a collection path, one per form, to the records submitted for
 * that form, oldest first. Record values are of an arbitrary type `V`; the
 * date stamped on a record is passed in by the caller.
 */
module Submissions {
  const CollectionPrefix: string := "form_submissions/"
  const TimestampKey: string := "timestamp"

  /** A submitted record: field names to values. */
  type Record<V> = map<string, V>

  /** The store's contents: collection path to the records saved under it. */
  type Db<V> = map<string, seq<Record<V>>>

  /** `get_form_collection_path`: the collection holding one form's submissions. */
  function CollectionPath(formId: string): (path: string)
    ensures CollectionPrefix <= path
    ensures path[|CollectionPrefix|..] == formId
  {
    CollectionPrefix + formId
  }

  /** Distinct forms never share a collection. */
  lemma CollectionPathInjective(a: string, b: string)
    ensures CollectionPath(a) == CollectionPath(b) <==> a == b
  {
    if CollectionPath(a) == CollectionPath(b) {
      calc {
        a;
        CollectionPath(a)[|CollectionPrefix|..];
        CollectionPath(b)[|CollectionPrefix|..];
        b;
      }
    }
  }

  /**
   * `{"timestamp": t, **data}`: the record saved for `data`. Every submitted
   * key keeps its value, so a submitted `timestamp` wins over `t`.
   */
  function MakeRecord<V>(timestamp: V, data: Record<V>): (r: Record<V>)
    ensures r.Keys == data.Keys + {TimestampKey}
    ensures forall k :: k in data ==> r[k] == data[k]
    ensures TimestampKey !in data ==> r[TimestampKey] == timestamp
  {
    map[TimestampKey := timestamp] + data
  }

  /** Every collection sits under the prefix and every record carries a timestamp key. */
  ghost predicate ValidDb<V>(db: Db<V>) {
    forall path :: path in db ==>
      CollectionPrefix <= path &&
      forall i :: 0 <= i < |db[path]| ==> TimestampKey in db[path][i]
  }

  /** `get_all_submissions` on a given store: the form's records, or none. */
  function SubmissionsOf<V>(db: Db<V>, formId: string): seq<Record<V>> {
    var path := CollectionPath(formId);
    if path in db then db[path] else []
  }

  /** `save_form_submission` on a given store: the form's collection gains one record at its end. */
  function Saved<V>(db: Db<V>, formId: string, data: Record<V>, timestamp: V): Db<V> {
    db[CollectionPath(formId) := SubmissionsOf(db, formId) + [MakeRecord(timestamp, data)]]
  }

  /** Saving appends exactly the new record to the form's submissions and keeps the earlier ones in order. */
  lemma SavedAppendsOne<V>(db: Db<V>, formId: string, data: Record<V>, timestamp: V)
    ensures SubmissionsOf(Saved(db, formId, data, timestamp), formId)
      == SubmissionsOf(db, formId) + [MakeRecord(timestamp, data)]
    ensures |SubmissionsOf(Saved(db, formId, data, timestamp), formId)| == |SubmissionsOf(db, formId)| + 1
  {
  }

  /** Saving for one form leaves every other form's submissions untouched. */
  lemma SavedKeepsOthers<V>(db: Db<V>, formId: string, data: Record<V>, timestamp: V, other: string)
    requires other != formId
    ensures SubmissionsOf(Saved(db, formId, data, timestamp), other) == SubmissionsOf(db, other)
  {
    CollectionPathInjective(formId, other);
  }

  /** Saving adds one collection at most, the form's own. */
  lemma SavedPaths<V>(db: Db<V>, formId: string, data: Record<V>, timestamp: V)
    ensures Saved(db, formId, data, timestamp).Keys == db.Keys + {CollectionPath(formId)}
  {
  }

  /** Saving keeps the store well formed. */
  lemma SavedValid<V>(db: Db<V>, formId: string, data: Record<V>, timestamp: V)
    requires ValidDb(db)
    ensures ValidDb(Saved(db, formId, data, timestamp))
  {
    var db' := Saved(db, formId, data, timestamp);
    var path := CollectionPath(formId);
    var records := SubmissionsOf(db, formId) + [MakeRecord(timestamp, data)];
    assert db'[path] == records;
    forall i | 0 <= i < |records|
      ensures TimestampKey in records[i]
    {
      if i < |records| - 1 {
        assert records[i] == db[path][i];
      }
    }
  }

  /** The store, held as session state and updated in place. */
  class SubmissionStore<V> {
    var db: Db<V>

    ghost predicate Valid()
      reads this
    {
      ValidDb(db)
    }

    /** The empty store set up on first use. */
    constructor()
      ensures db == map[]
      ensures Valid()
    {
      db := map[];
    }

    /** `get_all_submissions`: the records saved for the form, oldest first; none for an unknown form. */
    function GetAll(formId: string): (records: seq<Record<V>>)
      reads this
      ensures CollectionPath(formId) !in db ==> records == []
      ensures Valid() ==> forall i :: 0 <= i < |records| ==> TimestampKey in records[i]
    {
      SubmissionsOf(db, formId)
    }

    /**
     * `save_form_submission`: create the form's collection if absent, then
     * append the record stamped with `timestamp`.
     */
    method Save(formId: string, data: Record<V>, timestamp: V)
      requires Valid()
      modifies this
      ensures db == Saved(old(db), formId, data, timestamp)
      ensures GetAll(formId) == old(GetAll(formId)) + [MakeRecord(timestamp, data)]
      ensures forall other :: other != formId ==> GetAll(other) == old(GetAll(other))
      ensures Valid()
    {
      var path := CollectionPath(formId);
      if path !in db {
        db := db[path := []];
      }
      var submission := MakeRecord(timestamp, data);
      db := db[path := db[path] + [submission]];
      SavedAppendsOne(old(db), formId, data, timestamp);
      forall other | other != formId
        ensures GetAll(other) == old(GetAll(other))
      {
        SavedKeepsOthers(old(db), formId, data, timestamp, other);
      }
      SavedValid(old(db), formId, data, timestamp);
    }
  }
}

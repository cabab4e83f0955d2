/**
 * The metadata store service: `saveFileMeta`, `getFileMeta`,
 * `deleteFileMeta` and the duplicate-refusing
 * `saveFileMetaWithoutDuplicates`, over an in-memory collection of file
 * records keyed by a store-assigned id.
 *
 * The functions on `Db` values describe each operation; the class
 * `MetadataStore` carries the collection as mutable state and its methods
 * are proved against those functions. The database itself (a Mongoose
 * model) is replaced by the map; a rejected database call is an input `fault`.
 */
module FileService {
  import opened Wrappers

  /** Store-assigned identity, distinct from the filename. */
  type Id = nat

  /** The fields a caller supplies for a new record. */
  datatype FileData = FileData(filename: string, mimetype: string, size: nat, path: string, uploadDate: nat)

  /** A stored document: its id and the fields it was created from. */
  datatype FileRecord = FileRecord(id: Id, meta: FileData)

  /** What an awaited call rejects with: an `Error` with its message, or any other value. */
  datatype Thrown = ErrorObject(message: string) | OtherValue

  /** The calls the service makes on the File model. */
  datatype DbCall =
    | FindOne(filename: string)
    | Save(data: FileData)
    | FindById(id: Id)
    | FindByIdAndDelete(id: Id)

  /** The collection and the id the next insert will receive. */
  datatype Db = Db(records: map<Id, FileRecord>, nextId: Id)

  /** The message of the duplicate error. */
  function DuplicateMessage(filename: string): string {
    "File with name '" + filename + "' already exists in the system"
  }

  /** Each record sits under its own id, and every id in use is below `nextId`. */
  predicate WellFormed(db: Db) {
    forall id :: id in db.records ==> db.records[id].id == id && id < db.nextId
  }

  /** No two records share a filename. */
  predicate UniqueFilenames(records: map<Id, FileRecord>) {
    forall i, j ::
      i in records && j in records && records[i].meta.filename == records[j].meta.filename ==> i == j
  }

  /** The invariant the ingestion workflow keeps. */
  predicate Invariant(db: Db) {
    WellFormed(db) && UniqueFilenames(db.records)
  }

  /** `File.findOne({filename})` finds something. */
  predicate HasFilename(records: map<Id, FileRecord>, filename: string) {
    exists id :: id in records && records[id].meta.filename == filename
  }

  /** `File.findById(id)` when it resolves: the record with that id, or null. */
  function Lookup(db: Db, id: Id): (r: Option<FileRecord>)
    ensures r.Some? <==> id in db.records
    ensures WellFormed(db) && r.Some? ==> r.value.id == id
  {
    if id in db.records then Some(db.records[id]) else None
  }

  /** `getFileMeta(id)`: the lookup's answer, or the store's error when the query rejects. */
  function GetStep(db: Db, id: Id, fault: Option<Thrown>): (r: Result<Option<FileRecord>, Thrown>)
    ensures r.Failure? <==> fault.Some?
    ensures r.Failure? ==> r.error == fault.value
  {
    match fault
    case Some(t) => Failure(t)
    case None => Success(Lookup(db, id))
  }

  /** `saveFileMeta`: insert a record built from `data` under a fresh id, or reject with the store's error. */
  function SaveStep(db: Db, data: FileData, fault: Option<Thrown>): (r: (Result<FileRecord, Thrown>, Db))
    ensures fault.Some? ==> r == (Failure(fault.value), db)
    ensures fault.None? ==> r.0.Success? && r.1.records.Keys == db.records.Keys + {db.nextId}
    ensures r.1.nextId >= db.nextId
  {
    match fault
    case Some(t) => (Failure(t), db)
    case None =>
      var rec := FileRecord(db.nextId, data);
      (Success(rec), Db(db.records[db.nextId := rec], db.nextId + 1))
  }

  /** How the two awaited calls of the duplicate-refusing save end: `None` resolves, `Some(t)` rejects with `t`. */
  datatype Faults = Faults(lookup: Option<Thrown>, write: Option<Thrown>)

  /** Both calls resolve. */
  const NoFaults: Faults := Faults(None, None)

  /**
   * `saveFileMetaWithoutDuplicates`: look the filename up, refuse it when
   * a record already has it, otherwise `saveFileMeta`. A rejected lookup
   * rejects the whole call with that error.
   */
  function SaveUniqueStep(db: Db, data: FileData, faults: Faults): (r: (Result<FileRecord, Thrown>, Db))
    ensures r.1 != db ==> !HasFilename(db.records, data.filename) && r.0.Success?
    ensures r.0.Success? ==> r.0.value.meta == data && faults == NoFaults
    ensures faults.lookup.None? && HasFilename(db.records, data.filename) ==>
      r.0 == Failure(ErrorObject(DuplicateMessage(data.filename)))
    ensures faults == NoFaults && !HasFilename(db.records, data.filename) ==>
      && r.0 == Success(FileRecord(db.nextId, data))
      && r.1.records == db.records[db.nextId := r.0.value]
  {
    match faults.lookup
    case Some(t) => (Failure(t), db)
    case None =>
      if HasFilename(db.records, data.filename) then
        (Failure(ErrorObject(DuplicateMessage(data.filename))), db)
      else
        SaveStep(db, data, faults.write)
  }

  /** The collaborator calls `saveFileMetaWithoutDuplicates` makes. */
  function SaveUniqueCalls(records: map<Id, FileRecord>, data: FileData, faults: Faults): (calls: seq<DbCall>)
    ensures 1 <= |calls| <= 2 && calls[0] == FindOne(data.filename)
    ensures Save(data) in calls <==> faults.lookup.None? && !HasFilename(records, data.filename)
  {
    if faults.lookup.Some? || HasFilename(records, data.filename) then [FindOne(data.filename)]
    else [FindOne(data.filename), Save(data)]
  }

  /**
   * `deleteFileMeta`: remove the record and return it, or return null when
   * absent; a rejected call returns the store's error and removes nothing.
   */
  function DeleteStep(db: Db, id: Id, fault: Option<Thrown>): (r: (Result<Option<FileRecord>, Thrown>, Db))
    ensures r.1.nextId == db.nextId
    ensures r.1.records.Keys == if fault.None? then db.records.Keys - {id} else db.records.Keys
    ensures forall k :: k in r.1.records ==> k in db.records && r.1.records[k] == db.records[k]
    ensures fault.Some? ==> r.0 == Failure(fault.value)
  {
    match fault
    case Some(t) => (Failure(t), db)
    case None => (Success(Lookup(db, id)), Db(db.records - {id}, db.nextId))
  }

  /** A request the ingestion workflow may make of the store. */
  datatype Request = SaveUnique(data: FileData, faults: Faults) | Delete(id: Id, fault: Option<Thrown>)

  /** The store after one request. */
  function Apply(db: Db, request: Request): Db {
    match request
    case SaveUnique(data, faults) => SaveUniqueStep(db, data, faults).1
    case Delete(id, fault) => DeleteStep(db, id, fault).1
  }

  /** The store after a sequence of requests, in order. */
  function Replay(db: Db, requests: seq<Request>): Db
    decreases |requests|
  {
    if requests == [] then db else Replay(Apply(db, requests[0]), requests[1..])
  }

  /**
   * A save stores exactly the given fields under an id not used before and
   * returns that record; every other record is untouched. A failing save
   * rejects with the store's own error and writes nothing.
   */
  lemma SaveStoresGivenFields(db: Db, data: FileData, fault: Option<Thrown>)
    requires WellFormed(db)
    ensures var (r, db') := SaveStep(db, data, fault);
      && WellFormed(db')
      && (fault.Some? ==> r == Failure(fault.value) && db' == db)
      && (fault.None? ==>
            && r.Success? && r.value.meta == data && r.value.id !in db.records
            && Lookup(db', r.value.id) == Some(r.value)
            && forall id :: id != r.value.id ==> Lookup(db', id) == Lookup(db, id))
  {
  }

  /** The duplicate-refusing save keeps filenames unique. */
  lemma SaveUniquePreservesInvariant(db: Db, data: FileData, faults: Faults)
    requires Invariant(db)
    ensures Invariant(SaveUniqueStep(db, data, faults).1)
  {
  }

  /** Deleting a record keeps the invariant. */
  lemma DeletePreservesInvariant(db: Db, id: Id, fault: Option<Thrown>)
    requires Invariant(db)
    ensures Invariant(DeleteStep(db, id, fault).1)
  {
  }

  /** Across any sequence of duplicate-refusing saves and deletes, no two records share a filename. */
  lemma {:induction false} ReplayPreservesInvariant(db: Db, requests: seq<Request>)
    requires Invariant(db)
    ensures Invariant(Replay(db, requests))
    decreases |requests|
  {
    if requests != [] {
      match requests[0] {
        case SaveUnique(data, faults) => SaveUniquePreservesInvariant(db, data, faults);
        case Delete(id, fault) => DeletePreservesInvariant(db, id, fault);
      }
      ReplayPreservesInvariant(Apply(db, requests[0]), requests[1..]);
    }
  }

  /** Saving a second file under a name that was just saved is refused with the duplicate message, and writes nothing. */
  lemma SecondSaveRefused(db: Db, first: FileData, second: FileData, write: Option<Thrown>)
    requires WellFormed(db)
    requires first.filename == second.filename
    requires SaveUniqueStep(db, first, NoFaults).0.Success?
    ensures var db1 := SaveUniqueStep(db, first, NoFaults).1;
      SaveUniqueStep(db1, second, Faults(None, write)) == (Failure(ErrorObject(DuplicateMessage(second.filename))), db1)
  {
    var db1 := SaveUniqueStep(db, first, NoFaults).1;
    assert db1.records[db.nextId].meta.filename == second.filename;
  }

  /**
   * When a filename is already taken and the lookup resolves, the save is
   * refused with a message naming it, nothing is written, and only the
   * lookup is made.
   */
  lemma DuplicateRefused(db: Db, data: FileData, write: Option<Thrown>, holder: Id)
    requires holder in db.records && db.records[holder].meta.filename == data.filename
    ensures SaveUniqueStep(db, data, Faults(None, write)) == (Failure(ErrorObject(DuplicateMessage(data.filename))), db)
    ensures SaveUniqueCalls(db.records, data, Faults(None, write)) == [FindOne(data.filename)]
  {
  }

  /** A rejected lookup rejects the save with the store's error, before any write. */
  lemma LookupFailurePropagates(db: Db, data: FileData, t: Thrown, write: Option<Thrown>)
    ensures SaveUniqueStep(db, data, Faults(Some(t), write)) == (Failure(t), db)
    ensures SaveUniqueCalls(db.records, data, Faults(Some(t), write)) == [FindOne(data.filename)]
  {
  }

  /**
   * A resolved delete returns what the lookup would have returned (null
   * when absent); afterwards the id is gone and every other record is as it was.
   */
  lemma DeleteThenLookup(db: Db, id: Id)
    ensures var (r, db') := DeleteStep(db, id, None);
      && r == Success(Lookup(db, id))
      && GetStep(db', id, None) == Success(None)
      && forall other :: other != id ==> Lookup(db', other) == Lookup(db, other)
  {
  }

  /** The plain save does not refuse duplicates: two records can then share a filename. */
  lemma PlainSaveCanDuplicate(data: FileData)
    ensures var db := SaveStep(SaveStep(Db(map[], 0), data, None).1, data, None).1;
      WellFormed(db) && !UniqueFilenames(db.records)
  {
    var db := SaveStep(SaveStep(Db(map[], 0), data, None).1, data, None).1;
    assert db.records[0].meta.filename == db.records[1].meta.filename;
  }

  /** The record collection with mutable state, as the service sees the File model. */
  class MetadataStore {
    var records: map<Id, FileRecord>
    var nextId: Id
    /** Every call made on the File model, oldest first. */
    ghost var calls: seq<DbCall>

    function State(): Db
      reads this
    {
      Db(records, nextId)
    }

    ghost predicate Valid()
      reads this
    {
      WellFormed(State())
    }

    constructor ()
      ensures Valid() && State() == Db(map[], 0) && calls == []
    {
      records, nextId := map[], 0;
      calls := [];
    }

    /** `File.findOne({filename})`: a record with that filename, if any, or the store's error. */
    method FindOneByFilename(filename: string, fault: Option<Thrown>) returns (r: Result<Option<FileRecord>, Thrown>)
      requires Valid()
      modifies this`calls
      ensures calls == old(calls) + [FindOne(filename)]
      ensures r.Failure? <==> fault.Some?
      ensures r.Failure? ==> r.error == fault.value
      ensures r.Success? ==> (r.value.Some? <==> HasFilename(records, filename))
      ensures r.Success? && r.value.Some? ==>
        var found := r.value.value;
        found.id in records && records[found.id] == found && found.meta.filename == filename
    {
      calls := calls + [FindOne(filename)];
      if fault.Some? {
        return Failure(fault.value);
      }
      if id :| id in records && records[id].meta.filename == filename {
        r := Success(Some(records[id]));
      } else {
        r := Success(None);
      }
    }

    /** `saveFileMeta(data)`. */
    method SaveFileMeta(data: FileData, fault: Option<Thrown>) returns (r: Result<FileRecord, Thrown>)
      requires Valid()
      modifies this
      ensures Valid()
      ensures (r, State()) == SaveStep(old(State()), data, fault)
      ensures calls == old(calls) + [Save(data)]
    {
      calls := calls + [Save(data)];
      if fault.Some? {
        r := Failure(fault.value);
      } else {
        var saved := FileRecord(nextId, data);
        records := records[nextId := saved];
        nextId := nextId + 1;
        r := Success(saved);
      }
    }

    /** `getFileMeta(id)`: reads the record, or null, or the store's error, and changes nothing in the collection. */
    method GetFileMeta(id: Id, fault: Option<Thrown>) returns (r: Result<Option<FileRecord>, Thrown>)
      modifies this`calls
      ensures calls == old(calls) + [FindById(id)]
      ensures r == GetStep(State(), id, fault)
    {
      calls := calls + [FindById(id)];
      if fault.Some? {
        r := Failure(fault.value);
      } else {
        r := Success(if id in records then Some(records[id]) else None);
      }
    }

    /** `deleteFileMeta(id)`: removes and returns the record, or returns null without failing, or rejects with the store's error. */
    method DeleteFileMeta(id: Id, fault: Option<Thrown>) returns (r: Result<Option<FileRecord>, Thrown>)
      requires Valid()
      modifies this
      ensures Valid()
      ensures (r, State()) == DeleteStep(old(State()), id, fault)
      ensures calls == old(calls) + [FindByIdAndDelete(id)]
      ensures old(UniqueFilenames(records)) ==> UniqueFilenames(records)
    {
      calls := calls + [FindByIdAndDelete(id)];
      if fault.Some? {
        return Failure(fault.value);
      }
      r := Success(if id in records then Some(records[id]) else None);
      records := records - {id};
    }

    /** `saveFileMetaWithoutDuplicates(data)`: look up the filename, throw on a match, otherwise save. */
    method SaveFileMetaWithoutDuplicates(data: FileData, faults: Faults) returns (r: Result<FileRecord, Thrown>)
      requires Valid()
      modifies this
      ensures Valid()
      ensures (r, State()) == SaveUniqueStep(old(State()), data, faults)
      ensures calls == old(calls) + SaveUniqueCalls(old(records), data, faults)
      ensures old(UniqueFilenames(records)) ==> UniqueFilenames(records)
    {
      ghost var before := State();
      var existing := FindOneByFilename(data.filename, faults.lookup);
      match existing {
        case Failure(t) => r := Failure(t);
        case Success(Some(_)) => r := Failure(ErrorObject(DuplicateMessage(data.filename)));
        case Success(None) => r := SaveFileMeta(data, faults.write);
      }
      if UniqueFilenames(before.records) {
        SaveUniquePreservesInvariant(before, data, faults);
      }
    }
  }
}

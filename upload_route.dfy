/**
 * The `POST /upload` handler: after multer has run, answer 400 when no
 * file reached the route, otherwise make one duplicate-refusing save and
 * answer 201 with the saved record or 500 with the error's message.
 */
module UploadRoute {
  import opened Wrappers
  import opened FileService
  import opened UploadMiddleware

  /** The body of the 400 answer. */
  const NoFileMessage: string := "File type is not allowed or no file uploaded"

  /** The JSON body of an answer. */
  datatype Body = RecordJson(record: FileRecord) | ErrorJson(error: string)

  datatype Response = Response(status: nat, body: Body)

  /** The metadata the handler passes to the store: the uploaded file's fields, dated `now`. */
  function MetaOf(file: UploadedFile, now: nat): FileData {
    FileData(file.filename, file.mimetype, file.size, file.path, now)
  }

  /** The text of the 500 answer: the `Error`'s message, or "Unknown error" for any other thrown value. */
  function ErrorMessage(t: Thrown): (message: string)
    ensures t.ErrorObject? ==> message == t.message
    ensures t.OtherValue? ==> message == "Unknown error"
  {
    match t
    case ErrorObject(message) => message
    case OtherValue => "Unknown error"
  }

  /** The handler's answer and the store it leaves behind. */
  function HandlerOutcome(db: Db, file: Option<UploadedFile>, now: nat, faults: Faults): (r: (Response, Db))
    ensures r.0.status in {400, 201, 500}
    ensures r.1 != db ==> r.0.status == 201
    ensures r.0.status == 201 <==> r.0.body.RecordJson?
  {
    match file
    case None => (Response(400, ErrorJson(NoFileMessage)), db)
    case Some(f) =>
      var (saved, db') := SaveUniqueStep(db, MetaOf(f, now), faults);
      match saved
      case Success(record) => (Response(201, RecordJson(record)), db')
      case Failure(t) => (Response(500, ErrorJson(ErrorMessage(t))), db')
  }

  /** The calls the handler makes on the File model. */
  function HandlerCalls(db: Db, file: Option<UploadedFile>, now: nat, faults: Faults): (calls: seq<DbCall>)
    ensures calls == [] <==> file.None?
    ensures file.Some? ==> calls[0] == FindOne(file.value.filename) && |calls| <= 2
    ensures file.Some? ==>
      (Save(MetaOf(file.value, now)) in calls <==>
         faults.lookup.None? && !HasFilename(db.records, file.value.filename))
  {
    match file
    case None => []
    case Some(f) => SaveUniqueCalls(db.records, MetaOf(f, now), faults)
  }

  /** The route handler, run on the store. */
  method PostUpload(store: MetadataStore, file: Option<UploadedFile>, now: nat, faults: Faults)
    returns (resp: Response)
    requires store.Valid()
    modifies store
    ensures store.Valid()
    ensures (resp, store.State()) == HandlerOutcome(old(store.State()), file, now, faults)
    ensures store.calls == old(store.calls) + HandlerCalls(old(store.State()), file, now, faults)
    ensures old(UniqueFilenames(store.records)) ==> UniqueFilenames(store.records)
  {
    if file.None? {
      return Response(400, ErrorJson(NoFileMessage));
    }
    var meta := store.SaveFileMetaWithoutDuplicates(MetaOf(file.value, now), faults);
    match meta {
      case Success(record) => resp := Response(201, RecordJson(record));
      case Failure(t) => resp := Response(500, ErrorJson(ErrorMessage(t)));
    }
  }

  /**
   * The three answers: 400 exactly when no file reached the route and the
   * store is left as it was; 201 exactly when a record was saved, whose
   * body is that record, built from the file's fields and dated `now`, and
   * retrievable by its id; otherwise 500 with nothing written, carrying the
   * lookup's error, else the duplicate message, else the write's error.
   * A file with a new stored name whose calls both resolve answers 201.
   */
  lemma HandlerResponses(db: Db, file: Option<UploadedFile>, now: nat, faults: Faults)
    requires WellFormed(db)
    ensures var (resp, db') := HandlerOutcome(db, file, now, faults);
      && (resp.status == 400 <==> file.None?)
      && (resp.status == 400 ==> resp.body == ErrorJson(NoFileMessage) && db' == db)
      && (resp.status == 201 ==>
            && resp.body.record.meta == MetaOf(file.value, now)
            && Lookup(db', resp.body.record.id) == Some(resp.body.record))
      && (file.Some? && faults == NoFaults && !HasFilename(db.records, file.value.filename) ==>
            resp.status == 201)
      && (resp.status == 500 ==>
            && db' == db
            && file.Some?
            && (faults.lookup.Some? || HasFilename(db.records, file.value.filename) || faults.write.Some?)
            && resp.body == ErrorJson(
                 if faults.lookup.Some? then ErrorMessage(faults.lookup.value)
                 else if HasFilename(db.records, file.value.filename) then DuplicateMessage(file.value.filename)
                 else ErrorMessage(faults.write.value)))
  {
  }

  /** A file the filter rejects never reaches the store: the answer is 400 and no call is made. */
  lemma RejectedFileNeverStored(db: Db, part: IncomingFile, dir: string, stamp: nat, u: real, ext: string,
                                now: nat, faults: Faults)
    requires 0.0 <= u < 1.0 && IsExtension(ext)
    requires !FileFilter(part)
    ensures var admitted := SingleFile(Some(part), dir, stamp, u, ext);
      && admitted == Forwarded(None)
      && HandlerOutcome(db, admitted.file, now, faults) == (Response(400, ErrorJson(NoFileMessage)), db)
      && HandlerCalls(db, admitted.file, now, faults) == []
  {
  }

  /** Uploading a file whose stored name is already recorded answers 500 with the duplicate message. */
  lemma RepeatedUploadRefused(db: Db, first: UploadedFile, second: UploadedFile, t1: nat, t2: nat,
                              write: Option<Thrown>)
    requires Invariant(db)
    requires first.filename == second.filename
    requires HandlerOutcome(db, Some(first), t1, NoFaults).0.status == 201
    ensures var db1 := HandlerOutcome(db, Some(first), t1, NoFaults).1;
      HandlerOutcome(db1, Some(second), t2, Faults(None, write))
        == (Response(500, ErrorJson(DuplicateMessage(second.filename))), db1)
  {
    SecondSaveRefused(db, MetaOf(first, t1), MetaOf(second, t2), write);
  }

  /**
   * The route de-duplicates on the stored name, which multer makes fresh
   * for every upload: the same file sent twice at two different instants
   * is saved twice, and both requests answer 201.
   */
  lemma ReuploadAtAnotherInstantAccepted(part: IncomingFile, dir: string, s1: nat, s2: nat, u1: real, u2: real,
                                         ext: string, now1: nat, now2: nat)
    requires FileFilter(part) && WithinSizeLimit(part.size) && IsExtension(ext)
    requires 0.0 <= u1 < 1.0 && 0.0 <= u2 < 1.0
    requires s1 != s2
    ensures var a1 := SingleFile(Some(part), dir, s1, u1, ext);
      var a2 := SingleFile(Some(part), dir, s2, u2, ext);
      var (resp1, db1) := HandlerOutcome(Db(map[], 0), a1.file, now1, NoFaults);
      var (resp2, db2) := HandlerOutcome(db1, a2.file, now2, NoFaults);
      && resp1.status == 201 && resp2.status == 201
      && resp1.body.record.meta.mimetype == resp2.body.record.meta.mimetype
      && |db2.records| == 2
  {
    var a1 := SingleFile(Some(part), dir, s1, u1, ext);
    var a2 := SingleFile(Some(part), dir, s2, u2, ext);
    var n1, n2 := a1.file.value.filename, a2.file.value.filename;
    if n1 == n2 {
      StoredNameInjective(s1, RandomSuffix(u1), ext, s2, RandomSuffix(u2), ext);
    }
    var db1 := HandlerOutcome(Db(map[], 0), a1.file, now1, NoFaults).1;
    assert db1.records == map[0 := FileRecord(0, MetaOf(a1.file.value, now1))];
    assert !HasFilename(db1.records, n2);
    var db2 := HandlerOutcome(db1, a2.file, now2, NoFaults).1;
    assert db2.records.Keys == {0, 1};
  }
}

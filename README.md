# File upload ingestion, modelled in Dafny

This project models the upload-ingestion path of a small Express/MongoDB file
upload service, and the client-side "upload only if absent" helper that sits
beside it. The web framework, the database and the network are replaced by
plain inputs and state:

- **Upload middleware** (`upload_middleware.dfy`, module `UploadMiddleware`):
  multer's file filter (the declared mimetype must start with one of four
  allowed prefixes), the 5 MiB size ceiling, and the stored disk name
  `<Date.now()>-<Math.round(Math.random()*1E9)><extname>`. It also covers the
  resulting admission decision for the single `file` field: the file is
  skipped, forwarded, or stopped by the size limit. `strings.dfy` holds the
  JavaScript string behaviour this relies on: `startsWith` and the decimal
  text of an integer.
- **Metadata store service** (`file_service.dfy`, module `FileService`):
  `saveFileMeta`, `getFileMeta`, `deleteFileMeta` and the duplicate-refusing
  `saveFileMetaWithoutDuplicates`. Each operation is a function on a `Db`
  value: an id-to-record map plus the next id to assign. The class
  `MetadataStore` holds that state as fields; its methods are proved against
  those functions, and a ghost log records every call made on the File model.
  The invariant is that no two records share a filename.
- **Upload route** (`upload_route.dfy`, module `UploadRoute`): the
  `POST /upload` handler. It answers 400 when no file reached it. Otherwise
  it makes one duplicate-refusing save and answers 201 with the record, or
  500 with the error's message (`"Unknown error"` for a thrown non-`Error`).
  It is a method over a `MetadataStore`.
- **Remote uploader** (`remote_uploader.dfy`, module `RemoteUploader`):
  `upload_unique_file` runs one existence query and then, only when the
  query succeeded and did not report the file, the upload. The
  query's outcome is an input: it threw, or it answered with a JSON body.
  JavaScript's reading of `data.exists` is modelled, including the throw on
  a `null` body and truthiness. `upload_file` is the constant
  `"Not implemented yet"` that its current body returns.

Inputs standing in for I/O: the clock (`now`, `stamp`), the random draw
`u ∈ [0,1)`, the extension returned by `path.extname`, the upload directory,
a rejection by any database call (`fault`, `faults`), and the HTTP client's outcome (`check`).

The comments of `upload_file` (upload_file.ts:3 and 20-28) announce local
validation (existence, size, type), logging, retries and an integrity check.
None of it is implemented: the function returns a constant
(upload_file.ts:29), and `upload_unique_file` calls it directly. The model
follows the code.

The route refuses a file only when its stored name is already recorded. That
name is built by multer from the upload instant and a random number, so the
same file sent twice at two different instants is saved twice, and both
requests answer 201 (`UploadRoute.ReuploadAtAnotherInstantAccepted`). A
refusal needs two uploads in the same millisecond that also draw the same
random number.

## Model

| member | source | states |
|---|---|---|
| `UploadMiddleware.SomeStartsWith` | src/middleware/upload.ts:23 | `some(startsWith)` is true iff some prefix in the list is a prefix of the string |
| `UploadMiddleware.FileFilter` | src/middleware/upload.ts:21-27 | a file is accepted iff its mimetype starts with `image/`, `application/pdf`, `application/msword` or the wordprocessingml type |
| `UploadMiddleware.PrefixNotEquality` | src/middleware/upload.ts:23 | matching is by prefix: any `image/…` subtype and `application/pdfx` are accepted |
| `UploadMiddleware.ExeAndTextRejected` | tests/upload.test.ts:35-54 | the types a client may declare for the `.exe` file (`application/x-msdownload`, `application/x-msdos-program`) and `text/plain` are rejected |
| `UploadMiddleware.FilterIgnoresNameAndSize` | src/middleware/upload.ts:22-23 | the verdict depends only on the mimetype, never on the name or size |
| `UploadMiddleware.SizeCeiling` | src/middleware/upload.ts:32 | the ceiling is 5 MiB: exactly 5242880 bytes is within it, one byte more is not |
| `UploadMiddleware.RandomSuffix` | src/middleware/upload.ts:16 | `Math.round(u*1E9)` for `u ∈ [0,1)` is an integer in [0, 10^9] within 0.5 of `u*1E9` |
| `UploadMiddleware.StoredName` | src/middleware/upload.ts:16 | the stored name starts with the timestamp's digits followed by a dash, and ends with the given extension |
| `UploadMiddleware.StoredNameRoundTrip` | src/middleware/upload.ts:16 | the stored name parses back to exactly the timestamp, random number and extension it was built from |
| `UploadMiddleware.StoredNameInjective` | src/middleware/upload.ts:16 | two stored names coincide only if timestamp, random number and extension all coincide |
| `UploadMiddleware.SingleFile` | src/middleware/upload.ts:11-34 | for an extension as `path.extname` returns it: absent or filtered-out file: route runs with no file; accepted but over 5 MiB: size-limit error; otherwise the route gets the file with its mimetype, size and original name, the stored name and the path under the upload directory |
| `UploadMiddleware.SizeCeilingScenarios` | tests/upload.test.ts:35-45 | a 6 MiB `.txt` file is skipped by the filter (the route answers 400), a 6 MiB image is stopped by the 5 MiB limit, a 5 MiB PDF passes |
| `UploadMiddleware.RejectedTypeNeverForwarded` | src/middleware/upload.ts:22-27 | a rejected type is skipped (`cb(null,false)`) whatever its size, so no file and no error reach the route |
| `Strings.Decimal` | src/middleware/upload.ts:16 | the decimal text of an integer is a non-empty digit string with no superfluous leading zero; zero is `"0"` |
| `Strings.ParseDecimalOfDecimal` | src/middleware/upload.ts:16 | reading the decimal text of `n` back gives `n` |
| `FileService.Lookup` | src/services/fileService.ts:8-10 | a resolved `findById` finds a record iff the id is stored, and the record found carries that id |
| `FileService.GetStep` | src/services/fileService.ts:8-10 | `getFileMeta` rejects exactly when the query rejects, with the store's own error |
| `FileService.SaveStep` | src/services/fileService.ts:3-6 | a rejected save returns the store's error and leaves the store as it was; otherwise it succeeds and adds exactly one id, the next one |
| `FileService.SaveUniqueStep` | tests/uploadUnit.test.ts:14-63 | the store changes only on a successful save of a filename no record has; a success returns a record of exactly the given fields; a resolved lookup that finds the name gives the duplicate error; a new filename with both calls resolving is saved under the next id and returned |
| `FileService.DeleteStep` | src/services/fileService.ts:12-14 | a resolved delete removes exactly that id, a rejected one removes nothing and returns the store's error; no other record changes |
| `FileService.SaveUniqueCalls` | tests/uploadUnit.test.ts:56-62 | the duplicate-refusing save always queries by filename first, and calls save iff the lookup resolved and no record has that filename |
| `FileService.SaveStoresGivenFields` | src/services/fileService.ts:3-6 | a save stores and returns a record with exactly the given fields under a new id and changes no other record; a failing save rejects with the store's own error and writes nothing |
| `FileService.SaveUniquePreservesInvariant` | tests/uploadUnit.test.ts:37-62 | the duplicate-refusing save keeps filenames unique |
| `FileService.DeletePreservesInvariant` | src/services/fileService.ts:12-14 | deleting keeps filenames unique |
| `FileService.ReplayPreservesInvariant` | tests/uploadUnit.test.ts:14-63 | across any sequence of duplicate-refusing saves and deletes, no two records share a filename |
| `FileService.SecondSaveRefused` | tests/uploadUnit.test.ts:37-62 | saving the same filename again right after a successful save is refused with `File with name '<f>' already exists in the system` and writes nothing |
| `FileService.LookupFailurePropagates` | tests/uploadUnit.test.ts:24-30 | the filename query is awaited before any save, so a rejected query rejects the duplicate-refusing save with the store's own error and writes nothing |
| `FileService.DuplicateRefused` | tests/uploadUnit.test.ts:46-62 | when a record with the filename exists and the lookup resolves, the save fails with the duplicate message, the store is unchanged, and only the `findOne` call is made |
| `FileService.DeleteThenLookup` | src/services/fileService.ts:8-14 | a resolved delete returns what the lookup would have returned (null when absent); afterwards `getFileMeta` of the id gives null and every other record is unchanged |
| `FileService.PlainSaveCanDuplicate` | src/services/fileService.ts:3-6 | the plain save does not refuse duplicates: two saves of one filename leave two records sharing it |
| `FileService.MetadataStore.FindOneByFilename` | tests/uploadUnit.test.ts:30 | `findOne({filename})` rejects exactly when the query rejects; otherwise it finds a record iff one has that filename, and returns a stored record with it; nothing is written |
| `FileService.MetadataStore.SaveFileMeta` | src/services/fileService.ts:3-6 | one `save` call; the new state and result are those of the save step |
| `FileService.MetadataStore.GetFileMeta` | src/services/fileService.ts:8-10 | one `findById` call; returns the record with that id, null, or the store's error; the records are unchanged |
| `FileService.MetadataStore.DeleteFileMeta` | src/services/fileService.ts:12-14 | one `findByIdAndDelete` call; removes and returns the record, returns null, or rejects with the store's error removing nothing; uniqueness is kept |
| `FileService.MetadataStore.SaveFileMetaWithoutDuplicates` | tests/uploadUnit.test.ts:14-63 | query by filename, pass on a rejected query, refuse a duplicate without saving, otherwise save; uniqueness is kept |
| `UploadRoute.HandlerCalls` | src/routes/upload.ts:9-19 | no file: no store call at all; a file: the first call is the lookup by its filename, at most two calls, and a save of the file's filename, mimetype, size and path dated now happens iff the lookup resolved and no record has that filename |
| `UploadRoute.ErrorMessage` | src/routes/upload.ts:22 | the 500 text is the `Error`'s message, or `Unknown error` for any other thrown value |
| `UploadRoute.HandlerOutcome` | src/routes/upload.ts:7-25 | the answer is always 400, 201 or 500; 201 exactly when the body is a record; the store changes only on a 201 |
| `UploadRoute.PostUpload` | src/routes/upload.ts:7-25 | the handler's answer, new store and calls are those of the reference outcome; uniqueness is kept |
| `UploadRoute.HandlerResponses` | src/routes/upload.ts:7-25 | 400 iff no file (fixed message, store unchanged); 201 iff a record body, built from the file's fields dated now and retrievable by id; a file with a new stored name whose calls both resolve answers 201; 500 only when a call rejected or the name was taken, with nothing written and the lookup's error, else the duplicate message, else the write's error |
| `UploadRoute.RejectedFileNeverStored` | src/routes/upload.ts:9-12 | a file the filter rejects leads to 400 with no store call |
| `UploadRoute.RepeatedUploadRefused` | src/routes/upload.ts:13-24 | uploading a second file with a stored name already saved answers 500 with the duplicate message |
| `UploadRoute.ReuploadAtAnotherInstantAccepted` | src/routes/upload.ts:13-20 | the same accepted file sent at two different instants gets two distinct stored names, so both requests answer 201 and two records exist |
| `RemoteUploader.Truthy` | upload_uniqe_data.ts:16 | `undefined` and `null` are falsy; every array and object is truthy |
| `RemoteUploader.QueryOf` | upload_uniqe_data.ts:13-15 | the existence query goes to exactly the endpoint followed by `/exists` (prefix, suffix and length), with the file path as its parameter |
| `RemoteUploader.ExistsProperty` | upload_uniqe_data.ts:16 | reading `data.exists` throws exactly on a `null` body |
| `RemoteUploader.UploadUniqueFile` | upload_uniqe_data.ts:10-25 | exactly one existence query to `<endpoint>/exists` with the file path, first, and at most one upload after it, with no retry |
| `RemoteUploader.UploadOnlyWhenReportedAbsent` | upload_uniqe_data.ts:12-24 | the upload is sent iff the query succeeded and `exists` was falsy, and then the result is `upload_file`'s; otherwise the result is one of the two error messages |
| `RemoteUploader.FailClosed` | upload_uniqe_data.ts:12-21 | a query that throws, or a null body, gives the check-failed message and no upload |
| `RemoteUploader.ExistingFileNotUploaded` | upload_uniqe_data.ts:16-18 | a truthy `exists` gives the already-exists message and no upload |
| `RemoteUploader.MissingOrFalseFieldUploads` | upload_uniqe_data.ts:16-24 | a missing or false `exists` field leads to the upload, and its result is returned |

## Left out

- Express wiring in src/app.ts: the health endpoint, the 404 handler, the error-handling middleware, the MongoDB connection, SIGINT shutdown and server start. These are framework and I/O.
- The answer to a request stopped by multer's size limit. `SingleFile` ends in `FileTooLarge`, and the route handler is not reached. What the application's error handler then sends is not modelled.
- multer's other errors (a file in an unexpected field, too many parts) and its partial-file clean-up.
- The creation of the upload directory at module load, and the disk writes of the file's bytes.
- `path.extname`: the extension is a parameter. The round-trip lemmas require only that it is empty or starts with a dot.
- `path.join`: the stored path is the directory, `/`, then the stored name.
- `Math.random()` and `Math.round`: both are taken over the reals, without floating-point rounding.
- `Date.now()`: the timestamp is an input. It is assumed small enough that JavaScript prints it without an exponent.
- The Mongoose schema's required-field checks and the `uploadDate` default.
- Mongo's `ObjectId`: ids are a counter, and a malformed id string (a cast error in `findById`) is not modelled.
- The kinds of database errors: every rejection is an input value (`fault`, `faults`), and which calls fail is not modelled.
- The check-then-insert race between concurrent requests. The model covers one call at a time.
- The HTTP client: the existence query is an input outcome, and the `params` encoding of the query string is not modelled.
- `upload_file`: only its current constant result is modelled. Its constants `APPROVED_TYPES` and `MAX_SIZE_BYTES` are unused by the code.
- `FileService.MetadataStore.FindOneByFilename`: when several records share a filename, which one Mongo returns first is left open. Under the uniqueness invariant at most one can match.

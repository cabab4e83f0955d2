/**
 * The client-side uploader `upload_unique_file(file_path, server_endpoint)`:
 * one existence query, then the upload only when the query succeeded and
 * did not report the file. The HTTP client is replaced by the outcome of
 * the query, given as input; `upload_file` is the constant its current
 * body returns.
 */
module RemoteUploader {
  import opened Wrappers
  import opened Strings

  /** A JSON value as the HTTP client hands over a response body. */
  datatype Json =
    | JNull
    | JBool(b: bool)
    | JNumber(n: real)
    | JString(s: string)
    | JArray(items: seq<Json>)
    | JObject(fields: map<string, Json>)

  /** A property read in JavaScript: a value, or `undefined`. */
  datatype Property = Undefined | Defined(value: Json)

  /** How the existence query ended: it threw (transport failure, non-2xx status), or it answered with a body. */
  datatype CheckOutcome = CheckFailed | Responded(data: Json)

  /** One step the function takes: the existence query it sends, or its call to `upload_file`. */
  datatype Call =
    | ExistenceQuery(url: string, filePath: string)
    | Upload(filePath: string, endpoint: string)

  /** The message the function resolves with, and the requests it made, in order. */
  datatype Run = Run(message: string, calls: seq<Call>)

  const AlreadyExistsMessage: string := "Error: File already exists on the server."
  const CheckFailedMessage: string := "Error: Failed to check file existence on server."

  /** What `upload_file` currently resolves with, whatever its arguments. */
  const NotImplementedMessage: string := "Not implemented yet"

  /** `upload_file(file_path, server_endpoint)`: a stub. */
  function UploadFile(filePath: string, endpoint: string): string {
    NotImplementedMessage
  }

  /**
   * `data.exists`, or `None` when the read throws: `null` has no properties, so reading one throws; an
   * object gives its own field or `undefined`; booleans, numbers, strings
   * and arrays have no `exists` property.
   */
  function ExistsProperty(data: Json): (p: Option<Property>)
    ensures p.None? <==> data.JNull?
  {
    match data
    case JNull => None
    case JObject(fields) => Some(if "exists" in fields then Defined(fields["exists"]) else Undefined)
    case _ => Some(Undefined)
  }

  /** JavaScript truthiness of a JSON value or of `undefined`. */
  predicate Truthy(p: Property)
    ensures Truthy(p) ==> p.Defined? && !p.value.JNull?
    ensures p.Defined? && (p.value.JArray? || p.value.JObject?) ==> Truthy(p)
  {
    match p
    case Undefined => false
    case Defined(JNull) => false
    case Defined(JBool(b)) => b
    case Defined(JNumber(n)) => n != 0.0
    case Defined(JString(s)) => s != ""
    case Defined(JArray(_)) => true
    case Defined(JObject(_)) => true
  }

  /** The query the function sends: `GET <endpoint>/exists` with `file_path` as a parameter. */
  function QueryOf(filePath: string, endpoint: string): (q: Call)
    ensures q.ExistenceQuery? && q.filePath == filePath
    ensures StartsWith(q.url, endpoint) && EndsWith(q.url, "/exists")
    ensures |q.url| == |endpoint| + |"/exists"|
  {
    ExistenceQuery(endpoint + "/exists", filePath)
  }

  /** `upload_unique_file`, given how the existence query ends. */
  function UploadUniqueFile(filePath: string, endpoint: string, check: CheckOutcome): (run: Run)
    ensures 1 <= |run.calls| <= 2 && run.calls[0] == QueryOf(filePath, endpoint)
    ensures run.calls[0].ExistenceQuery? && forall k :: 1 <= k < |run.calls| ==> run.calls[k].Upload?
  {
    var query := QueryOf(filePath, endpoint);
    match check
    case CheckFailed => Run(CheckFailedMessage, [query])
    case Responded(data) =>
      match ExistsProperty(data)
      case None => Run(CheckFailedMessage, [query])
      case Some(p) =>
        if Truthy(p) then Run(AlreadyExistsMessage, [query])
        else Run(UploadFile(filePath, endpoint), [query, Upload(filePath, endpoint)])
  }

  /** The query succeeded and did not report the file: the only case in which uploading is allowed. */
  predicate ReportedAbsent(check: CheckOutcome) {
    check.Responded? && !check.data.JNull? && !Truthy(ExistsProperty(check.data).value)
  }

  /**
   * The upload is sent exactly when the query reported the file absent,
   * and then the result is exactly what `upload_file` returns; in every
   * other case the result is one of the two error messages.
   */
  lemma UploadOnlyWhenReportedAbsent(filePath: string, endpoint: string, check: CheckOutcome)
    ensures var run := UploadUniqueFile(filePath, endpoint, check);
      && (Upload(filePath, endpoint) in run.calls <==> ReportedAbsent(check))
      && (ReportedAbsent(check) ==> run.message == UploadFile(filePath, endpoint))
      && (!ReportedAbsent(check) ==> run.message in {CheckFailedMessage, AlreadyExistsMessage})
  {
  }

  /** Fail closed: a query that throws, or a `null` body, ends with the check-failed message and no upload. */
  lemma FailClosed(filePath: string, endpoint: string, check: CheckOutcome)
    requires check == CheckFailed || check == Responded(JNull)
    ensures UploadUniqueFile(filePath, endpoint, check) == Run(CheckFailedMessage, [QueryOf(filePath, endpoint)])
  {
  }

  /** A truthy `exists` ends with the already-exists message and no upload. */
  lemma ExistingFileNotUploaded(filePath: string, endpoint: string, fields: map<string, Json>)
    requires "exists" in fields && Truthy(Defined(fields["exists"]))
    ensures UploadUniqueFile(filePath, endpoint, Responded(JObject(fields)))
      == Run(AlreadyExistsMessage, [QueryOf(filePath, endpoint)])
  {
  }

  /** A body without an `exists` field, or with `exists: false`, leads to the upload and its result. */
  lemma MissingOrFalseFieldUploads(filePath: string, endpoint: string, fields: map<string, Json>)
    requires "exists" !in fields || fields["exists"] == JBool(false)
    ensures UploadUniqueFile(filePath, endpoint, Responded(JObject(fields)))
      == Run(NotImplementedMessage, [QueryOf(filePath, endpoint), Upload(filePath, endpoint)])
  {
  }
}

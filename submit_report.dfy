/** The `submit-report` edge function: answers the CORS pre-flight, writes the report's fields
    and the ingest time as JSON text in a fixed key order, hashes that text with SHA-256,
    stores the received fields with the hash, and answers with the hash and the stored row's
    id and creation time, or with a 500 and an error message. */
module SubmitReport {
  import opened Wrappers
  import opened Hex
  import Json
  import Utf8

  /** A SHA-256 digest: 32 bytes (section 6.2 of FIPS 180-4). */
  type Digest = d: seq<byte> | |d| == 32 witness seq(32, _ => 0)

  /** `crypto.subtle.digest('SHA-256', ·)`, which the model does not compute. */
  type Sha256 = seq<byte> -> Digest

  const CorsHeaders: seq<(string, string)> := [
    ("Access-Control-Allow-Origin", "*"),
    ("Access-Control-Allow-Headers", "authorization, x-client-info, apikey, content-type")
  ]

  const JsonHeaders: seq<(string, string)> := CorsHeaders + [("Content-Type", "application/json")]

  const FallbackMessage := "An error occurred while submitting the report"

  /** The five fields the function reads from the request body. Nothing checks that a field is
      present or is a string: each is whatever JSON value the body held, or None when the
      body did not have the key. */
  datatype ReportData = ReportData(
    incidentType: Option<Json.Value>,
    communityName: Option<Json.Value>,
    encryptedDescription: Option<Json.Value>,
    encryptedEvidence: Option<Json.Value>,
    incidentDate: Option<Json.Value>)

  /** The fields as `req.json()` yields them from a parsed body. */
  function ReportDataOf(body: seq<Json.Member>): ReportData {
    ReportData(
      Json.Lookup(body, "incidentType"),
      Json.Lookup(body, "communityName"),
      Json.Lookup(body, "encryptedDescription"),
      Json.Lookup(body, "encryptedEvidence"),
      Json.Lookup(body, "incidentDate"))
  }

  /** The row handed to `insert` on the `reports` table; a column that is None is left out. */
  datatype ReportRow = ReportRow(
    incident_type: Option<Json.Value>,
    community_name: Option<Json.Value>,
    encrypted_description: Option<Json.Value>,
    encrypted_evidence: Option<Json.Value>,
    incident_date: Option<Json.Value>,
    report_hash: string)

  /** The columns the database returns for the inserted row that the response uses. */
  datatype InsertedRecord = InsertedRecord(id: Json.Value, created_at: Json.Value)

  /** What a `catch` block receives: an `Error` with its message, or some other thrown value. */
  datatype Thrown = ErrorObject(message: string) | OtherValue

  /** An incoming request: its HTTP method (`req.method`) and the outcome of everything the
      try block does before hashing. That is `createClient` with the environment's URL and key,
      which throws when they are missing, and then `req.json()`, which throws on malformed
      JSON. A `null` body also throws: reading `reportData.incidentType` for the log line is a
      TypeError. Each of these throws is the Failure. */
  datatype Request = Request(verb: string, body: Result<ReportData, Thrown>)

  /** A response: status, headers, and the JSON object of its body; None is a null body. */
  datatype Response = Response(status: int, headers: seq<(string, string)>, body: Option<seq<Json.Member>>)

  /** The response and the row the function asked the database to insert, if it got that far. */
  datatype Outcome = Outcome(response: Response, inserted: Option<ReportRow>)

  /** The object literal hashed for tamper evidence, keys in the order written. */
  function ContentFields(d: ReportData, timestamp: string): seq<(string, Option<Json.Value>)> {
    [("incidentType", d.incidentType),
     ("communityName", d.communityName),
     ("encryptedDescription", d.encryptedDescription),
     ("encryptedEvidence", d.encryptedEvidence),
     ("incidentDate", d.incidentDate),
     ("timestamp", Some(Json.JStr(timestamp)))]
  }

  /** `reportContent`: the JSON text of that literal, absent fields left out. */
  function ReportContent(d: ReportData, timestamp: string): string {
    Json.Stringify(Json.Defined(ContentFields(d, timestamp)))
  }

  /** The report hash: SHA-256 of the UTF-8 bytes of the content, as lowercase hex. */
  function ReportHash(d: ReportData, timestamp: string, sha256: Sha256): (h: string)
    ensures |h| == 64
    ensures forall i :: 0 <= i < |h| ==> IsLowerHexDigit(h[i])
  {
    Hex.Encode(sha256(Utf8.Encode(ReportContent(d, timestamp))))
  }

  /** Each received field copied to its snake_case column, plus the hash. */
  function RowOf(d: ReportData, hash: string): ReportRow {
    ReportRow(d.incidentType, d.communityName, d.encryptedDescription,
              d.encryptedEvidence, d.incidentDate, hash)
  }

  function ErrorMessage(e: Thrown): string {
    match e
    case ErrorObject(m) => m
    case OtherValue => FallbackMessage
  }

  function ErrorResponse(e: Thrown): Response {
    Response(500, JsonHeaders, Some([("error", Json.JStr(ErrorMessage(e)))]))
  }

  function SuccessResponse(hash: string, record: InsertedRecord): Response {
    Response(200, JsonHeaders, Some([
      ("success", Json.JBool(true)),
      ("reportHash", Json.JStr(hash)),
      ("reportId", record.id),
      ("timestamp", record.created_at)]))
  }

  /** The whole handler. `now` is `new Date().toISOString()` at hashing time; `db` is what the
      insert reports (the inserted row or the error it returned, which the handler re-throws). */
  function Handle(req: Request, now: string, sha256: Sha256, db: Result<InsertedRecord, Thrown>): (o: Outcome)
    // the pre-flight answers at once, with a null body, and inserts nothing
    ensures req.verb == "OPTIONS" ==> o == Outcome(Response(200, CorsHeaders, None), None)
    // an insert is attempted exactly when the body could be read
    ensures o.inserted.Some? <==> req.verb != "OPTIONS" && req.body.Success?
    ensures o.inserted.Some? ==>
              o.inserted.value == RowOf(req.body.value, ReportHash(req.body.value, now, sha256))
    // 200 exactly when the insert succeeded, and then the stored hash is returned
    ensures o.response.status == 200 && o.response.body.Some? <==> o.inserted.Some? && db.Success?
    ensures o.response.status == 200 && o.response.body.Some? ==>
              Json.Lookup(o.response.body.value, "reportHash") == Some(Json.JStr(o.inserted.value.report_hash))
    // every other non-pre-flight answer is a 500 carrying only an error message
    ensures req.verb != "OPTIONS" && !(o.inserted.Some? && db.Success?) ==>
              o.response.status == 500 && o.response.body.Some? && Json.Keys(o.response.body.value) == ["error"]
  {
    if req.verb == "OPTIONS" then
      Outcome(Response(200, CorsHeaders, None), None)
    else match req.body
      case Failure(e) => Outcome(ErrorResponse(e), None)
      case Success(d) =>
        var hash := ReportHash(d, now, sha256);
        var row := RowOf(d, hash);
        match db
        case Failure(e) => Outcome(ErrorResponse(e), Some(row))
        case Success(record) =>
          SuccessBodyFields(hash, record);
          Outcome(SuccessResponse(hash, record), Some(row))
  }

  /** The response body as sent: its JSON text, or no body at all. */
  function ResponseText(r: Response): Option<string> {
    match r.body
    case None => None
    case Some(ms) => Some(Json.Stringify(ms))
  }

  // ---------------------------------------------------------------- properties

  lemma ContentKeysDistinct(d: ReportData, timestamp: string)
    ensures Json.DistinctKeys(ContentFields(d, timestamp))
  {
    var f := ContentFields(d, timestamp);
    assert f[0].0[8] != f[4].0[8];
  }

  /** The member at position i of the hashed literal reads back from the hashed text. */
  lemma ContentFieldReadsBack(d: ReportData, timestamp: string, i: nat)
    requires i < 6
    ensures Json.Parse(ReportContent(d, timestamp)) == Some(Json.Defined(ContentFields(d, timestamp)))
    ensures Json.Lookup(Json.Defined(ContentFields(d, timestamp)), ContentFields(d, timestamp)[i].0)
         == ContentFields(d, timestamp)[i].1
  {
    var f := ContentFields(d, timestamp);
    Json.ParseStringify(Json.Defined(f));
    ContentKeysDistinct(d, timestamp);
    Json.LookupDefined(f, f[i].0);
    Json.FieldValueAt(f, i);
  }

  /** The hashed text reads back as an object holding exactly the received fields, each under its
      own key, absent ones left out, and the timestamp. */
  lemma ContentReadsBack(d: ReportData, timestamp: string)
    ensures Json.Parse(ReportContent(d, timestamp)).Some?
    ensures var ms := Json.Parse(ReportContent(d, timestamp)).value;
      && Json.Lookup(ms, "incidentType") == d.incidentType
      && Json.Lookup(ms, "communityName") == d.communityName
      && Json.Lookup(ms, "encryptedDescription") == d.encryptedDescription
      && Json.Lookup(ms, "encryptedEvidence") == d.encryptedEvidence
      && Json.Lookup(ms, "incidentDate") == d.incidentDate
      && Json.Lookup(ms, "timestamp") == Some(Json.JStr(timestamp))
  {
    ContentFieldReadsBack(d, timestamp, 0);
    ContentFieldReadsBack(d, timestamp, 1);
    ContentFieldReadsBack(d, timestamp, 2);
    ContentFieldReadsBack(d, timestamp, 3);
    ContentFieldReadsBack(d, timestamp, 4);
    ContentFieldReadsBack(d, timestamp, 5);
  }

  /** Different reports, or the same report at different times, are never hashed from the same
      text: any change of a field, including absent versus present, changes the hash input. */
  lemma ContentInjective(d1: ReportData, t1: string, d2: ReportData, t2: string)
    requires ReportContent(d1, t1) == ReportContent(d2, t2)
    ensures d1 == d2 && t1 == t2
  {
    ContentReadsBack(d1, t1);
    ContentReadsBack(d2, t2);
  }

  /** The same holds of the bytes handed to SHA-256. */
  lemma HashInputInjective(d1: ReportData, t1: string, d2: ReportData, t2: string)
    requires Utf8.Encode(ReportContent(d1, t1)) == Utf8.Encode(ReportContent(d2, t2))
    ensures d1 == d2 && t1 == t2
  {
    Utf8.EncodeInjective(ReportContent(d1, t1), ReportContent(d2, t2));
    ContentInjective(d1, t1, d2, t2);
  }

  /** The hash text is the digest, byte for byte: reading its digit pairs gives the digest back. */
  lemma HashDecodesToDigest(d: ReportData, timestamp: string, sha256: Sha256)
    ensures Hex.Decode(ReportHash(d, timestamp, sha256)) == Some(sha256(Utf8.Encode(ReportContent(d, timestamp))))
  {
    Hex.DecodeEncode(sha256(Utf8.Encode(ReportContent(d, timestamp))));
  }

  /** The four keys of the success body, `success`, `reportHash`, `reportId` and `timestamp`,
      are pairwise different. */
  lemma SuccessKeysUnique(hash: string, record: InsertedRecord)
    ensures Json.UniqueKeys(SuccessResponse(hash, record).body.value)
  {
    var ms := SuccessResponse(hash, record).body.value;
    assert ms[0].0[0] != ms[1].0[0] && ms[0].0[0] != ms[2].0[0] && ms[0].0[0] != ms[3].0[0];
    assert ms[1].0[6] != ms[2].0[6] && ms[1].0[0] != ms[3].0[0] && ms[2].0[0] != ms[3].0[0];
  }

  /** The success body holds the flag, the hash, and the stored row's id and creation time. */
  lemma SuccessBodyFields(hash: string, record: InsertedRecord)
    ensures var ms := SuccessResponse(hash, record).body.value;
      && Json.Lookup(ms, "success") == Some(Json.JBool(true))
      && Json.Lookup(ms, "reportHash") == Some(Json.JStr(hash))
      && Json.Lookup(ms, "reportId") == Some(record.id)
      && Json.Lookup(ms, "timestamp") == Some(record.created_at)
  {
    var ms := SuccessResponse(hash, record).body.value;
    SuccessKeysUnique(hash, record);
    Json.LookupUnique(ms, 0);
    Json.LookupUnique(ms, 1);
    Json.LookupUnique(ms, 2);
    Json.LookupUnique(ms, 3);
  }

  /** What the client reads from a successful response is the stored hash, 64 lowercase digits,
      and the id and creation time of the stored row. */
  lemma SuccessTextCarriesHash(req: Request, now: string, sha256: Sha256, record: InsertedRecord)
    requires req.verb != "OPTIONS" && req.body.Success?
    ensures var o := Handle(req, now, sha256, Success(record));
      && ResponseText(o.response).Some?
      && Json.Parse(ResponseText(o.response).value) == o.response.body
      && Json.Lookup(o.response.body.value, "success") == Some(Json.JBool(true))
      && Json.Lookup(o.response.body.value, "reportHash") == Some(Json.JStr(o.inserted.value.report_hash))
      && |o.inserted.value.report_hash| == 64
      && Json.Lookup(o.response.body.value, "reportId") == Some(record.id)
      && Json.Lookup(o.response.body.value, "timestamp") == Some(record.created_at)
  {
    var hash := ReportHash(req.body.value, now, sha256);
    Json.ParseStringify(SuccessResponse(hash, record).body.value);
    SuccessBodyFields(hash, record);
  }

  /** A failed request's text holds an error message and no hash. */
  lemma ErrorTextHasNoHash(e: Thrown)
    ensures Json.Parse(ResponseText(ErrorResponse(e)).value) == ErrorResponse(e).body
    ensures Json.Lookup(ErrorResponse(e).body.value, "reportHash") == None
    ensures Json.Lookup(ErrorResponse(e).body.value, "error") == Some(Json.JStr(ErrorMessage(e)))
  {
    Json.ParseStringify(ErrorResponse(e).body.value);
    ErrorBodyLookups(ErrorMessage(e));
  }

  lemma ErrorBodyLookups(message: string)
    ensures Json.Lookup([("error", Json.JStr(message))], "reportHash") == None
    ensures Json.Lookup([("error", Json.JStr(message))], "error") == Some(Json.JStr(message))
  {
    assert "error"[0] != "reportHash"[0];
  }
}

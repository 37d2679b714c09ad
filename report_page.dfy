/** The report page: each sensitive field is encrypted on the client with AES-GCM under a key
    made for that one call, the IV and ciphertext are sent as a Base64 JSON envelope (the key
    is not), and the form state moves through submitting, success and failure. */
module ReportPage {
  import opened Wrappers
  import opened Hex
  import Json
  import Utf8
  import Base64
  import SubmitReport

  /** A 256-bit AES key, as `generateKey({name: 'AES-GCM', length: 256}, …)` makes it. */
  type Key = k: seq<byte> | |k| == 32 witness seq(32, _ => 0)

  /** The 12-byte IV `crypto.getRandomValues(new Uint8Array(12))` fills. */
  type Iv = v: seq<byte> | |v| == 12 witness seq(12, _ => 0)

  /** `crypto.subtle.encrypt({name: 'AES-GCM', iv}, key, bytes)` (NIST SP 800-38D); a Failure
      stands for a rejected promise, from key generation or from the cipher. */
  type AesGcm = (Key, Iv, seq<byte>) -> Result<seq<byte>, string>

  /** `encryptData`: the UTF-8 bytes of the text encrypted under the call's own key and IV, and
      the JSON text of `{iv, data}`, both Base64 through `btoa(String.fromCharCode(...))`. */
  function EncryptData(text: string, key: Key, iv: Iv, aesGcm: AesGcm): (r: Result<string, string>)
    ensures r.Success? <==> aesGcm(key, iv, Utf8.Encode(text)).Success?
    ensures r.Success? ==>
      r.value == Json.Stringify(EnvelopeMembers(Base64.Encode(iv), Base64.Encode(aesGcm(key, iv, Utf8.Encode(text)).value)))
  {
    match aesGcm(key, iv, Utf8.Encode(text))
    case Failure(e) => Failure(e)
    case Success(encrypted) =>
      Base64.BtoaFromCharCodes(iv);
      Base64.BtoaFromCharCodes(encrypted);
      match (Base64.Btoa(Base64.FromCharCodes(iv)), Base64.Btoa(Base64.FromCharCodes(encrypted)))
      case (Success(ivText), Success(dataText)) =>
        Success(Json.Stringify(EnvelopeMembers(ivText, dataText)))
      case (Failure(e), _) => Failure(e)
      case (_, Failure(e)) => Failure(e)
  }

  function EnvelopeMembers(ivText: string, dataText: string): seq<Json.Member> {
    [("iv", Json.JStr(ivText)), ("data", Json.JStr(dataText))]
  }

  /** Reads an envelope: an object with exactly the members `iv` and then `data`, both Base64. */
  function DecodeEnvelope(text: string): Option<(seq<byte>, seq<byte>)> {
    match Json.Parse(text)
    case None => None
    case Some(ms) =>
      if |ms| == 2 && ms[0].0 == "iv" && ms[1].0 == "data" && ms[0].1.JStr? && ms[1].1.JStr? then
        match (Base64.Decode(ms[0].1.str), Base64.Decode(ms[1].1.str))
        case (Some(ivBytes), Some(dataBytes)) => Some((ivBytes, dataBytes))
        case _ => None
      else None
  }

  lemma EnvelopeDecodes(iv: seq<byte>, encrypted: seq<byte>)
    ensures DecodeEnvelope(Json.Stringify(EnvelopeMembers(Base64.Encode(iv), Base64.Encode(encrypted))))
         == Some((iv, encrypted))
  {
    Json.ParseStringify(EnvelopeMembers(Base64.Encode(iv), Base64.Encode(encrypted)));
    Base64.DecodeEncode(iv);
    Base64.DecodeEncode(encrypted);
  }

  /** The envelope holds the IV and the ciphertext and nothing else: reading it back gives
      exactly the two byte strings. */
  lemma EnvelopeRoundTrip(text: string, key: Key, iv: Iv, aesGcm: AesGcm)
    requires EncryptData(text, key, iv, aesGcm).Success?
    ensures DecodeEnvelope(EncryptData(text, key, iv, aesGcm).value)
         == Some((iv, aesGcm(key, iv, Utf8.Encode(text)).value))
  {
    EnvelopeDecodes(iv, aesGcm(key, iv, Utf8.Encode(text)).value);
  }

  lemma EnvelopeLiteral(ivText: string, dataText: string)
    requires forall i :: 0 <= i < |ivText| ==> Json.IsPlain(ivText[i])
    requires forall i :: 0 <= i < |dataText| ==> Json.IsPlain(dataText[i])
    ensures Json.Stringify(EnvelopeMembers(ivText, dataText))
         == "{\"iv\":\"" + ivText + "\",\"data\":\"" + dataText + "\"}"
  {
    var ms := EnvelopeMembers(ivText, dataText);
    var q := ['"'];
    var a := Json.MemberText(ms[0]);
    var b := Json.MemberText(ms[1]);
    assert ms[1..] == [ms[1]];
    assert Json.MembersText(ms) == a + [','] + b;
    EnvelopeOpening(ivText);
    EnvelopeMiddle(dataText);
    Regroup(['{'], a, [','], b, ['}'], "{\"iv\":\"", ivText, q, "\",\"data\":\"", dataText);
    assert q + ['}'] == "\"}";
  }

  /** The opening brace followed by the first member, up to the closing quote of its value. */
  lemma EnvelopeOpening(ivText: string)
    requires forall i :: 0 <= i < |ivText| ==> Json.IsPlain(ivText[i])
    ensures ['{'] + Json.MemberText(("iv", Json.JStr(ivText))) == "{\"iv\":\"" + ivText + ['"']
  {
    var q := ['"'];
    Json.EscapePlain(ivText);
    Json.EscapePlain("iv");
    assert Json.Quote(ivText) == q + ivText + q;
    Prefix(['{'], Json.Quote("iv"), [':'], q, ivText);
    assert ['{'] + Json.Quote("iv") + [':'] + q == "{\"iv\":\"";
  }

  /** The separating comma followed by the second member, up to the closing quote of its value. */
  lemma EnvelopeMiddle(dataText: string)
    requires forall i :: 0 <= i < |dataText| ==> Json.IsPlain(dataText[i])
    ensures ['"'] + [','] + Json.MemberText(("data", Json.JStr(dataText)))
         == "\",\"data\":\"" + dataText + ['"']
  {
    var q := ['"'];
    Json.EscapePlain(dataText);
    Json.EscapePlain("data");
    assert Json.Quote(dataText) == q + dataText + q;
    Prefix(q + [','], Json.Quote("data"), [':'], q, dataText);
    assert q + [','] + Json.Quote("data") + [':'] + q == "\",\"data\":\"";
  }

  lemma Prefix<T>(open: seq<T>, key: seq<T>, colon: seq<T>, q: seq<T>, x: seq<T>)
    ensures open + (key + colon + (q + x + q)) == open + key + colon + q + x + q
  {
  }

  lemma Regroup<T>(open: seq<T>, a: seq<T>, comma: seq<T>, b: seq<T>, close: seq<T>,
                   l1: seq<T>, x: seq<T>, q: seq<T>, l2: seq<T>, y: seq<T>)
    requires open + a == l1 + x + q
    requires q + comma + b == l2 + y + q
    ensures open + (a + comma + b) + close == l1 + x + l2 + y + (q + close)
  {
    calc {
      open + (a + comma + b) + close;
      (open + a) + comma + b + close;
      l1 + x + q + comma + b + close;
      l1 + x + (q + comma + b) + close;
      l1 + x + (l2 + y + q) + close;
      l1 + x + l2 + y + (q + close);
    }
  }

  lemma Base64IsPlain(b: seq<byte>)
    ensures forall i :: 0 <= i < |Base64.Encode(b)| ==> Json.IsPlain(Base64.Encode(b)[i])
  {
    Base64.EncodeCharacters(b);
  }

  /** Base64 needs no JSON escaping, so the envelope is literally `{"iv":"…","data":"…"}`, and a
      12-byte IV is always 16 characters without padding. */
  lemma EnvelopeText(text: string, key: Key, iv: Iv, aesGcm: AesGcm)
    requires EncryptData(text, key, iv, aesGcm).Success?
    ensures var ivText, dataText := Base64.Encode(iv), Base64.Encode(aesGcm(key, iv, Utf8.Encode(text)).value);
      && EncryptData(text, key, iv, aesGcm).value
         == "{\"iv\":\"" + ivText + "\",\"data\":\"" + dataText + "\"}"
      && |ivText| == 16
      && forall i :: 0 <= i < |ivText| ==> ivText[i] != '='
  {
    var encrypted := aesGcm(key, iv, Utf8.Encode(text)).value;
    Base64IsPlain(iv);
    Base64IsPlain(encrypted);
    EnvelopeLiteral(Base64.Encode(iv), Base64.Encode(encrypted));
    Base64.EncodeWithoutPadding(iv);
  }

  /** The key reaches the envelope only through the ciphertext: two keys that gave the same
      ciphertext give the same envelope, so nothing of the key itself is written. */
  lemma KeyNotInEnvelope(text: string, k1: Key, k2: Key, iv: Iv, aesGcm: AesGcm)
    requires aesGcm(k1, iv, Utf8.Encode(text)) == aesGcm(k2, iv, Utf8.Encode(text))
    ensures EncryptData(text, k1, iv, aesGcm) == EncryptData(text, k2, iv, aesGcm)
  {
  }

  // ---------------------------------------------------------------- the outgoing request

  /** The body passed to `functions.invoke('submit-report', …)`. */
  datatype Payload = Payload(
    incidentType: string,
    communityName: Option<string>,
    encryptedDescription: string,
    encryptedEvidence: Option<string>,
    incidentDate: Option<string>)

  /** The crypto inputs of one submission: a key and an IV for the description, and another pair
      for the evidence, each freshly drawn by the platform. */
  datatype Randomness = Randomness(descriptionKey: Key, descriptionIv: Iv, evidenceKey: Key, evidenceIv: Iv)

  /** An encryption step with `encryptData`'s shape: text, key and IV to an envelope or an error. */
  type Encryptor = (string, Key, Iv) -> Result<string, string>

  /** The page's own encryption step: `encryptData` over the platform's AES-GCM. */
  function PageEncryptor(aesGcm: AesGcm): Encryptor {
    (text: string, key: Key, iv: Iv) => EncryptData(text, key, iv, aesGcm)
  }

  /** The try block up to the invoke: encrypt the description, encrypt the evidence only when it
      is non-empty, and turn an empty community or date into an absent field. Stated for any
      encryption step; the page uses `PageEncryptor`. */
  function BuildPayload(incidentType: string, community: string, description: string, date: string,
                        evidence: string, rnd: Randomness, encrypt: Encryptor): (r: Result<Payload, string>)
    ensures r.Success? <==>
      encrypt(description, rnd.descriptionKey, rnd.descriptionIv).Success? &&
      (evidence != "" ==> encrypt(evidence, rnd.evidenceKey, rnd.evidenceIv).Success?)
    ensures r.Success? ==>
      && r.value.incidentType == incidentType
      && r.value.encryptedDescription == encrypt(description, rnd.descriptionKey, rnd.descriptionIv).value
      && (r.value.encryptedEvidence.Some? <==> evidence != "")
      && (evidence != "" ==>
            r.value.encryptedEvidence.value == encrypt(evidence, rnd.evidenceKey, rnd.evidenceIv).value)
      && (r.value.communityName.None? <==> community == "")
      && (r.value.communityName.Some? ==> r.value.communityName.value == community)
      && (r.value.incidentDate.None? <==> date == "")
      && (r.value.incidentDate.Some? ==> r.value.incidentDate.value == date)
  {
    match encrypt(description, rnd.descriptionKey, rnd.descriptionIv)
    case Failure(e) => Failure(e)
    case Success(encryptedDescription) =>
      var encryptedEvidence :=
        if evidence != "" then encrypt(evidence, rnd.evidenceKey, rnd.evidenceIv).ToOption()
        else None;
      if evidence != "" && encryptedEvidence.None? then
        Failure(encrypt(evidence, rnd.evidenceKey, rnd.evidenceIv).error)
      else
        Success(Payload(incidentType, OrUndefined(community), encryptedDescription,
                        encryptedEvidence, OrUndefined(date)))
  }

  /** With the page's encryption step, the payload is built exactly when the cipher accepts the
      description (and the evidence, when there is some), and each encrypted field reads back as
      its own IV and ciphertext: the plaintext never travels and the identical text of two
      fields is sealed separately. */
  lemma PagePayloadEnvelopes(incidentType: string, community: string, description: string, date: string,
                             evidence: string, rnd: Randomness, aesGcm: AesGcm)
    ensures var r := BuildPayload(incidentType, community, description, date, evidence, rnd, PageEncryptor(aesGcm));
      && (r.Success? <==>
            aesGcm(rnd.descriptionKey, rnd.descriptionIv, Utf8.Encode(description)).Success? &&
            (evidence != "" ==> aesGcm(rnd.evidenceKey, rnd.evidenceIv, Utf8.Encode(evidence)).Success?))
      && (r.Success? ==>
            DecodeEnvelope(r.value.encryptedDescription)
            == Some((rnd.descriptionIv, aesGcm(rnd.descriptionKey, rnd.descriptionIv, Utf8.Encode(description)).value)))
      && (r.Success? && evidence != "" ==>
            DecodeEnvelope(r.value.encryptedEvidence.value)
            == Some((rnd.evidenceIv, aesGcm(rnd.evidenceKey, rnd.evidenceIv, Utf8.Encode(evidence)).value)))
  {
    var r := BuildPayload(incidentType, community, description, date, evidence, rnd, PageEncryptor(aesGcm));
    if r.Success? {
      EnvelopeRoundTrip(description, rnd.descriptionKey, rnd.descriptionIv, aesGcm);
      if evidence != "" {
        EnvelopeRoundTrip(evidence, rnd.evidenceKey, rnd.evidenceIv, aesGcm);
      }
    }
  }

  function Str(o: Option<string>): Option<Json.Value> {
    match o
    case None => None
    case Some(s) => Some(Json.JStr(s))
  }

  function PayloadFields(p: Payload): seq<(string, Option<Json.Value>)> {
    [("incidentType", Some(Json.JStr(p.incidentType))),
     ("communityName", Str(p.communityName)),
     ("encryptedDescription", Some(Json.JStr(p.encryptedDescription))),
     ("encryptedEvidence", Str(p.encryptedEvidence)),
     ("incidentDate", Str(p.incidentDate))]
  }

  /** The request body on the wire: `JSON.stringify` of the payload, absent fields left out. */
  function WireText(p: Payload): string {
    Json.Stringify(Json.Defined(PayloadFields(p)))
  }

  lemma PayloadKeysDistinct(p: Payload)
    ensures Json.DistinctKeys(PayloadFields(p))
  {
    var f := PayloadFields(p);
    assert f[0].0[8] != f[4].0[8];
  }

  lemma PayloadFieldArrives(p: Payload, i: nat)
    requires i < 5
    ensures Json.Parse(WireText(p)) == Some(Json.Defined(PayloadFields(p)))
    ensures Json.Lookup(Json.Defined(PayloadFields(p)), PayloadFields(p)[i].0) == PayloadFields(p)[i].1
  {
    var f := PayloadFields(p);
    Json.ParseStringify(Json.Defined(f));
    PayloadKeysDistinct(p);
    Json.LookupDefined(f, f[i].0);
    Json.FieldValueAt(f, i);
  }

  /** The ingest function reads from the wire exactly what the page sent: each present field
      unchanged and each absent one absent. */
  lemma ServerReceivesPayload(p: Payload)
    ensures Json.Parse(WireText(p)).Some?
    ensures SubmitReport.ReportDataOf(Json.Parse(WireText(p)).value)
         == SubmitReport.ReportData(Some(Json.JStr(p.incidentType)), Str(p.communityName),
                                    Some(Json.JStr(p.encryptedDescription)), Str(p.encryptedEvidence),
                                    Str(p.incidentDate))
  {
    PayloadFieldArrives(p, 0);
    PayloadFieldArrives(p, 1);
    PayloadFieldArrives(p, 2);
    PayloadFieldArrives(p, 3);
    PayloadFieldArrives(p, 4);
  }

  /** What `functions.invoke` resolves to: the response's parsed JSON, or an error (a non-2xx
      status or a failed request). */
  datatype InvokeResult = Invoked(data: seq<Json.Member>) | InvokeError(message: string)

  /** `data.reportHash` when it is a string. */
  function ReadReportHash(data: seq<Json.Member>): Option<string> {
    var v := Json.Lookup(data, "reportHash");
    if v.Some? && v.value.JStr? then Some(v.value.str) else None
  }

  /** The hash the page shows after a successful ingest is the one the function stored. */
  lemma ReceiptIsStoredHash(p: Payload, now: string, sha256: SubmitReport.Sha256, record: SubmitReport.InsertedRecord)
    ensures Json.Parse(WireText(p)).Some?
    ensures var o := SubmitReport.Handle(
              SubmitReport.Request("POST", Success(SubmitReport.ReportDataOf(Json.Parse(WireText(p)).value))),
              now, sha256, Success(record));
      && SubmitReport.ResponseText(o.response).Some?
      && Json.Parse(SubmitReport.ResponseText(o.response).value).Some?
      && ReadReportHash(Json.Parse(SubmitReport.ResponseText(o.response).value).value)
         == Some(o.inserted.value.report_hash)
  {
    ServerReceivesPayload(p);
    var req := SubmitReport.Request("POST", Success(SubmitReport.ReportDataOf(Json.Parse(WireText(p)).value)));
    SubmitReport.SuccessTextCarriesHash(req, now, sha256, record);
  }

  // ---------------------------------------------------------------- the page's state

  class ReportForm {
    var isSubmitting: bool
    var reportHash: Option<string>
    var incidentType: string
    var community: string
    var description: string
    var date: string
    var evidence: string

    /** The `useState` initial values. */
    constructor ()
      ensures !isSubmitting && reportHash == None
      ensures incidentType == "" && community == "" && description == "" && date == "" && evidence == ""
    {
      isSubmitting := false;
      reportHash := None;
      incidentType, community, description, date, evidence := "", "", "", "", "";
    }

    /** `if (reportHash)`: the receipt view replaces the form when the hash is a non-empty string. */
    predicate ShowsReceipt()
      reads this
    {
      reportHash.Some? && reportHash.value != ""
    }

    /** The first step of handleSubmit: the button shows that a submission is under way. */
    method BeginSubmit()
      modifies this`isSubmitting
      ensures isSubmitting
    {
      isSubmitting := true;
    }

    /** handleSubmit, with `encrypt` the encryption step (`PageEncryptor` on the page).
        Returns the payload handed to `invoke`, None when encryption failed before it. On
        success the hash is recorded and the five fields are cleared; on any failure the fields
        and the hash are as they were. `isSubmitting` ends false on every path. */
    method HandleSubmit(rnd: Randomness, encrypt: Encryptor, invoke: Payload -> InvokeResult)
      returns (sent: Option<Payload>)
      modifies this
      ensures !isSubmitting
      ensures sent == BuildPayload(old(incidentType), old(community), old(description), old(date),
                                   old(evidence), rnd, encrypt).ToOption()
      ensures sent.Some? && invoke(sent.value).Invoked? ==>
        && reportHash == ReadReportHash(invoke(sent.value).data)
        && incidentType == "" && community == "" && description == "" && date == "" && evidence == ""
      ensures !(sent.Some? && invoke(sent.value).Invoked?) ==>
        && reportHash == old(reportHash)
        && incidentType == old(incidentType) && community == old(community)
        && description == old(description) && date == old(date) && evidence == old(evidence)
    {
      BeginSubmit();
      var request := BuildPayload(incidentType, community, description, date, evidence, rnd, encrypt);
      sent := request.ToOption();
      if request.Success? {
        var result := invoke(request.value);
        if result.Invoked? {
          reportHash := ReadReportHash(result.data);
          incidentType, community, description, date, evidence := "", "", "", "", "";
        }
      }
      isSubmitting := false;
    }

    /** "Submit Another Report": back to the form, nothing else touched. */
    method SubmitAnother()
      modifies this`reportHash
      ensures reportHash == None && !ShowsReceipt()
    {
      reportHash := None;
    }
  }
}

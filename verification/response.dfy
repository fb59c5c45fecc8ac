/** A server response as the client reconstructs it: status, the header map
    built from the transport's header fields, the body, the JSON object parsed
    from it, the OperationOutcome of a failed request, and the classified
    error. Covers the base data response, the JSON response and `applyBody`. */
module ServerResponse {
  import opened Wrappers
  import opened Resources

  /** A header-field key or value as Foundation hands it over: a string or
      some other object. */
  datatype HeaderKey = StringKey(s: string) | OtherKey
  datatype HeaderValue = StringValue(s: string) | OtherValue
  datatype HeaderField = HeaderField(key: HeaderKey, value: HeaderValue)

  /** The transport's response: an HTTP response with its status code and
      header fields (in iteration order), or a URL response of another kind. */
  datatype UrlResponse = HttpResponse(statusCode: int, fields: seq<HeaderField>) | NonHttpResponse

  /** An error reported by the transport, partitioned the way the client
      tests it: one of the URL-loading domain (with its human-readable
      text), one of the client's own errors, or any other error. */
  datatype SystemError =
    | UrlDomainError(humanized: string)
    | FhirSystemError(fhir: FhirError)
    | OtherSystemError(localizedDescription: string, description: string)

  datatype JsonValue = JString(s: string) | JOther
  type JsonObject = map<string, JsonValue>

  /** What JSON deserialisation of a body yields: a JSON object, some other
      JSON value, or a thrown error with its domain, code and description. */
  datatype JsonParse =
    | ParsedObject(obj: JsonObject)
    | ParsedNonObject
    | ParseFailed(domain: string, code: int, description: string)

  datatype Issue = Issue(severity: Option<string>, diagnostics: Option<string>)
  datatype OperationOutcome = OperationOutcome(issue: seq<Issue>)

  /** The library functions the client calls and the model leaves opaque:
      JSON deserialisation, UTF-8 decoding, decoding an OperationOutcome from
      a JSON object, and the standard text for an HTTP status code. */
  datatype Codecs = Codecs(
    parseJson: seq<bv8> -> JsonParse,
    utf8: seq<bv8> -> Option<string>,
    decodeOutcome: JsonObject -> Option<OperationOutcome>,
    statusText: int -> string)

  /** The Cocoa error domain and its code for malformed JSON input. */
  const CocoaErrorDomain: string := "NSCocoaErrorDomain"
  const JsonSyntaxErrorCode: int := 3840

  datatype Response = Response(
    status: int,
    headers: map<string, string>,
    body: Option<seq<bv8>>,
    json: Option<JsonObject>,
    outcome: Option<OperationOutcome>,
    error: Option<FhirError>)

  // ---------------------------------------------------------------------
  // Header map

  /** The one key normalisation: Foundation reports `ETag` as `Etag`. */
  function NormaliseKey(k: string): string {
    if k == "Etag" then "ETag" else k
  }

  /** Field `f` has a string key and a string value and stores under `k`. */
  predicate Writes(f: HeaderField, k: string) {
    f.key.StringKey? && f.value.StringValue? && NormaliseKey(f.key.s) == k
  }

  /** Field `i` is the last one that stores under `k`. */
  predicate LastWriter(fields: seq<HeaderField>, i: int, k: string) {
    0 <= i < |fields| && Writes(fields[i], k) && forall j :: i < j < |fields| ==> !Writes(fields[j], k)
  }

  /** The header map built from the fields in iteration order: string
      entries are stored under their normalised key (a later one overwrites
      an earlier one), entries with a non-string key or value are dropped. */
  function HeaderMap(fields: seq<HeaderField>): (h: map<string, string>)
    ensures "Etag" !in h
    ensures forall k :: k in h <==> exists i :: 0 <= i < |fields| && Writes(fields[i], k)
    ensures forall k :: k in h ==> exists i :: LastWriter(fields, i, k) && h[k] == fields[i].value.s
    decreases |fields|
  {
    if |fields| == 0 then map[]
    else
      var n := |fields| - 1;
      var prev := HeaderMap(fields[..n]);
      var f := fields[n];
      var h := if f.key.StringKey? && f.value.StringValue? then prev[NormaliseKey(f.key.s) := f.value.s] else prev;
      HeaderMapStep(fields, prev, h);
      h
  }

  /** One iteration of the header loop keeps the map's description. */
  lemma HeaderMapStep(fields: seq<HeaderField>, prev: map<string, string>, h: map<string, string>)
    requires |fields| > 0
    requires var n := |fields| - 1;
             && "Etag" !in prev
             && (forall k :: k in prev <==> exists i :: 0 <= i < n && Writes(fields[..n][i], k))
             && (forall k :: k in prev ==> exists i :: LastWriter(fields[..n], i, k) && prev[k] == fields[..n][i].value.s)
    requires var f := fields[|fields| - 1];
             h == if f.key.StringKey? && f.value.StringValue? then prev[NormaliseKey(f.key.s) := f.value.s] else prev
    ensures "Etag" !in h
    ensures forall k :: k in h <==> exists i :: 0 <= i < |fields| && Writes(fields[i], k)
    ensures forall k :: k in h ==> exists i :: LastWriter(fields, i, k) && h[k] == fields[i].value.s
  {
    var n := |fields| - 1;
    var pre := fields[..n];
    forall k
      ensures k in h <==> exists i :: 0 <= i < |fields| && Writes(fields[i], k)
    {
      StepDomain(fields, prev, h, k);
    }
    forall k | k in h
      ensures exists i :: LastWriter(fields, i, k) && h[k] == fields[i].value.s
    {
      StepValue(fields, prev, h, k);
    }
  }

  lemma StepDomain(fields: seq<HeaderField>, prev: map<string, string>, h: map<string, string>, k: string)
    requires |fields| > 0
    requires var n := |fields| - 1;
             k in prev <==> exists i :: 0 <= i < n && Writes(fields[..n][i], k)
    requires var f := fields[|fields| - 1];
             h == if f.key.StringKey? && f.value.StringValue? then prev[NormaliseKey(f.key.s) := f.value.s] else prev
    ensures k in h <==> exists i :: 0 <= i < |fields| && Writes(fields[i], k)
  {
    var n := |fields| - 1;
    if Writes(fields[n], k) {
      assert k in h;
    } else {
      assert k in h <==> k in prev;
      if k in prev {
        var i :| 0 <= i < n && Writes(fields[..n][i], k);
        assert fields[..n][i] == fields[i];
      }
      if exists i :: 0 <= i < |fields| && Writes(fields[i], k) {
        var i :| 0 <= i < |fields| && Writes(fields[i], k);
        assert fields[..n][i] == fields[i];
      }
    }
  }

  lemma StepValue(fields: seq<HeaderField>, prev: map<string, string>, h: map<string, string>, k: string)
    requires |fields| > 0 && k in h
    requires var n := |fields| - 1;
             k in prev ==> exists i :: LastWriter(fields[..n], i, k) && prev[k] == fields[..n][i].value.s
    requires var f := fields[|fields| - 1];
             h == if f.key.StringKey? && f.value.StringValue? then prev[NormaliseKey(f.key.s) := f.value.s] else prev
    ensures exists i :: LastWriter(fields, i, k) && h[k] == fields[i].value.s
  {
    var n := |fields| - 1;
    if Writes(fields[n], k) {
      assert LastWriter(fields, n, k);
    } else {
      assert k in prev;
      var pre := fields[..n];
      var i :| LastWriter(pre, i, k) && prev[k] == pre[i].value.s;
      assert forall j :: 0 <= j < n ==> pre[j] == fields[j];
      assert LastWriter(fields, i, k);
    }
  }

  /** The string keys of the fields are pairwise distinct (they come from a
      dictionary). */
  predicate DistinctKeys(fields: seq<HeaderField>) {
    forall i, j :: 0 <= i < j < |fields| && fields[i].key.StringKey? ==> fields[i].key != fields[j].key
  }

  /** Every string-valued header other than `Etag`/`ETag` is copied under
      its own key with its value unchanged. */
  lemma HeaderCopied(fields: seq<HeaderField>, i: nat, k: string, v: string)
    requires DistinctKeys(fields)
    requires i < |fields| && fields[i] == HeaderField(StringKey(k), StringValue(v))
    requires k != "Etag" && k != "ETag"
    ensures k in HeaderMap(fields) && HeaderMap(fields)[k] == v
  {
    assert Writes(fields[i], k);
    var h := HeaderMap(fields);
    var i' :| 0 <= i' < |fields| && Writes(fields[i'], k) && h[k] == fields[i'].value.s;
  }

  /** A header whose value is not a string is dropped. */
  lemma NonStringHeaderDropped(fields: seq<HeaderField>, i: nat, k: string)
    requires DistinctKeys(fields)
    requires i < |fields| && fields[i] == HeaderField(StringKey(k), OtherValue)
    requires k != "Etag" && k != "ETag"
    ensures k !in HeaderMap(fields)
  {
  }

  /** A string-valued `Etag` header is stored as `ETag` when no string
      `ETag` header competes with it. */
  lemma EtagRenamed(fields: seq<HeaderField>, i: nat, v: string)
    requires DistinctKeys(fields)
    requires i < |fields| && fields[i] == HeaderField(StringKey("Etag"), StringValue(v))
    requires forall j :: 0 <= j < |fields| ==> fields[j].key != StringKey("ETag") || !fields[j].value.StringValue?
    ensures "ETag" in HeaderMap(fields) && HeaderMap(fields)["ETag"] == v
    ensures "Etag" !in HeaderMap(fields)
  {
    assert Writes(fields[i], "ETag");
    var h := HeaderMap(fields);
    var i' :| 0 <= i' < |fields| && Writes(fields[i'], "ETag") && h["ETag"] == fields[i'].value.s;
  }

  // ---------------------------------------------------------------------
  // Data response

  /** The client error recorded for a transport error at a given status. */
  function TransportError(status: int, e: SystemError): (r: FhirError)
    ensures e.UrlDomainError? ==> r == RequestError(status, e.humanized)
    ensures e.FhirSystemError? ==> r == e.fhir
    ensures e.OtherSystemError? ==> r == Error(e.localizedDescription)
  {
    match e
    case UrlDomainError(h) => RequestError(status, h)
    case FhirSystemError(f) => f
    case OtherSystemError(d, _) => Error(d)
  }

  /** The base response built from a transport response, body and error:
      status and headers come from an HTTP response (status 0 and no headers
      otherwise), the body is kept, and a transport error is classified. */
  function DataResponse(response: UrlResponse, data: Option<seq<bv8>>, error: Option<SystemError>)
    : (r: Response)
    ensures response.NonHttpResponse? ==> r.status == 0 && r.headers == map[]
    ensures response.HttpResponse? ==> r.status == response.statusCode && r.headers == HeaderMap(response.fields)
    ensures r.body == data && r.json.None? && r.outcome.None?
    ensures r.error.Some? <==> error.Some?
    ensures error.Some? && error.value.UrlDomainError? ==> r.error == Some(RequestError(r.status, error.value.humanized))
    ensures error.Some? && error.value.FhirSystemError? ==> r.error == Some(error.value.fhir)
    ensures error.Some? && error.value.OtherSystemError? ==> r.error == Some(Error(error.value.localizedDescription))
  {
    var status := if response.HttpResponse? then response.statusCode else 0;
    var headers := if response.HttpResponse? then HeaderMap(response.fields) else map[];
    Response(status, headers, data, None, None,
             if error.Some? then Some(TransportError(status, error.value)) else None)
  }

  /** The response that stands for a request that produced no response at
      all: status 0, no headers, no body, and the error classified. */
  function FromError(e: SystemError): (r: Response)
    ensures r.status == 0 && r.headers == map[] && r.body.None? && r.json.None?
    ensures r.error.Some?
    ensures e.UrlDomainError? ==> r.error == Some(RequestError(0, e.humanized))
    ensures e.FhirSystemError? ==> r.error == Some(e.fhir)
    ensures e.OtherSystemError? ==> r.error == Some(Error(e.description))
  {
    Response(0, map[], None, None, None,
             Some(match e
                  case UrlDomainError(h) => RequestError(0, h)
                  case FhirSystemError(f) => f
                  case OtherSystemError(_, d) => Error(d)))
  }

  /** The base `applyBody`: fails exactly when there is no body. */
  function ApplyBody(r: Response): (o: Outcome<FhirError>)
    ensures o.Fail? <==> r.body.None?
    ensures o.Fail? ==> o.error == ResponseNoResourceReceived
  {
    if r.body.None? then Fail(ResponseNoResourceReceived) else Pass
  }

  // ---------------------------------------------------------------------
  // JSON response

  /** The body is present and non-empty, so it is handed to the JSON parser. */
  predicate HasBody(data: Option<seq<bv8>>) {
    data.Some? && |data.value| > 0
  }

  /** The message of an OperationOutcome issue: `[severity] diagnostics`
      with `unknown` for either part that is missing. */
  function IssueMessage(i: Issue): string {
    "[" + i.severity.GetOr("unknown") + "] " + i.diagnostics.GetOr("unknown")
  }

  /** Parsing a non-empty body: keeps a JSON object, and records a parse
      failure as a JSON parsing error carrying the raw body text, except for
      malformed input on a failed (status >= 400) response. */
  function ParseBody(c: Codecs, status: int, data: Option<seq<bv8>>, prior: Option<FhirError>)
    : (r: (Option<JsonObject>, Option<FhirError>))
  {
    if !HasBody(data) then (None, prior)
    else match c.parseJson(data.value)
      case ParsedObject(o) => (Some(o), prior)
      case ParsedNonObject => (None, prior)
      case ParseFailed(domain, code, description) =>
        if code != JsonSyntaxErrorCode || domain != CocoaErrorDomain || status < 400 then
          (None, Some(JsonParsingError(description, c.utf8(data.value).GetOr(""))))
        else (None, prior)
  }

  /** The message of a failed request, in order of preference: the first
      OperationOutcome issue, the string `error` field of the JSON body, the
      standard text for the status code. */
  function FailureMessage(c: Codecs, response: UrlResponse, json: Option<JsonObject>,
                          outcome: Option<OperationOutcome>): string
  {
    if outcome.Some? && |outcome.value.issue| > 0 then IssueMessage(outcome.value.issue[0])
    else if json.Some? && "error" in json.value && json.value["error"].JString? then json.value["error"].s
    else if response.HttpResponse? then c.statusText(response.statusCode)
    else "Error"
  }

  /** The JSON response: the base response, the body parsed as JSON, and on
      status >= 400 the OperationOutcome and a request error that replaces
      any error recorded before. */
  function JsonResponse(c: Codecs, response: UrlResponse, data: Option<seq<bv8>>, error: Option<SystemError>)
    : (r: Response)
    ensures var base := DataResponse(response, data, error);
            r.status == base.status && r.headers == base.headers && r.body == data
    // the body is parsed only when present and non-empty, and only an object is kept
    ensures !HasBody(data) ==> r.json.None?
    ensures HasBody(data) ==> (r.json.Some? <==> c.parseJson(data.value).ParsedObject?)
    ensures r.json.Some? ==> r.json.value == c.parseJson(data.value).obj
    // a failed request always ends with a request error for its status
    ensures r.status >= 400 ==> r.error.Some? && r.error.value.RequestError? && r.error.value.status == r.status
    ensures r.status >= 400 ==> r.outcome == (if r.json.Some? then c.decodeOutcome(r.json.value) else None)
    ensures r.status >= 400 && r.outcome.Some? && |r.outcome.value.issue| > 0 ==>
              r.error.value.message == IssueMessage(r.outcome.value.issue[0])
    ensures r.status >= 400 && !(r.outcome.Some? && |r.outcome.value.issue| > 0)
            && r.json.Some? && "error" in r.json.value && r.json.value["error"].JString? ==>
              r.error.value.message == r.json.value["error"].s
    ensures r.status >= 400 && !(r.outcome.Some? && |r.outcome.value.issue| > 0)
            && !(r.json.Some? && "error" in r.json.value && r.json.value["error"].JString?) ==>
              r.error.value.message == c.statusText(r.status)
    // below 400: no outcome; a parse failure is recorded, otherwise the transport's error stands
    ensures r.status < 400 ==> r.outcome.None?
    ensures r.status < 400 && HasBody(data) && c.parseJson(data.value).ParseFailed? ==>
              r.error == Some(JsonParsingError(c.parseJson(data.value).description, c.utf8(data.value).GetOr("")))
    ensures r.status < 400 && !(HasBody(data) && c.parseJson(data.value).ParseFailed?) ==>
              r.error == DataResponse(response, data, error).error
  {
    var base := DataResponse(response, data, error);
    var (json, err) := ParseBody(c, base.status, data, base.error);
    if base.status >= 400 then
      var outcome := if json.Some? then c.decodeOutcome(json.value) else None;
      base.(json := json, outcome := outcome,
            error := Some(RequestError(base.status, FailureMessage(c, response, json, outcome))))
    else
      base.(json := json, error := err)
  }

  /** The error-only initialiser builds what the data initialiser builds
      for a non-HTTP response without a body, except for an error of another
      kind: there one records the error's description and the other its
      localized description. */
  lemma InitsAgree(e: SystemError)
    ensures !e.OtherSystemError? ==> FromError(e) == DataResponse(NonHttpResponse, None, Some(e))
    ensures e.OtherSystemError? ==>
              && FromError(e).error == Some(Error(e.description))
              && DataResponse(NonHttpResponse, None, Some(e)).error == Some(Error(e.localizedDescription))
              && FromError(e) == DataResponse(NonHttpResponse, None, Some(e)).(error := Some(Error(e.description)))
  {
  }

  /** `applyBody` looks only at whether a body is present: a response built
      from an error alone always fails it, the JSON response passes or fails
      it exactly as its base response does, and an empty body passes it
      although it is never parsed. */
  lemma ApplyBodyAcrossResponses(c: Codecs, e: SystemError, response: UrlResponse,
                                 data: Option<seq<bv8>>, error: Option<SystemError>)
    ensures ApplyBody(FromError(e)) == Fail(ResponseNoResourceReceived)
    ensures ApplyBody(JsonResponse(c, response, data, error)) == ApplyBody(DataResponse(response, data, error))
    ensures ApplyBody(DataResponse(response, data, error)).Fail? <==> data.None?
    ensures ApplyBody(JsonResponse(c, response, Some([]), error)) == Pass
    ensures JsonResponse(c, response, Some([]), error).json.None?
  {
  }

  /** On a failed request the kind of JSON parse failure makes no
      difference: in particular, exempting malformed-input errors from being
      recorded has no effect on the final response, since the request error
      replaces whatever was recorded. */
  lemma ParseFailureKindIrrelevantOnFailure(c: Codecs, p1: seq<bv8> -> JsonParse, p2: seq<bv8> -> JsonParse,
                                            response: UrlResponse, data: Option<seq<bv8>>, error: Option<SystemError>)
    requires response.HttpResponse? && response.statusCode >= 400
    requires HasBody(data) && p1(data.value).ParseFailed? && p2(data.value).ParseFailed?
    ensures JsonResponse(c.(parseJson := p1), response, data, error)
         == JsonResponse(c.(parseJson := p2), response, data, error)
  {
  }

  /** A 404 whose JSON body carries `"error": "not found"` and no
      OperationOutcome classifies as a request error with that message. */
  lemma NotFoundExample(c: Codecs, fields: seq<HeaderField>, body: seq<bv8>)
    requires |body| > 0
    requires c.parseJson(body) == ParsedObject(map["error" := JString("not found")])
    requires c.decodeOutcome(map["error" := JString("not found")]).None?
    ensures JsonResponse(c, HttpResponse(404, fields), Some(body), None).error
            == Some(RequestError(404, "not found"))
  {
  }

  /** A success response with a JSON object body and no transport error has
      no error and keeps the object. */
  lemma SuccessfulJsonResponse(c: Codecs, status: int, fields: seq<HeaderField>, body: seq<bv8>)
    requires status < 400 && |body| > 0 && c.parseJson(body).ParsedObject?
    ensures var r := JsonResponse(c, HttpResponse(status, fields), Some(body), None);
            r.error.None? && r.json == Some(c.parseJson(body).obj) && ApplyBody(r) == Pass
  {
  }
}

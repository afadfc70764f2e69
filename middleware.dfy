/**
 * The per-request rule of the guardrail (JsonResponseMaskingMiddleware.cs):
 * the downstream response is buffered; an analyst's JSON response is masked
 * and counted, anything else passes through; exactly one audit row is
 * written for every request that completes, and the response's body stream
 * is always put back.
 *
 * The HTTP context is reduced to what the rule reads: the request's path,
 * method and claims, and what the downstream handler produced. Streams are
 * objects holding the text written to them.
 */
module ResponseMasking {
  import opened Text
  import opened IgnoreCaseSet
  import opened JsonMasking
  import opened AuditRecord
  import PiiMasker

  const JsonMediaType: string := "application/json"
  const AnalystRole: string := "Analyst"
  const AllowDecision: string := "Allow"
  const MaskDecision: string := "Mask"

  /** A non-blank content type that starts with "application/json", in any case. */
  predicate IsJsonContentType(contentType: Option<string>)
  {
    !IsNullOrBlank(contentType) && StartsWithIgnoreCase(contentType.value, JsonMediaType)
  }

  /** Only JSON bodies sent to an analyst are masked. */
  predicate ShouldMask(contentType: Option<string>, role: string)
  {
    IsJsonContentType(contentType) && EqualsIgnoreCase(role, AnalystRole)
  }

  /** The claims of the request's user, and its path and method. */
  datatype RequestInfo = RequestInfo(
    path: Option<string>,
    httpMethod: string,
    roleClaim: Option<string>,
    subClaim: Option<string>,
    nameIdentifierClaim: Option<string>)

  /** The role claim, or "" when the user has none. */
  function RoleOf(req: RequestInfo): string
  {
    req.roleClaim.GetOr("")
  }

  /** The "sub" claim, else the name identifier claim, else "". */
  function SubjectOf(req: RequestInfo): (r: string)
    ensures req.subClaim.Some? ==> r == req.subClaim.value
    ensures req.subClaim.None? && req.nameIdentifierClaim.Some? ==> r == req.nameIdentifierClaim.value
    ensures req.subClaim.None? && req.nameIdentifierClaim.None? ==> r == ""
  {
    match req.subClaim
    case Some(s) => s
    case None => req.nameIdentifierClaim.GetOr("")
  }

  /** What the rest of the pipeline did: threw, or produced a response. */
  datatype Downstream =
    | Threw
    | Responded(contentType: Option<string>, statusCode: int, body: string)

  /** The result of one request, as a value: it fails, or it serves a body and is audited. */
  datatype Handled =
    | Failed
    | Served(body: string, clearsLength: bool, decision: string, maskedCount: nat,
             piiTypesFound: seq<string>, maskedFields: seq<string>, statusCode: int)

  /**
   * The rule itself. A downstream exception, or an unparsable body on the
   * masking path, propagates. The bypass path serves the buffered body and
   * audits Allow with nothing counted; the masking path serves the masked
   * document, clears Content-Length and audits Mask exactly when something
   * was counted.
   */
  function Handle(req: RequestInfo, down: Downstream, codec: JsonCodec, nt: PiiMasker.NumberText): Handled
  {
    match down
    case Threw => Failed
    case Responded(contentType, status, body) =>
      if !ShouldMask(contentType, RoleOf(req)) then
        Served(body, false, AllowDecision, 0, [], [], status)
      else
        match MaskDocument(body, codec, nt)
        case Faulted => Failed
        case Masked(masked, report) =>
          var decision := if report.maskedCount > 0 then MaskDecision else AllowDecision;
          Served(masked, true, decision, report.maskedCount, report.piiTypesFound, report.maskedFields, status)
  }

  /** The row audited for a served request. */
  function AuditRowOf(req: RequestInfo, h: Handled, id: Guid, now: Instant, arrays: StringArrayCodec): AuditRow
    requires h.Served?
  {
    AuditRow(id, now, SubjectOf(req), RoleOf(req), req.httpMethod, req.path.GetOr(""), h.decision,
      h.maskedCount, StoredList(h.piiTypesFound, arrays), StoredList(h.maskedFields, arrays), h.statusCode)
  }

  /** A writable stream: everything written to it so far. */
  class Stream {
    var written: string

    constructor()
      ensures written == ""
    {
      written := "";
    }

    method Write(text: string)
      modifies this
      ensures written == old(written) + text
    {
      written := written + text;
    }
  }

  /** The response the middleware works on: its current body stream and Content-Length header. */
  class Response {
    var body: Stream
    var contentLength: Option<int>

    constructor(body: Stream, contentLength: Option<int>)
      ensures this.body == body && this.contentLength == contentLength
    {
      this.body := body;
      this.contentLength := contentLength;
    }
  }

  /** The audit writer: the rows written so far. */
  class AuditSink {
    var rows: seq<AuditRow>

    constructor()
      ensures rows == []
    {
      rows := [];
    }

    method Write(e: AuditEvent)
      modifies this
      ensures rows == old(rows) + [e.Row()]
    {
      rows := rows + [e.Row()];
    }
  }

  /** Builds the audit event the way both paths do, then fills its lists through the setters. */
  method NewAuditEvent(req: RequestInfo, id: Guid, now: Instant, decision: string, maskedCount: nat,
                       piiTypesFound: seq<string>, maskedFields: seq<string>, statusCode: int,
                       arrays: StringArrayCodec)
    returns (e: AuditEvent)
    ensures fresh(e)
    ensures e.Row() == AuditRow(id, now, SubjectOf(req), RoleOf(req), req.httpMethod, req.path.GetOr(""), decision,
      maskedCount, StoredList(piiTypesFound, arrays), StoredList(maskedFields, arrays), statusCode)
  {
    e := new AuditEvent();
    e.id := id;
    e.timestampUtc := now;
    e.subjectUserId := SubjectOf(req);
    e.role := RoleOf(req);
    e.httpMethod := req.httpMethod;
    e.endpoint := req.path.GetOr("");
    e.decision := decision;
    e.maskedCount := maskedCount;
    e.statusCode := statusCode;
    assert e.Row() == AuditRow(id, now, SubjectOf(req), RoleOf(req), req.httpMethod, req.path.GetOr(""), decision,
      maskedCount, EmptyArrayJson, EmptyArrayJson, statusCode);
    e.SetPiiTypesFound(piiTypesFound, arrays);
    e.SetMaskedFields(maskedFields, arrays);
  }

  /**
   * InvokeAsync. The response body is swapped for a buffer while the rest of
   * the pipeline runs and is always put back; what reaches the original
   * stream, the Content-Length header and the audit rows follow Handle.
   */
  method Invoke(response: Response, req: RequestInfo, down: Downstream, sink: AuditSink,
                codec: JsonCodec, arrays: StringArrayCodec, nt: PiiMasker.NumberText, id: Guid, now: Instant)
    returns (completed: bool)
    modifies response, response.body, sink
    ensures response.body == old(response.body)
    ensures completed <==> Handle(req, down, codec, nt).Served?
    ensures !completed ==>
      && response.body.written == old(response.body.written)
      && sink.rows == old(sink.rows)
      && response.contentLength == old(response.contentLength)
    ensures completed ==>
      var h := Handle(req, down, codec, nt);
      && response.body.written == old(response.body.written) + h.body
      && sink.rows == old(sink.rows) + [AuditRowOf(req, h, id, now, arrays)]
      && response.contentLength == (if h.clearsLength then None else old(response.contentLength))
  {
    var originalBody := response.body;
    var buffer := new Stream();
    response.body := buffer;

    var role := RoleOf(req);
    var decision := AllowDecision;
    var maskedCount: nat := 0;
    var piiTypesFound: seq<string> := [];
    var maskedFields: seq<string> := [];
    var statusCode := 0;

    if down.Threw? {
      response.body := originalBody;
      return false;
    }
    buffer.Write(down.body);
    assert buffer.written == down.body;
    statusCode := down.statusCode;

    if !ShouldMask(down.contentType, role) {
      assert Handle(req, down, codec, nt) == Served(down.body, false, AllowDecision, 0, [], [], statusCode);
      originalBody.Write(buffer.written);
      var e := NewAuditEvent(req, id, now, decision, maskedCount, piiTypesFound, maskedFields, statusCode, arrays);
      sink.Write(e);
      response.body := originalBody;
      return true;
    }

    var outcome := MaskJson(buffer.written, codec, nt);
    assert outcome == MaskDocument(down.body, codec, nt);
    if outcome.Faulted? {
      response.body := originalBody;
      return false;
    }
    maskedCount := outcome.report.maskedCount;
    piiTypesFound := outcome.report.piiTypesFound;
    maskedFields := outcome.report.maskedFields;
    decision := if maskedCount > 0 then MaskDecision else AllowDecision;
    assert Handle(req, down, codec, nt)
      == Served(outcome.maskedJson, true, decision, maskedCount, piiTypesFound, maskedFields, statusCode);

    response.contentLength := None;
    response.body := originalBody;
    originalBody.Write(outcome.maskedJson);
    var e := NewAuditEvent(req, id, now, decision, maskedCount, piiTypesFound, maskedFields, statusCode, arrays);
    sink.Write(e);
    response.body := originalBody;
    return true;
  }

  // ---------------------------------------------------------------------
  // Properties of the rule

  /** Content types are recognised by prefix, in any case. */
  lemma ContentTypeExamples()
    ensures IsJsonContentType(Some("application/json; charset=utf-8"))
    ensures IsJsonContentType(Some("Application/JSON"))
    ensures !IsJsonContentType(Some("text/plain"))
    ensures !IsJsonContentType(None) && !IsJsonContentType(Some("  "))
  {
    var a := "application/json; charset=utf-8";
    assert a[..16] == JsonMediaType;
    assert !IsBlank(a) by { assert !IsWhiteSpace(a[0]); }
    var b := "Application/JSON";
    assert Lower(b) == Lower(JsonMediaType) by {
      assert Lower(b)[0] == LowerChar('A') == 'a';
      assert Lower(b)[12] == LowerChar('J') == 'j';
      assert Lower(b)[13] == LowerChar('S') == 's';
      assert Lower(b)[14] == LowerChar('O') == 'o';
      assert Lower(b)[15] == LowerChar('N') == 'n';
    }
    assert b[..16] == b;
    assert !IsBlank(b) by { assert !IsWhiteSpace(b[0]); }
    var c := "text/plain";
    assert |c| < |JsonMediaType|;
    assert IsBlank("  ");
  }

  /** A user without a role claim is never masked, whatever the content type. */
  lemma MissingRoleNeverMasks(contentType: Option<string>, req: RequestInfo)
    requires req.roleClaim.None?
    ensures !ShouldMask(contentType, RoleOf(req))
  {
    assert |Lower(RoleOf(req))| != |Lower(AnalystRole)|;
  }

  /** Non-JSON responses and non-analyst users take the bypass: the body goes out as it came, and nothing is counted. */
  lemma BypassPassesThrough(req: RequestInfo, down: Downstream, codec: JsonCodec, nt: PiiMasker.NumberText)
    requires down.Responded? && !ShouldMask(down.contentType, RoleOf(req))
    ensures var h := Handle(req, down, codec, nt);
      && h == Served(down.body, false, AllowDecision, 0, [], [], down.statusCode)
  {
  }

  /**
   * On every served request the decision is Mask exactly when something
   * was counted, and Allow otherwise; the count is the number of paths,
   * the tags are known and pairwise different, tags appear exactly when
   * something was counted, and when nothing was counted the body goes out
   * unchanged apart from re-serialisation.
   */
  lemma ServedDecision(req: RequestInfo, down: Downstream, codec: JsonCodec, nt: PiiMasker.NumberText)
    ensures var h := Handle(req, down, codec, nt);
      h.Served? ==>
        && (h.decision == MaskDecision <==> h.maskedCount > 0)
        && (h.decision == AllowDecision <==> h.maskedCount == 0)
        && h.maskedCount == |h.maskedFields|
        && (h.maskedCount == 0 <==> |h.piiTypesFound| == 0)
        && DistinctIgnoreCase(h.piiTypesFound)
        && (forall t | t in h.piiTypesFound :: t in Tags)
        && (forall k | 0 <= k < |h.maskedFields| :: IsPrefix("$", h.maskedFields[k]))
  {
    assert MaskDecision != AllowDecision;
    match down
    case Threw =>
    case Responded(contentType, status, body) =>
      MaskDocumentOutcome(body, codec, nt);
  }

  /** A request fails exactly when the pipeline threw or an analyst's JSON body does not parse. */
  lemma FailsOnlyOnExceptions(req: RequestInfo, down: Downstream, codec: JsonCodec, nt: PiiMasker.NumberText)
    ensures Handle(req, down, codec, nt).Failed? <==>
      down.Threw? || (ShouldMask(down.contentType, RoleOf(req)) && codec.parse(down.body).Malformed?)
  {
  }
}

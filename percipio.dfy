/**
  The Percipio API client: the decisions it takes on response headers, the
  polling of the asynchronously generated learning activity report, and the
  report lifecycle it keeps in its `ReportStatus` field.

  The HTTP exchanges themselves are inputs: a header map for a page
  response, the decoded body of the report submission, and one abstract
  outcome per poll request.
 */
module Percipio {
  import opened Wrappers
  import opened GoInt
  import Decimal
  import Json
  import Url
  import LinkHeader
  import ReportCache
  import Utf8

  const HeaderNamePagingRequestId: string := "x-paging-request-id"
  const HeaderNameTotalCount: string := "x-total-count"
  const HeaderNameLink: string := "link"

  // ---------------------------------------------------------------------
  // Response headers

  /** Response headers, each name mapped to its values in order. */
  type Headers = map<string, seq<string>>

  /** http.Header.Get: the first value for the name, or "" when there is none. */
  function HeaderGet(headers: Headers, name: string): (v: string)
    ensures name !in headers || headers[name] == [] ==> v == ""
    ensures v != "" ==> name in headers && v in headers[name]
  {
    if name in headers && |headers[name]| > 0 then headers[name][0] else ""
  }

  /** getTotalCount: the `x-total-count` header read by strconv.Atoi. */
  function GetTotalCount(headers: Headers): (r: Result<Int64, Decimal.NumError>)
    ensures HeaderGet(headers, HeaderNameTotalCount) == "" ==> r == Err(Decimal.SyntaxError)
    ensures r.Ok? <==> (Decimal.WellFormed(HeaderGet(headers, HeaderNameTotalCount))
                        && MinInt64 <= Decimal.SignedValue(HeaderGet(headers, HeaderNameTotalCount)) <= MaxInt64)
    ensures r.Ok? ==> r.value == Decimal.SignedValue(HeaderGet(headers, HeaderNameTotalCount))
  {
    Decimal.Atoi(HeaderGet(headers, HeaderNameTotalCount))
  }

  /** A total the server writes in decimal is read back exactly. */
  lemma TotalCountRoundTrip(n: Int64, more: seq<string>)
    ensures GetTotalCount(map[HeaderNameTotalCount := [Decimal.Itoa(n)] + more]) == Ok(n)
  {
    Decimal.AtoiItoa(n);
  }

  /** A response without the header has no total. */
  lemma TotalCountMissing(headers: Headers)
    requires HeaderNameTotalCount !in headers
    ensures GetTotalCount(headers).Err?
  {
  }

  // ---------------------------------------------------------------------
  // GetCourses

  /** A query parameter value: Go puts ints and strings in the query map. */
  datatype QueryValue = IntParam(n: Int64) | StrParam(s: string)

  type Query = map<string, QueryValue>

  /** The catalog-content query: always `max` and `offset`, the paging request id only once there is one. */
  function CoursesQuery(offset: Int64, limit: Int64, pagingRequestId: string): (q: Query)
    ensures q.Keys == {"max", "offset"} + (if pagingRequestId != "" then {"pagingRequestId"} else {})
    ensures q["max"] == IntParam(limit) && q["offset"] == IntParam(offset)
    ensures pagingRequestId != "" ==> q["pagingRequestId"] == StrParam(pagingRequestId)
  {
    var query := map["max" := IntParam(limit), "offset" := IntParam(offset)];
    if pagingRequestId != "" then query["pagingRequestId" := StrParam(pagingRequestId)] else query
  }

  datatype HttpError = HttpError(message: string)

  datatype CoursesError = RequestFailed(httpError: HttpError) | LinkHeaderFailed(linkError: LinkHeader.LinkError)

  /** What GetCourses returns besides the decoded courses. */
  datatype CoursesPage = CoursesPage(pagingRequestId: string, finalOffset: Int64)

  /**
    GetCourses: `respond` is the server, answering a query with the
    response headers or a transport error. The final offset is read from the
    link header only on the first call of a listing (no paging request id
    yet) and only when that header is present.
   */
  function GetCourses(offset: Int64, limit: Int64, pagingRequestId: string,
                      respond: Query -> Result<Headers, HttpError>): (r: Result<CoursesPage, CoursesError>)
    ensures respond(CoursesQuery(offset, limit, pagingRequestId)).Err? ==>
              r == Err(RequestFailed(respond(CoursesQuery(offset, limit, pagingRequestId)).error))
    ensures r.Ok? ==> r.value.pagingRequestId == HeaderGet(respond(CoursesQuery(offset, limit, pagingRequestId)).value, HeaderNamePagingRequestId)
    ensures (r.Ok? && (pagingRequestId != "" || HeaderGet(respond(CoursesQuery(offset, limit, pagingRequestId)).value, HeaderNameLink) == ""))
            ==> r.value.finalOffset == 0
    ensures r.Err? && respond(CoursesQuery(offset, limit, pagingRequestId)).Ok? ==>
              pagingRequestId == "" && r.error.LinkHeaderFailed?
  {
    match respond(CoursesQuery(offset, limit, pagingRequestId))
    case Err(e) => Err(RequestFailed(e))
    case Ok(headers) =>
      var newPagingRequestId := HeaderGet(headers, HeaderNamePagingRequestId);
      if pagingRequestId == "" then
        var linkHeader := HeaderGet(headers, HeaderNameLink);
        if linkHeader != "" then
          match LinkHeader.ParseLinkHeader(linkHeader)
          case Err(e) => Err(LinkHeaderFailed(e))
          case Ok(finalOffset) => Ok(CoursesPage(newPagingRequestId, finalOffset))
        else Ok(CoursesPage(newPagingRequestId, 0))
      else Ok(CoursesPage(newPagingRequestId, 0))
  }

  /** On the first page the final offset is the link header's value, and a bad header fails the call. */
  lemma FirstPageFinalOffset(offset: Int64, limit: Int64, respond: Query -> Result<Headers, HttpError>)
    requires respond(CoursesQuery(offset, limit, "")).Ok?
    requires HeaderGet(respond(CoursesQuery(offset, limit, "")).value, HeaderNameLink) != ""
    ensures var link := HeaderGet(respond(CoursesQuery(offset, limit, "")).value, HeaderNameLink);
            && (GetCourses(offset, limit, "", respond).Ok? <==> LinkHeader.ParseLinkHeader(link).Ok?)
            && (GetCourses(offset, limit, "", respond).Ok? ==>
                  GetCourses(offset, limit, "", respond).value.finalOffset == LinkHeader.ParseLinkHeader(link).value)
  {
  }

  /**
    Put together with the link header parser: a first page whose header
    points its `rel="last"` link at `/path?offset=v&...` ends the listing at v.
   */
  lemma FirstPageLastLink(offset: Int64, limit: Int64, respond: Query -> Result<Headers, HttpError>,
                          path: string, value: string, more: string, params: string, tail: string)
    requires |path| >= 1 && path[0] == '/' && (|path| == 1 || path[1] != '/')
    requires '%' !in path && '?' !in path && '#' !in path && !Url.HasControl(path) && '>' !in path
    requires Url.Plain(value) && '&' !in value && ';' !in value && '>' !in value && '#' !in value && !Url.HasControl(value)
    requires !Url.HasControl(more) && '#' !in more && '>' !in more && ',' !in params
    requires respond(CoursesQuery(offset, limit, "")).Ok?
    requires HeaderGet(respond(CoursesQuery(offset, limit, "")).value, HeaderNameLink)
             == "<" + path + "?offset=" + value + "&" + more + ">;" + params + LinkHeader.RelLast + tail
    ensures Decimal.Atoi(value).Ok? ==> GetCourses(offset, limit, "", respond).Ok?
                                        && GetCourses(offset, limit, "", respond).value.finalOffset == Decimal.Atoi(value).value
    ensures Decimal.Atoi(value).Err? ==> GetCourses(offset, limit, "", respond).Err?
  {
    LinkHeader.LastLinkOffset(path, value, more, params, tail);
  }

  // ---------------------------------------------------------------------
  // Poll responses

  type Byte = Utf8.Byte

  /** The ASCII white space bytes.TrimSpace removes. */
  predicate IsSpace(b: Byte) {
    b == 9 || b == 10 || b == 11 || b == 12 || b == 13 || b == 32
  }

  const OpenBracket: Byte := 91
  const OpenBrace: Byte := 123

  /** The number of leading white-space bytes. */
  function TrimStart(body: seq<Byte>): (i: nat)
    ensures i <= |body|
    ensures forall k :: 0 <= k < i ==> IsSpace(body[k])
    ensures i < |body| ==> !IsSpace(body[i])
  {
    if body != [] && IsSpace(body[0]) then 1 + TrimStart(body[1..]) else 0
  }

  /** The length of `body` without its trailing white space. */
  function TrimEnd(body: seq<Byte>): (j: nat)
    ensures j <= |body|
    ensures forall k :: j <= k < |body| ==> IsSpace(body[k])
    ensures j > 0 ==> !IsSpace(body[j - 1])
  {
    if body != [] && IsSpace(body[|body| - 1]) then TrimEnd(body[..|body| - 1]) else |body|
  }

  /** bytes.TrimSpace, restricted to ASCII white space. */
  function TrimSpace(body: seq<Byte>): (t: seq<Byte>)
    ensures t == [] <==> forall k :: 0 <= k < |body| ==> IsSpace(body[k])
    ensures t != [] ==> t == body[TrimStart(body)..TrimEnd(body)]
    ensures t != [] ==> !IsSpace(t[0]) && !IsSpace(t[|t| - 1])
  {
    var i := TrimStart(body);
    var j := TrimEnd(body);
    if i < j then body[i..j] else []
  }

  /** The status object of a report request. */
  datatype ReportStatus = ReportStatus(id: string, status: string, error: string)

  /** json.Unmarshal into a zero ReportStatus. */
  function DecodeReportStatus(text: string): (r: Result<ReportStatus, Json.DecodeError>)
    ensures Json.Parse(text).None? ==> r == Err(Json.InvalidSyntax)
  {
    match Json.ObjectMembers(text)
    case Err(e) => Err(e)
    case Ok(None) => Ok(ReportStatus("", "", ""))
    case Ok(Some(ms)) =>
      match Json.StringField(ms, "id", "")
      case Err(e) => Err(e)
      case Ok(id) =>
        match Json.StringField(ms, "status", "")
        case Err(e) => Err(e)
        case Ok(status) =>
          match Json.StringField(ms, "error", "")
          case Err(e) => Err(e)
          case Ok(error) => Ok(ReportStatus(id, status, error))
  }

  /** The two statuses under which the poller keeps waiting. */
  predicate StillRunning(status: string) {
    status == "PENDING" || status == "IN_PROGRESS"
  }

  datatype PollError =
    | BadRequest(urlError: Url.UrlError)
    | TransportFailed
    | ReadFailed
    | BadStatusObject(decodeError: Json.DecodeError)
    | GenerationFailed(status: string)
    | UnexpectedFormat
    | TimedOut

  /** How reading a response body ended: io.ErrUnexpectedEOF still hands over what was read. */
  datatype ReadResult = ReadComplete | ReadUnexpectedEof | ReadError

  /** One poll request as the network answered it. */
  datatype Attempt = SendFailed | Received(body: seq<Byte>, read: ReadResult)

  /** What one answered request decides. */
  datatype Outcome = Retry | Payload(report: seq<Byte>) | Failure(error: PollError)

  /** A decoder for status objects; the client uses DecodeReportStatus. */
  type StatusDecoder = string -> Result<ReportStatus, Json.DecodeError>

  /**
    A body classified by its first non-blank byte. A status object is
    decoded from the UTF-8 text of the trimmed body, as json.Unmarshal reads it.
   */
  function Classify(body: seq<Byte>, decode: StatusDecoder): (o: Outcome)
    ensures o.Payload? <==> TrimSpace(body) != [] && TrimSpace(body)[0] == OpenBracket
    ensures o.Payload? ==> o.report == TrimSpace(body)
    ensures o.Retry? <==> TrimSpace(body) == []
                          || (TrimSpace(body)[0] == OpenBrace && decode(Utf8.Decode(TrimSpace(body))).Ok?
                              && StillRunning(decode(Utf8.Decode(TrimSpace(body))).value.status))
    ensures TrimSpace(body) != [] && TrimSpace(body)[0] != OpenBracket && TrimSpace(body)[0] != OpenBrace ==>
              o == Failure(UnexpectedFormat)
    ensures TrimSpace(body) != [] && TrimSpace(body)[0] == OpenBrace && decode(Utf8.Decode(TrimSpace(body))).Err? ==>
              o == Failure(BadStatusObject(decode(Utf8.Decode(TrimSpace(body))).error))
    ensures TrimSpace(body) != [] && TrimSpace(body)[0] == OpenBrace && decode(Utf8.Decode(TrimSpace(body))).Ok?
            && !StillRunning(decode(Utf8.Decode(TrimSpace(body))).value.status) ==>
              o == Failure(GenerationFailed(decode(Utf8.Decode(TrimSpace(body))).value.status))
    ensures o != Failure(TimedOut)
  {
    var trimmed := TrimSpace(body);
    if trimmed == [] then Retry
    else if trimmed[0] == OpenBracket then Payload(trimmed)
    else if trimmed[0] == OpenBrace then
      match decode(Utf8.Decode(trimmed))
      case Err(e) => Failure(BadStatusObject(e))
      case Ok(reportStatus) =>
        if StillRunning(reportStatus.status) then Retry else Failure(GenerationFailed(reportStatus.status))
    else Failure(UnexpectedFormat)
  }

  /** What one request decides: its failure, or the classification of the body it read. */
  function AttemptOutcome(a: Attempt, decode: StatusDecoder): (o: Outcome)
    ensures o == Failure(TransportFailed) <==> a.SendFailed?
    ensures o == Failure(ReadFailed) <==> a.Received? && a.read == ReadError
    ensures a.Received? && a.read != ReadError ==> o == Classify(a.body, decode)
  {
    match a
    case SendFailed => Failure(TransportFailed)
    case Received(_, ReadError) => Failure(ReadFailed)
    case Received(body, _) => Classify(body, decode)
  }

  /** No single answer makes the poll time out. */
  lemma NeverTimedOut(a: Attempt, decode: StatusDecoder)
    ensures AttemptOutcome(a, decode) != Failure(TimedOut)
  {
    if a.Received? && a.read != ReadError {
      assert AttemptOutcome(a, decode) == Classify(a.body, decode);
    }
  }

  /** What the answers to the first `n` requests decide, one outcome per request. */
  function Outcomes(attempts: seq<Attempt>, n: nat, decode: StatusDecoder): (os: seq<Outcome>)
    requires n <= |attempts|
    ensures |os| == n && forall k :: 0 <= k < n ==> os[k] == AttemptOutcome(attempts[k], decode)
  {
    seq(n, k requires 0 <= k < n => AttemptOutcome(attempts[k], decode))
  }

  /** The first outcome that does not retry decides; if there is none the poll has timed out. */
  function Decide(outcomes: seq<Outcome>): (r: Result<seq<Byte>, PollError>)
  {
    if outcomes == [] then Err(TimedOut)
    else
      match outcomes[0]
      case Retry => Decide(outcomes[1..])
      case Payload(report) => Ok(report)
      case Failure(e) => Err(e)
  }

  /**
    The whole poll. Building the request parses the URL; that fails alike on
    every attempt, so it can only fail on the first.
   */
  function Poll(reportUrl: string, attempts: seq<Attempt>, maxAttempts: nat, decode: StatusDecoder): (r: Result<seq<Byte>, PollError>)
    requires maxAttempts <= |attempts|
    ensures maxAttempts == 0 ==> r == Err(TimedOut)
    ensures r.Ok? ==> Url.Parse(reportUrl).Ok?
  {
    if maxAttempts > 0 && Url.Parse(reportUrl).Err? then Err(BadRequest(Url.Parse(reportUrl).error))
    else Decide(Outcomes(attempts, maxAttempts, decode))
  }

  function ResolveOutcome(o: Outcome): Result<seq<Byte>, PollError>
    requires !o.Retry?
  {
    match o
    case Payload(report) => Ok(report)
    case Failure(e) => Err(e)
  }

  /** One step of the decision: a retry defers to the rest, anything else decides. */
  lemma DecideStep(os: seq<Outcome>, i: nat)
    requires i < |os|
    ensures Decide(os[i..]) == if os[i].Retry? then Decide(os[i + 1..]) else ResolveOutcome(os[i])
  {
    assert os[i..][0] == os[i] && os[i..][1..] == os[i + 1..];
  }

  /** The poll is decided by the first outcome that does not retry. */
  lemma {:induction false} DecidedAt(outcomes: seq<Outcome>, i: nat)
    requires i < |outcomes| && !outcomes[i].Retry?
    requires forall k :: 0 <= k < i ==> outcomes[k].Retry?
    ensures Decide(outcomes) == ResolveOutcome(outcomes[i])
  {
    if i > 0 {
      DecidedAt(outcomes[1..], i - 1);
    }
  }

  /** The poll times out exactly when every outcome retries. */
  lemma {:induction false} TimesOut(outcomes: seq<Outcome>)
    requires forall k :: 0 <= k < |outcomes| ==> outcomes[k] != Failure(TimedOut)
    ensures Decide(outcomes) == Err(TimedOut) <==> forall k :: 0 <= k < |outcomes| ==> outcomes[k].Retry?
  {
    if outcomes != [] {
      TimesOut(outcomes[1..]);
      if outcomes[0].Retry? {
        assert forall k :: 1 <= k < |outcomes| ==> outcomes[1..][k - 1] == outcomes[k];
      }
    }
  }

  /** Whatever a poll returns is one of its outcomes. */
  lemma {:induction false} DecideFromOutcome(outcomes: seq<Outcome>)
    requires Decide(outcomes) != Err(TimedOut)
    ensures exists i :: 0 <= i < |outcomes| && !outcomes[i].Retry? && Decide(outcomes) == ResolveOutcome(outcomes[i])
  {
    if outcomes[0].Retry? {
      DecideFromOutcome(outcomes[1..]);
      var i :| 0 <= i < |outcomes[1..]| && !outcomes[1..][i].Retry? && Decide(outcomes[1..]) == ResolveOutcome(outcomes[1..][i]);
      assert outcomes[i + 1] == outcomes[1..][i];
    }
  }

  /** The poll times out exactly when every allowed request is answered by a retry. */
  lemma PollTimesOut(reportUrl: string, attempts: seq<Attempt>, maxAttempts: nat, decode: StatusDecoder)
    requires maxAttempts <= |attempts|
    ensures Poll(reportUrl, attempts, maxAttempts, decode) == Err(TimedOut)
            <==> (maxAttempts == 0 || Url.Parse(reportUrl).Ok?)
                 && forall k :: 0 <= k < maxAttempts ==> AttemptOutcome(attempts[k], decode).Retry?
  {
    var os := Outcomes(attempts, maxAttempts, decode);
    forall k | 0 <= k < maxAttempts
      ensures os[k] != Failure(TimedOut)
    {
      NeverTimedOut(attempts[k], decode);
    }
    TimesOut(os);
  }

  /** A report comes only from an answered request whose trimmed body starts with `[`, and it is that trimmed body. */
  lemma PollPayload(reportUrl: string, attempts: seq<Attempt>, maxAttempts: nat, decode: StatusDecoder)
    requires maxAttempts <= |attempts| && Poll(reportUrl, attempts, maxAttempts, decode).Ok?
    ensures exists i :: 0 <= i < maxAttempts && attempts[i].Received? && attempts[i].read != ReadError
                        && Poll(reportUrl, attempts, maxAttempts, decode).value == TrimSpace(attempts[i].body)
    ensures var report := Poll(reportUrl, attempts, maxAttempts, decode).value;
            report != [] && report[0] == OpenBracket
  {
    var os := Outcomes(attempts, maxAttempts, decode);
    DecideFromOutcome(os);
    var i :| 0 <= i < |os| && !os[i].Retry? && Decide(os) == ResolveOutcome(os[i]);
    assert os[i] == AttemptOutcome(attempts[i], decode);
    assert attempts[i].Received? && attempts[i].read != ReadError;
  }

  /** The poll is decided by the first answer that does not retry. */
  lemma PollDecidedAt(reportUrl: string, attempts: seq<Attempt>, maxAttempts: nat, decode: StatusDecoder, i: nat)
    requires maxAttempts <= |attempts| && i < maxAttempts && Url.Parse(reportUrl).Ok?
    requires forall k :: 0 <= k < i ==> AttemptOutcome(attempts[k], decode).Retry?
    requires !AttemptOutcome(attempts[i], decode).Retry?
    ensures Poll(reportUrl, attempts, maxAttempts, decode) == ResolveOutcome(AttemptOutcome(attempts[i], decode))
  {
    DecidedAt(Outcomes(attempts, maxAttempts, decode), i);
  }

  // ---------------------------------------------------------------------
  // Status objects as the server sends them

  /** json.Marshal's encoding of a report request's status with no error. */
  function StatusObject(id: string, status: string): string {
    Json.SerializeObject([Json.Field("id", Json.StrScalar(id)), Json.Field("status", Json.StrScalar(status))])
  }

  /** The decoder reads back the id and status of an encoded status object and leaves the error empty. */
  lemma StatusObjectDecodes(id: string, status: string)
    ensures DecodeReportStatus(StatusObject(id, status)) == Ok(ReportStatus(id, status, ""))
  {
    var fs := [Json.Field("id", Json.StrScalar(id)), Json.Field("status", Json.StrScalar(status))];
    Json.ObjectMembersSerialized(fs);
    Json.LengthsDiffer("status", "id");
    Json.LengthsDiffer("id", "status");
    Json.LengthsDiffer("id", "error");
    Json.LengthsDiffer("status", "error");
    Json.FieldPresent(fs, 0, "id", 0, "");
    Json.FieldPresent(fs, 1, "status", 0, "");
    Json.FieldsAbsent(fs, "error", 0, "");
  }

  /** A body holding an encoded status object retries while the status is still running, and fails with that status otherwise. */
  lemma StatusBody(body: seq<Byte>, id: string, status: string)
    requires Utf8.Decode(TrimSpace(body)) == StatusObject(id, status)
    ensures Classify(body, DecodeReportStatus)
         == (if StillRunning(status) then Retry else Failure(GenerationFailed(status)))
  {
    StatusObjectDecodes(id, status);
    var trimmed := TrimSpace(body);
    assert trimmed != [] && Utf8.DecodeRune(trimmed).rune == '{';
    assert trimmed[0] == OpenBrace;
  }

  /** A status object whose only key folds onto "status" is read as that status. */
  lemma StatusKeyDecodes(key: string, status: string)
    requires Json.KeyMatches(key, "status")
    ensures DecodeReportStatus(Json.SerializeObject([Json.Field(key, Json.StrScalar(status))]))
         == Ok(ReportStatus("", status, ""))
  {
    var fs := [Json.Field(key, Json.StrScalar(status))];
    Json.ObjectMembersSerialized(fs);
    Json.LengthsDiffer(key, "id");
    Json.LengthsDiffer(key, "error");
    Json.FieldPresent(fs, 0, "status", 0, "");
    Json.FieldsAbsent(fs, "id", 0, "");
    Json.FieldsAbsent(fs, "error", 0, "");
  }

  /**
    A UTF-8 body holding such an object, whatever the case of its key,
    retries while the status is still running and fails with it otherwise.
   */
  lemma StatusKeyBody(body: seq<Byte>, key: string, status: string)
    requires Json.KeyMatches(key, "status")
    requires TrimSpace(body) == Utf8.Encode(Json.SerializeObject([Json.Field(key, Json.StrScalar(status))]))
    ensures Classify(body, DecodeReportStatus)
         == (if StillRunning(status) then Retry else Failure(GenerationFailed(status)))
  {
    var text := Json.SerializeObject([Json.Field(key, Json.StrScalar(status))]);
    Utf8.DecodeEncode(text);
    StatusKeyDecodes(key, status);
    var trimmed := TrimSpace(body);
    assert trimmed != [] && Utf8.DecodeRune(trimmed).rune == '{';
    assert trimmed[0] == OpenBrace;
  }

  /**
    The key "ſtatus" (U+017F, the long s) folds onto "status": a body
    `{"ſtatus":"PENDING"}` keeps the poll waiting. The long s is sent as
    the two bytes C5 BF.
   */
  lemma LongSStatusRetries(body: seq<Byte>)
    requires TrimSpace(body) == Utf8.Encode(Json.SerializeObject([Json.Field("\U{017F}tatus", Json.StrScalar("PENDING"))]))
    ensures Classify(body, DecodeReportStatus) == Retry
    ensures Utf8.EncodeRune('\U{017F}') == [0xC5, 0xBF]
  {
    Json.LongSFolds();
    StatusKeyBody(body, "\U{017F}tatus", "PENDING");
  }

  /**
    A status object nested past the scanner's depth limit fails to decode,
    even when its status is "PENDING": the poll stops instead of retrying.
   */
  lemma DeepStatusBodyFails(body: seq<Byte>, status: string, key: string, n: nat, tail: string)
    requires n >= Json.MaxNestingDepth
    requires TrimSpace(body) == Utf8.Encode("{" + Json.Quote("status") + ":" + Json.Quote(status) + ","
                                            + Json.Quote(key) + ":" + seq(n, _ => '[') + tail)
    ensures Classify(body, DecodeReportStatus) == Failure(BadStatusObject(Json.InvalidSyntax))
  {
    var text := "{" + Json.Quote("status") + ":" + Json.Quote(status) + ","
                + Json.Quote(key) + ":" + seq(n, _ => '[') + tail;
    Json.NestedMemberRefused("status", status, key, n, tail);
    Utf8.DecodeEncode(text);
    var trimmed := TrimSpace(body);
    assert text[0] == '{';
    assert trimmed != [] && Utf8.DecodeRune(trimmed).rune == '{';
    assert trimmed[0] == OpenBrace;
  }

  /**
    Status objects that are still running ("PENDING" or "IN_PROGRESS"),
    then an array: the poll returns the array.
   */
  lemma RunningThenReport(reportUrl: string, attempts: seq<Attempt>, maxAttempts: nat, i: nat,
                          ids: seq<string>, statuses: seq<string>)
    requires i < maxAttempts <= |attempts| && Url.Parse(reportUrl).Ok?
    requires |ids| == i && |statuses| == i
    requires forall k :: 0 <= k < i ==>
               && attempts[k].Received? && attempts[k].read != ReadError
               && Utf8.Decode(TrimSpace(attempts[k].body)) == StatusObject(ids[k], statuses[k])
               && StillRunning(statuses[k])
    requires attempts[i].Received? && attempts[i].read != ReadError
             && TrimSpace(attempts[i].body) != [] && TrimSpace(attempts[i].body)[0] == OpenBracket
    ensures Poll(reportUrl, attempts, maxAttempts, DecodeReportStatus) == Ok(TrimSpace(attempts[i].body))
  {
    forall k | 0 <= k < i
      ensures AttemptOutcome(attempts[k], DecodeReportStatus).Retry?
    {
      StatusBody(attempts[k].body, ids[k], statuses[k]);
      assert AttemptOutcome(attempts[k], DecodeReportStatus) == Classify(attempts[k].body, DecodeReportStatus);
    }
    assert AttemptOutcome(attempts[i], DecodeReportStatus) == Classify(attempts[i].body, DecodeReportStatus);
    PollDecidedAt(reportUrl, attempts, maxAttempts, DecodeReportStatus, i);
  }

  // ---------------------------------------------------------------------
  // The client

  datatype ReportError = PostFailed(httpError: HttpError) | PollFailed(pollError: PollError) | ReportUndecodable

  /** The report URL: the base URL followed by ApiPathReport filled with the organization and report ids. */
  function ReportUrl(baseUrl: string, organizationId: string, reportId: string): (u: string)
    ensures |u| == |baseUrl| + 28 + |organizationId| + 17 + |reportId|
    ensures u[..|baseUrl|] == baseUrl && u[|u| - |reportId|..] == reportId
  {
    baseUrl + "/reporting/v1/organizations/" + organizationId + "/report-requests/" + reportId
  }

  class Client {
    const baseUrl: string
    const organizationId: string
    var reportStatus: ReportStatus
    const store: ReportCache.StatusesStore

    constructor (baseUrl: string, organizationId: string)
      ensures this.baseUrl == baseUrl && this.organizationId == organizationId
      ensures reportStatus == ReportStatus("", "", "")
      ensures fresh(store) && store.entries == map[]
    {
      this.baseUrl := baseUrl;
      this.organizationId := organizationId;
      reportStatus := ReportStatus("", "", "");
      store := new ReportCache.StatusesStore();
    }

    /** New: a client with no report requested and an empty cache, unless the base URL does not parse. */
    static method New(baseUrl: string, organizationId: string) returns (c: Client?, err: Option<Url.UrlError>)
      ensures err.None? <==> Url.Parse(baseUrl).Ok?
      ensures err.Some? ==> c == null && err.value == Url.Parse(baseUrl).error
      ensures err.None? ==> c != null && fresh(c) && fresh(c.store)
                            && c.baseUrl == baseUrl && c.organizationId == organizationId
                            && c.reportStatus == ReportStatus("", "", "") && c.store.entries == map[]
    {
      match Url.Parse(baseUrl)
      case Err(e) =>
        c, err := null, Some(e);
      case Ok(_) =>
        c := new Client(baseUrl, organizationId);
        err := None;
    }

    /**
      GenerateLearningActivityReport: `post` is the server's decoded answer
      to the report request. The status is replaced only on success.
     */
    method GenerateLearningActivityReport(post: Result<ReportStatus, HttpError>) returns (err: Option<ReportError>)
      modifies this
      ensures post.Ok? ==> reportStatus == post.value && err == None
      ensures post.Err? ==> reportStatus == old(reportStatus) && err == Some(PostFailed(post.error))
    {
      match post
      case Err(e) =>
        err := Some(PostFailed(e));
      case Ok(target) =>
        reportStatus := target;
        err := None;
    }

    /**
      One iteration of pollLearningActivityReport's loop: what the answer to
      one request decides, with the loop's own tests in its own order.
     */
    static method PollAttempt(a: Attempt) returns (o: Outcome)
      ensures o == AttemptOutcome(a, DecodeReportStatus)
      ensures o.Retry? <==> a.Received? && a.read != ReadError && Classify(a.body, DecodeReportStatus).Retry?
    {
      match a
      case SendFailed =>
        return Failure(TransportFailed);
      case Received(bodyBytes, read) =>
        if read == ReadError {
          return Failure(ReadFailed);
        }
        var trimmedBody := TrimSpace(bodyBytes);
        if |trimmedBody| == 0 {
          return Retry;
        }
        if trimmedBody[0] == OpenBracket {
          return Payload(trimmedBody);
        }
        if trimmedBody[0] == OpenBrace {
          var decoded := DecodeReportStatus(Utf8.Decode(trimmedBody));
          if decoded.Err? {
            return Failure(BadStatusObject(decoded.error));
          }
          if decoded.value.status == "PENDING" || decoded.value.status == "IN_PROGRESS" {
            return Retry;
          }
          return Failure(GenerationFailed(decoded.value.status));
        }
        return Failure(UnexpectedFormat);
    }

    /**
      pollLearningActivityReport: at most `maxAttempts` requests, answered in
      order by `attempts`; `requests` counts those sent.
     */
    method PollLearningActivityReport(reportUrl: string, maxAttempts: nat, attempts: seq<Attempt>)
      returns (r: Result<seq<Byte>, PollError>, requests: nat)
      requires maxAttempts <= |attempts|
      ensures r == Poll(reportUrl, attempts, maxAttempts, DecodeReportStatus)
      ensures requests <= maxAttempts
      ensures forall k :: 0 <= k < requests - 1 ==> AttemptOutcome(attempts[k], DecodeReportStatus).Retry?
      ensures r == Err(TimedOut) ==> requests == maxAttempts
    {
      requests := 0;
      if maxAttempts > 0 && Url.Parse(reportUrl).Err? {
        return Err(BadRequest(Url.Parse(reportUrl).error)), 0;
      }
      ghost var os := Outcomes(attempts, maxAttempts, DecodeReportStatus);
      ghost var polled := Poll(reportUrl, attempts, maxAttempts, DecodeReportStatus);
      assert polled == Decide(os[0..]) by {
        assert os[0..] == os;
      }
      var i := 0;
      while i < maxAttempts
        invariant 0 <= i <= maxAttempts && requests == i
        invariant forall k :: 0 <= k < i ==> os[k].Retry?
        invariant polled == Decide(os[i..])
      {
        requests := requests + 1;
        DecideStep(os, i);
        var o := PollAttempt(attempts[i]);
        assert o == os[i];
        if o.Retry? {
          assert os[i].Retry?;
          i := i + 1;
          continue;
        }
        return ResolveOutcome(o), requests;
      }
      assert os[i..] == [];
      r := Err(TimedOut);
    }

    /**
      GetLearningActivityReport: polls for the report of the current request
      and decodes it with `decodeReport`; only when both succeed is the
      status set to "COMPLETED" and the report loaded into the cache.
     */
    method GetLearningActivityReport(maxAttempts: nat, attempts: seq<Attempt>,
                                     decodeReport: seq<Byte> -> Option<seq<ReportCache.ReportEntry>>)
      returns (err: Option<ReportError>)
      requires maxAttempts <= |attempts|
      modifies this, store
      ensures var polled := Poll(ReportUrl(baseUrl, organizationId, old(reportStatus).id), attempts, maxAttempts, DecodeReportStatus);
              if polled.Ok? && decodeReport(polled.value).Some? then
                && err == None
                && reportStatus == old(reportStatus).(status := "COMPLETED")
                && store.entries == ReportCache.Loaded(old(store.entries), decodeReport(polled.value).value)
              else
                && err == Some(if polled.Err? then PollFailed(polled.error) else ReportUndecodable)
                && reportStatus == old(reportStatus)
                && store.entries == old(store.entries)
    {
      var reportUrl := ReportUrl(baseUrl, organizationId, reportStatus.id);
      var bodyBytes, _ := PollLearningActivityReport(reportUrl, maxAttempts, attempts);
      if bodyBytes.Err? {
        return Some(PollFailed(bodyBytes.error));
      }
      var target := decodeReport(bodyBytes.value);
      if target.None? {
        return Some(ReportUndecodable);
      }
      reportStatus := reportStatus.(status := "COMPLETED");
      // Load never fails, so its error needs no branch.
      var _ := store.Load(target.value);
      err := None;
    }
  }
}

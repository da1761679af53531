/**
 What the evaluation service answers, as a function of the parsed request.  The JSON library
 is a record of functions: the text it dumps for each kind of body, and the link it extracts
 from a search-results report, if the body has the expected form.
 */
module Service {
  import opened Numbers
  import opened Messages
  import opened Wrappers

  datatype JsonLibrary = JsonLibrary(
    error: (string, string) -> string,   // {"error": status, "message": msg}
    suggestions: string,
    queryId: uint32 -> string,
    queries: string,
    clicks: string -> string,            // body of the forwarded click
    clicked: string -> Option<string>)   // results[clicked] of a report, or a parse exception

  datatype Route = GetAutofill | GetQueryID | ReportSearchResults | SubmitFeedback | GetQueryData | ReportMetrics
                 | NotFound

  /** `handlerMapper` */
  function HandlerMapper(resource: string): Route {
    if resource == "/v0/GetAutofill" then GetAutofill
    else if resource == "/v0/GetQueryID" then GetQueryID
    else if resource == "/v0/ReportSearchResults" then ReportSearchResults
    else if resource == "/v0/SubmitFeedback" then SubmitFeedback
    else if resource == "/v0/GetQueryData" then GetQueryData
    else if resource == "/v0/ReportMetrics" then ReportMetrics
    else NotFound
  }

  datatype Verdict = Reject(code: uint32, status: string, message: string)
                   | Dispatch(route: Route, request: HTTPRequest)

  /** The checks of `HTTPWorker::run`, in its order. */
  function Judge(parsed: Option<HTTPRequest>): Verdict {
    match parsed
    case None => Reject(400, "Bad Request", "Error parsing request.")
    case Some(r) =>
      if r.version != HTTP_VERSION then Reject(505, "HTTP Version Not Supported", "HTTP/1.1 Must be Used.")
      else if r.body == "" then Dispatch(HandlerMapper(r.resource), r)
      else if "content-length" !in r.headers then
        Reject(411, "Length Required", "Content-Length header must be specified when sending a request body")
      else JudgeLength(r, r.headers["content-length"])
  }

  function JudgeLength(r: HTTPRequest, stated: string): Verdict {
    match Stoul(stated)
    case None => Reject(400, "Bad Request", "Specified content length (" + stated + ") is invalid")
    case Some(n) =>
      if Truncate32(n) != |r.body| then
        Reject(400, "Bad Request", "Provided content length " + stated + " does not match actual content length "
                                   + Decimal(|r.body|))
      else Dispatch(HandlerMapper(r.resource), r)
  }

  /** What one connection brings about: the reply, what may be forwarded to Link Analysis after
      it, and the next query ID. */
  datatype Exchange = Exchange(reply: HTTPResponse, forward: Option<HTTPRequest>, nextId: uint32)

  function ErrorResponse(json: JsonLibrary, code: uint32, status: string, message: string): HTTPResponse {
    JsonResponse(code, status, json.error(status, message))
  }

  /** The request that forwards a clicked link. */
  function ClickRequest(json: JsonLibrary, link: string): HTTPRequest {
    var r := JsonRequest(POST, "/evaluation/update_metadata", json.clicks(link));
    r.(headers := r.headers["Host" := "lspt-link-analysis.cs.rpi.edu:1234"])
  }

  /** `v0reportSearchResults` */
  function Report(json: JsonLibrary, r: HTTPRequest): (HTTPResponse, Option<HTTPRequest>) {
    if r.verb != POST then (ErrorResponse(json, 405, "Method Not Allowed", "Use POST for this API call"), None)
    else if "content-type" !in r.headers || r.headers["content-type"] != "application/json" then
      (ErrorResponse(json, 400, "Bad Request",
                     "Missing / Incorrect `Content-Type` header (expected `application/json`)"), None)
    else
      match json.clicked(r.body)
      case None => (ErrorResponse(json, 400, "Bad Request", "Improper format of request body."), None)
      case Some(link) => (PlainResponse(200, "OK"), if link == "" then None else Some(ClickRequest(json, link)))
  }

  function Handle(json: JsonLibrary, route: Route, r: HTTPRequest, id: uint32): Exchange {
    match route
    case GetAutofill => Exchange(JsonResponse(200, "OK", json.suggestions), None, id)
    case GetQueryID => Exchange(JsonResponse(200, "OK", json.queryId(id)), None, Increment32(id))
    case ReportSearchResults => Exchange(Report(json, r).0, Report(json, r).1, id)
    case SubmitFeedback => Exchange(PlainResponse(200, "OK"), None, id)
    case GetQueryData => Exchange(JsonResponse(200, "OK", json.queries), None, id)
    case ReportMetrics => Exchange(PlainResponse(200, "OK"), None, id)
    case NotFound => Exchange(ErrorResponse(json, 404, "Not Found", "Resource (API function) not found"), None, id)
  }

  function Serve(json: JsonLibrary, parsed: Option<HTTPRequest>, id: uint32): Exchange {
    match Judge(parsed)
    case Reject(code, status, message) => Exchange(ErrorResponse(json, code, status, message), None, id)
    case Dispatch(route, r) => Handle(json, route, r, id)
  }

  /** Every text of a message, in whatever header order, is shorter than 4 GiB, so that the
      `unsigned int` that counts the bytes sent does not wrap. */
  ghost predicate ReplyFits(r: HTTPResponse) {
    forall fields :: Enumerates(fields, r.headers) ==> |ResponseText(r, fields)| < TWO_TO_THE_32
  }

  ghost predicate ForwardFits(r: HTTPRequest) {
    forall fields :: Enumerates(fields, r.headers) ==> |RequestText(r, fields)| < TWO_TO_THE_32
  }

  ghost predicate Fits(x: Exchange) {
    ReplyFits(x.reply) && (x.forward.Some? ==> ForwardFits(x.forward.value))
  }
}

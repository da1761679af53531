/**
 What the service answers to a received text, resource by resource: which words of its first
 line, and which headers behind it, lead to which version, code, status, headers and body, to
 which forward and to which next query ID.
 */
module Answers {
  import opened Text
  import opened Numbers
  import opened Messages
  import opened Syntax
  import opened Grammar
  import opened RoundTrip
  import opened Cuts
  import opened OnTheWire
  import opened Transport
  import opened Service
  import opened ServiceLaws
  import opened Wrappers

  // ---------------------------------------------------------------- replies in characters

  ghost predicate JsonReply(r: HTTPResponse, code: int, status: string, body: string) {
    && r.version == "HTTP/1.1" && r.code == code && r.status == status && r.body == body
    && r.headers == map["Content-Type" := "application/json", "Content-Length" := Decimal(|body|)]
  }

  ghost predicate ErrorReply(json: JsonLibrary, r: HTTPResponse, code: int, status: string, message: string) {
    JsonReply(r, code, status, json.error(status, message))
  }

  ghost predicate EmptyReply(r: HTTPResponse, code: int, status: string) {
    r.version == "HTTP/1.1" && r.code == code && r.status == status && r.headers == map[] && r.body == ""
  }

  /** The request that tells Link Analysis of a click. */
  ghost predicate IsClick(json: JsonLibrary, q: HTTPRequest, link: string) {
    && q.verb == POST && q.resource == "/evaluation/update_metadata" && q.version == "HTTP/1.1"
    && q.body == json.clicks(link)
    && q.headers == map["Content-Type" := "application/json", "Content-Length" := Decimal(|q.body|),
                        "Host" := "lspt-link-analysis.cs.rpi.edu:1234"]
  }

  /** An exchange that changes nothing but the client. */
  ghost predicate JustReplies(x: Exchange, id: uint32) {
    x.forward == None && x.nextId == id
  }

  // ---------------------------------------------------------------- requests in characters

  ghost predicate IsMethodName(name: string) {
    name in {"GET", "HEAD", "POST", "PUT", "DELETE", "CONNECT", "OPTIONS", "TRACE", "PATCH"}
  }

  /** What is behind the header block, unless that is all white space. */
  function Behind(t: string): string {
    if HasNext(HeaderRest(AfterLine(t))) then HeaderRest(AfterLine(t)) else ""
  }

  /** The length that the headers state, if they state a number. */
  function Stated(t: string): Option<nat> {
    var headers := HeaderMap(AfterLine(t));
    if "content-length" in headers then Stoul(headers["content-length"]) else None
  }

  ghost predicate LengthFits(t: string) {
    Behind(t) == "" || (Stated(t).Some? && Stated(t).value % 4294967296 == |Behind(t)|)
  }

  /** A text that the checks let through: three words, of which the first is a method and the
      third the version, and no body or one of the stated length. */
  ghost predicate Asks(t: string, name: string, resource: string) {
    && Receivable(t) && Words(FirstLine(t)) == [name, resource, "HTTP/1.1"] && IsMethodName(name)
    && LengthFits(t)
  }

  lemma MethodNames(name: string)
    ensures IsMethodName(name) <==> StringToMethod(name) != UNKNOWN
    ensures StringToMethod(name) == POST <==> name == "POST"
  {
  }

  // ---------------------------------------------------------------- the checks

  /** What the checks make of the words, the headers and the rest of a text. */
  lemma {:induction false} Parsed(t: string, name: string, resource: string, version: string)
    requires Words(FirstLine(t)) == [name, resource, version] && IsMethodName(name)
    ensures ParseRequest(t)
         == Some(HTTPRequest(StringToMethod(name), resource, version, HeaderMap(AfterLine(t)), Behind(t)))
  {
    MethodNames(name);
    RequestAccepted(t);
  }

  lemma {:induction false} LetThrough(t: string, name: string, resource: string)
    requires Asks(t, name, resource)
    ensures Judge(ParseRequest(t))
         == Dispatch(HandlerMapper(resource),
              HTTPRequest(StringToMethod(name), resource, "HTTP/1.1", HeaderMap(AfterLine(t)), Behind(t)))
  {
    Parsed(t, name, resource, "HTTP/1.1");
    var r := ParseRequest(t).value;
    if r.body == "" {
      BodylessJudged(r);
    } else {
      DispatchedIff(r);
    }
  }

  lemma RequestLetThrough(r: HTTPRequest, stated: Option<nat>)
    requires stated == if "content-length" in r.headers then Stoul(r.headers["content-length"]) else None
    ensures Judge(Some(r)).Dispatch? <==>
              && r.version == "HTTP/1.1"
              && (r.body == "" || (stated.Some? && stated.value % 4294967296 == |r.body|))
    ensures Judge(Some(r)).Dispatch? ==> Judge(Some(r)).route == HandlerMapper(r.resource)
  {
    if r.body == "" {
      BodylessJudged(r);
    } else {
      DispatchedIff(r);
    }
  }

  /** The texts that reach a handler are those. */
  lemma {:induction false} DispatchedAsks(t: string)
    requires Receivable(t)
    ensures var words := Words(FirstLine(t));
            Judge(ParseRequest(t)).Dispatch? <==> |words| == 3 && Asks(t, words[0], words[1])
    ensures Judge(ParseRequest(t)).Dispatch? ==> Judge(ParseRequest(t)).route == HandlerMapper(Words(FirstLine(t))[1])
  {
    var words := Words(FirstLine(t));
    if |words| == 3 && IsMethodName(words[0]) {
      assert words == [words[0], words[1], words[2]];
      Parsed(t, words[0], words[1], words[2]);
      RequestLetThrough(ParseRequest(t).value, Stated(t));
    } else {
      NotParsed(t);
    }
  }

  lemma {:induction false} NotParsed(t: string)
    requires var words := Words(FirstLine(t)); |words| != 3 || !IsMethodName(words[0])
    ensures ParseRequest(t) == None
  {
    RequestAccepted(t);
    if |Words(FirstLine(t))| == 3 {
      MethodNames(Words(FirstLine(t))[0]);
    }
  }

  /** What a text is answered that is not let through, by the first check that it fails. */
  lemma {:induction false} RefusalOnText(json: JsonLibrary, t: string, id: uint32)
    requires Receivable(t)
    ensures var words := Words(FirstLine(t));
            var x := Serve(json, ParseRequest(t), id);
            var headers := HeaderMap(AfterLine(t));
            if |words| != 3 || !IsMethodName(words[0]) then
              JustReplies(x, id) && ErrorReply(json, x.reply, 400, "Bad Request", "Error parsing request.")
            else if words[2] != "HTTP/1.1" then
              JustReplies(x, id)
              && ErrorReply(json, x.reply, 505, "HTTP Version Not Supported", "HTTP/1.1 Must be Used.")
            else if Behind(t) == "" then
              Asks(t, words[0], words[1])
            else if "content-length" !in headers then
              JustReplies(x, id)
              && ErrorReply(json, x.reply, 411, "Length Required",
                            "Content-Length header must be specified when sending a request body")
            else if Stated(t) == None then
              JustReplies(x, id)
              && ErrorReply(json, x.reply, 400, "Bad Request",
                            "Specified content length (" + headers["content-length"] + ") is invalid")
            else if Stated(t).value % 4294967296 != |Behind(t)| then
              JustReplies(x, id)
              && ErrorReply(json, x.reply, 400, "Bad Request",
                            "Provided content length " + headers["content-length"]
                            + " does not match actual content length " + Decimal(|Behind(t)|))
            else Asks(t, words[0], words[1])
  {
    var words := Words(FirstLine(t));
    if |words| == 3 && IsMethodName(words[0]) {
      assert words == [words[0], words[1], words[2]];
      Parsed(t, words[0], words[1], words[2]);
      RefusalOf(json, ParseRequest(t).value, id);
    } else {
      NotParsed(t);
    }
  }

  lemma RefusalOf(json: JsonLibrary, r: HTTPRequest, id: uint32)
    ensures var x := Serve(json, Some(r), id);
            if r.version != "HTTP/1.1" then
              JustReplies(x, id)
              && ErrorReply(json, x.reply, 505, "HTTP Version Not Supported", "HTTP/1.1 Must be Used.")
            else if r.body == "" then true
            else if "content-length" !in r.headers then
              JustReplies(x, id)
              && ErrorReply(json, x.reply, 411, "Length Required",
                            "Content-Length header must be specified when sending a request body")
            else
              var stated := r.headers["content-length"];
              match Stoul(stated)
              case None =>
                JustReplies(x, id)
                && ErrorReply(json, x.reply, 400, "Bad Request", "Specified content length (" + stated + ") is invalid")
              case Some(n) =>
                n % 4294967296 != |r.body| ==>
                  JustReplies(x, id)
                  && ErrorReply(json, x.reply, 400, "Bad Request",
                       "Provided content length " + stated + " does not match actual content length "
                       + Decimal(|r.body|))
  {
  }

  // ---------------------------------------------------------------- the resources

  /** The resources of the service, each with the handler it is served by. */
  lemma Resources(resource: string)
    ensures HandlerMapper(resource) == GetAutofill <==> resource == "/v0/GetAutofill"
    ensures HandlerMapper(resource) == GetQueryID <==> resource == "/v0/GetQueryID"
    ensures HandlerMapper(resource) == ReportSearchResults <==> resource == "/v0/ReportSearchResults"
    ensures HandlerMapper(resource) == SubmitFeedback <==> resource == "/v0/SubmitFeedback"
    ensures HandlerMapper(resource) == GetQueryData <==> resource == "/v0/GetQueryData"
    ensures HandlerMapper(resource) == ReportMetrics <==> resource == "/v0/ReportMetrics"
  {
  }

  lemma HandlerReplies(json: JsonLibrary, r: HTTPRequest, id: uint32)
    ensures var x := Handle(json, GetAutofill, r, id);
            JustReplies(x, id) && JsonReply(x.reply, 200, "OK", json.suggestions)
    ensures var x := Handle(json, GetQueryID, r, id);
            x.forward == None && x.nextId == (id + 1) % 4294967296 && JsonReply(x.reply, 200, "OK", json.queryId(id))
    ensures var x := Handle(json, SubmitFeedback, r, id); JustReplies(x, id) && EmptyReply(x.reply, 200, "OK")
    ensures var x := Handle(json, GetQueryData, r, id);
            JustReplies(x, id) && JsonReply(x.reply, 200, "OK", json.queries)
    ensures var x := Handle(json, ReportMetrics, r, id); JustReplies(x, id) && EmptyReply(x.reply, 200, "OK")
    ensures var x := Handle(json, NotFound, r, id);
            JustReplies(x, id) && ErrorReply(json, x.reply, 404, "Not Found", "Resource (API function) not found")
  {
    Increment32Is(id);
  }

  /** The answer to a text that the checks let through, by its second word; the resource for
      reports is `ReportOnText`. */
  lemma {:induction false} AnswerOnText(json: JsonLibrary, t: string, name: string, resource: string, id: uint32)
    requires Asks(t, name, resource)
    ensures var x := Serve(json, ParseRequest(t), id);
            if resource == "/v0/GetAutofill" then
              JustReplies(x, id) && JsonReply(x.reply, 200, "OK", json.suggestions)
            else if resource == "/v0/GetQueryID" then
              && x.forward == None && x.nextId == (id + 1) % 4294967296
              && JsonReply(x.reply, 200, "OK", json.queryId(id))
            else if resource == "/v0/SubmitFeedback" then
              JustReplies(x, id) && EmptyReply(x.reply, 200, "OK")
            else if resource == "/v0/GetQueryData" then
              JustReplies(x, id) && JsonReply(x.reply, 200, "OK", json.queries)
            else if resource == "/v0/ReportMetrics" then
              JustReplies(x, id) && EmptyReply(x.reply, 200, "OK")
            else if resource != "/v0/ReportSearchResults" then
              JustReplies(x, id) && ErrorReply(json, x.reply, 404, "Not Found", "Resource (API function) not found")
            else true
  {
    LetThrough(t, name, resource);
    ServedAsJudged(json, ParseRequest(t), id);
    Resources(resource);
    HandlerReplies(json, Judge(ParseRequest(t)).request, id);
  }

  /** The reply to a report, by whether it was posted, whether it is of the type JSON, and the link
      that was found in it. */
  ghost predicate AnswersReport(json: JsonLibrary, reply: HTTPResponse, posted: bool, typed: bool,
                                link: Option<string>) {
    if !posted then ErrorReply(json, reply, 405, "Method Not Allowed", "Use POST for this API call")
    else if !typed then
      ErrorReply(json, reply, 400, "Bad Request",
                 "Missing / Incorrect `Content-Type` header (expected `application/json`)")
    else if link == None then ErrorReply(json, reply, 400, "Bad Request", "Improper format of request body.")
    else EmptyReply(reply, 200, "OK")
  }

  ghost predicate IsTyped(headers: Headers) {
    "content-type" in headers && headers["content-type"] == "application/json"
  }

  /** A report: 405 exactly for another method than POST; 400 exactly for a POST without the
      content type of JSON, or without a clicked link in its body; 200 otherwise, and then the
      click is due to be forwarded unless its link is empty. */
  lemma {:induction false} ReportOnText(json: JsonLibrary, t: string, name: string, resource: string, id: uint32)
    requires Asks(t, name, resource) && resource == "/v0/ReportSearchResults"
    ensures var x := Serve(json, ParseRequest(t), id);
            var typed, link := IsTyped(HeaderMap(AfterLine(t))), json.clicked(Behind(t));
            && (x.reply.code == 405 <==> name != "POST")
            && (x.reply.code == 400 <==> name == "POST" && (!typed || link == None))
            && (x.reply.code == 200 <==> name == "POST" && typed && link.Some?)
            && AnswersReport(json, x.reply, name == "POST", typed, link)
            && x.nextId == id
            && (x.forward.Some? <==> x.reply.code == 200 && link != Some(""))
            && (x.forward.Some? ==> IsClick(json, x.forward.value, link.value))
  {
    LetThrough(t, name, resource);
    ServedAsJudged(json, ParseRequest(t), id);
    Resources(resource);
    MethodNames(name);
    ReportReply(json, Judge(ParseRequest(t)).request, id);
  }

  /** The same of the request that the text is parsed to. */
  lemma ReportReply(json: JsonLibrary, r: HTTPRequest, id: uint32)
    ensures var x := Handle(json, ReportSearchResults, r, id);
            var link := json.clicked(r.body);
            && AnswersReport(json, x.reply, r.verb == POST, IsTyped(r.headers), link)
            && x.nextId == id
            && (x.forward.Some? <==> r.verb == POST && IsTyped(r.headers) && link.Some? && link != Some(""))
            && (x.forward.Some? ==> IsClick(json, x.forward.value, link.value))
  {
    if r.verb == POST && IsTyped(r.headers) && json.clicked(r.body).Some? {
      ReportTaken(json, r, json.clicked(r.body).value);
    } else {
      ReportRefused(json, r);
    }
  }

  lemma ReportRefused(json: JsonLibrary, r: HTTPRequest)
    requires !(r.verb == POST && IsTyped(r.headers) && json.clicked(r.body).Some?)
    ensures AnswersReport(json, Report(json, r).0, r.verb == POST, IsTyped(r.headers), json.clicked(r.body))
    ensures Report(json, r).1 == None
  {
  }

  lemma ReportTaken(json: JsonLibrary, r: HTTPRequest, link: string)
    requires r.verb == POST && IsTyped(r.headers) && json.clicked(r.body) == Some(link)
    ensures EmptyReply(Report(json, r).0, 200, "OK")
    ensures if link == "" then Report(json, r).1 == None
            else Report(json, r).1.Some? && IsClick(json, Report(json, r).1.value, link)
  {
    ClickIs(json, link);
  }

  lemma ClickIs(json: JsonLibrary, link: string)
    ensures IsClick(json, ClickRequest(json, link), link)
  {
  }

  // ---------------------------------------------------------------- texts

  /** The shortest texts that ask for a resource: one line and the blank line. */
  lemma {:induction false} BareRequest(name: string, resource: string)
    requires IsMethodName(name) && IsWord(resource) && Receivable(name + " " + resource + " HTTP/1.1\r\n\r\n")
    ensures Asks(name + " " + resource + " HTTP/1.1\r\n\r\n", name, resource)
  {
    var version := "HTTP/1.1";
    var line := name + (" " + resource + (" " + version + "\r"));
    var t := name + " " + resource + " HTTP/1.1\r\n\r\n";
    NameIsWord(name);
    VersionWord(version);
    LastWord(version);
    ThirdWord(name, resource, " " + version + "\r");
    WordsAreLineText(name, resource, version);
    LineAndBlank(name, resource, t, line);
    LineThenBlank(t, line);
    assert [name, resource] + [version] == [name, resource, version];
  }

  lemma NameIsWord(name: string)
    requires IsMethodName(name)
    ensures IsWord(name)
  {
    MethodNames(name);
    MethodTables(name, StringToMethod(name));
  }

  lemma LineAndBlank(name: string, resource: string, t: string, line: string)
    requires t == name + " " + resource + " HTTP/1.1\r\n\r\n"
    requires line == name + (" " + resource + (" " + "HTTP/1.1" + "\r"))
    ensures t == line + "\n" + "\r\n"
  {
    assert " HTTP/1.1\r\n\r\n" == " " + "HTTP/1.1" + "\r" + "\n" + "\r\n";
  }

  lemma LineThenBlank(t: string, line: string)
    requires AllIn(line, LineText) && t == line + "\n" + "\r\n"
    ensures FirstLine(t) == line && Behind(t) == ""
  {
    LineOf(line, "\r\n");
    assert t == line + ("\n" + "\r\n");
    FirstNewline(line, "\n" + "\r\n");
    BlankBlock("\r\n");
  }

  /** For one, asking for a query ID, character by character. */
  lemma {:induction false} QueryIdOnText(json: JsonLibrary, id: uint32)
    ensures var x := Serve(json, ParseRequest("GET /v0/GetQueryID HTTP/1.1\r\n\r\n"), id);
            && x.forward == None && x.nextId == (id + 1) % 4294967296
            && JsonReply(x.reply, 200, "OK", json.queryId(id))
  {
    var resource := "/v0/GetQueryID";
    ResourceIsWord(resource);
    var t := "GET" + " " + resource + " HTTP/1.1\r\n\r\n";
    assert t == "GET /v0/GetQueryID HTTP/1.1\r\n\r\n";
    BareRequest("GET", resource);
    AnswerOnText(json, t, "GET", resource, id);
  }

  lemma ResourceIsWord(resource: string)
    requires resource == "/v0/GetQueryID"
    ensures IsWord(resource)
  {
  }
}

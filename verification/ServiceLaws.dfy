/** What holds of every exchange, whatever bytes were received. */
module ServiceLaws {
  import opened Ascii
  import opened Text
  import opened Numbers
  import opened Messages
  import opened Syntax
  import opened Grammar
  import opened HeaderBlock
  import opened RoundTrip
  import opened Canonical
  import opened Cuts
  import opened Truncation
  import opened Transport
  import opened Service
  import opened Wrappers

  /** A JSON text is never all white space. */
  ghost predicate NeverBlank(json: JsonLibrary) {
    && (forall status, message :: Text.HasNext(json.error(status, message)))
    && Text.HasNext(json.suggestions) && Text.HasNext(json.queries)
    && (forall id :: Text.HasNext(json.queryId(id)))
    && (forall link :: Text.HasNext(json.clicks(link)))
  }

  lemma ServedAsJudged(json: JsonLibrary, parsed: Option<HTTPRequest>, id: uint32)
    ensures var x := Serve(json, parsed, id);
            match Judge(parsed)
            case Dispatch(route, r) => x == Handle(json, route, r, id)
            case Reject(code, _, _) => x.reply.code == code && x.forward == None && x.nextId == id
  {
  }

  // ---------------------------------------------------------------- content length

  /** A request with a body reaches a handler exactly when it is of version 1.1 and states a
      number whose low 32 bits are the length of the body. */
  lemma DispatchedIff(r: HTTPRequest)
    requires r.body != ""
    ensures Judge(Some(r)).Dispatch? <==>
              && r.version == HTTP_VERSION
              && "content-length" in r.headers
              && Stoul(r.headers["content-length"]).Some?
              && Truncate32(Stoul(r.headers["content-length"]).value) == |r.body|
    ensures Judge(Some(r)).Dispatch? ==> Judge(Some(r)) == Dispatch(HandlerMapper(r.resource), r)
  {
  }

  /** Of the printed numbers exactly those below 2^64 that agree with the length modulo 2^32
      are let through. */
  lemma StatedLength(r: HTTPRequest, n: nat)
    requires r.body != "" && r.version == HTTP_VERSION
    requires "content-length" in r.headers && r.headers["content-length"] == Decimal(n)
    ensures Judge(Some(r)).Dispatch? <==> n < TWO_TO_THE_64 && Truncate32(n) == |r.body|
  {
    assert Decimal(n) + "" == Decimal(n);
    StoulOfDecimal(n, "");
  }

  /** So a stated length is enforced exactly below 2^32 ... */
  lemma StatedLengthEnforced(r: HTTPRequest, n: uint32)
    requires r.body != "" && r.version == HTTP_VERSION
    requires "content-length" in r.headers && r.headers["content-length"] == Decimal(n)
    ensures Judge(Some(r)).Dispatch? <==> n == |r.body|
  {
    StatedLength(r, n);
    Truncate32Keeps(n);
  }

  /** ... and beyond that a wrong one can pass: a request is received, parsed and dispatched that
      declares five bytes as 4294967301. */
  lemma {:induction false} WrongLengthAccepted(verb: Method, resource: string, n: nat)
    requires verb != UNKNOWN && IsWord(resource) && n == 4294967301
    requires Receivable(RequestText(
      HTTPRequest(verb, resource, HTTP_VERSION, map["content-length" := Decimal(n)], "12345"),
      [Field("content-length", Decimal(n))]))
    ensures var r := HTTPRequest(verb, resource, HTTP_VERSION, map["content-length" := Decimal(n)], "12345");
            && Enumerates([Field("content-length", Decimal(n))], r.headers) && n != |r.body|
            && Judge(ParseRequest(RequestText(r, [Field("content-length", Decimal(n))])))
               == Dispatch(HandlerMapper(resource), r)
  {
    var r := HTTPRequest(verb, resource, HTTP_VERSION, map["content-length" := Decimal(n)], "12345");
    LengthNameIsClean();
    FiveBytes(r.body);
    VersionIsWord();
    DecimalIsClean(n);
    OneHeaderArrives(r, "content-length", Decimal(n));
    StatedLength(r, n);
    FiveBeyond(n);
    JudgedAsItIs(r);
  }

  /** A request with one header in lower case is parsed as it was sent. */
  lemma {:induction false} OneHeaderArrives(r: HTTPRequest, name: string, value: string)
    requires r.verb != UNKNOWN && IsWord(r.resource) && IsWord(r.version) && CleanBody(r.body)
    requires r.headers == map[name := value] && CleanField(Field(name, value)) && IsLower(name)
    ensures Enumerates([Field(name, value)], r.headers)
    ensures ParseRequest(RequestText(r, [Field(name, value)])) == Some(r)
  {
    var fields := [Field(name, value)];
    assert Enumerates(fields, r.headers);
    LowerCasedArrive(fields, r.headers);
    RequestRoundTrip(r, fields);
  }

  lemma LengthNameIsClean()
    ensures var name := "content-length"; AllIn(name, NameText) && AllIn(name, LineText) && IsLower(name)
  {
  }

  lemma FiveBytes(body: string)
    requires body == "12345"
    ensures |body| == 5 && Text.HasNext(body)
  {
    assert body[0] == '1';
    HasNextIff(body);
  }

  lemma FiveBeyond(n: nat)
    requires n == 4294967301
    ensures n < TWO_TO_THE_64 && Truncate32(n) == 5
  {
  }

  /** The header that the JSON constructors set. */
  ghost predicate StatesItsLength(r: HTTPRequest) {
    exists n :: n in r.headers && Lower(n) == "content-length" && r.headers[n] == Decimal(|r.body|)
  }

  lemma LengthArrives(r: HTTPRequest, fields: seq<Field>)
    requires Enumerates(fields, r.headers) && Agreeing(r.headers) && StatesItsLength(r)
    ensures "content-length" in Arrived(fields) && Arrived(fields)["content-length"] == Decimal(|r.body|)
  {
    ArrivedIs(fields, r.headers);
  }

  /** A sendable request that states its own length, once printed, in any header order, and
      parsed, reaches the handler of its resource with its body intact. */
  lemma {:induction false} SelfConsistent(r: HTTPRequest, fields: seq<Field>)
    requires SendableRequest(r) && Agreeing(r.headers) && Enumerates(fields, r.headers)
    requires StatesItsLength(r) && r.version == HTTP_VERSION && r.body != ""
    requires Receivable(RequestText(r, fields))
    ensures Judge(ParseRequest(RequestText(r, fields)))
         == Dispatch(HandlerMapper(r.resource), r.(headers := Arrived(fields)))
  {
    RequestRoundTrip(r, fields);
    LengthArrives(r, fields);
    BodyIsShorter(r, fields);
    var arrived := r.(headers := Arrived(fields));
    StatedLengthEnforced(arrived, |r.body|);
    JudgedAsItIs(arrived);
  }

  /** Cut short anywhere, such a request never reaches a handler with a shortened body: a
      handler sees the body that was sent, or none. */
  lemma {:induction false} TruncationDetected(r: HTTPRequest, fields: seq<Field>, p: string)
    requires SendableRequest(r) && Agreeing(r.headers) && Enumerates(fields, r.headers)
    requires StatesItsLength(r) && Receivable(RequestText(r, fields))
    requires p <= RequestText(r, fields)
    ensures match Judge(ParseRequest(p))
            case Reject(_, _, _) => true
            case Dispatch(_, q) => q.body == "" || (p == RequestText(r, fields) && q.body == r.body)
  {
    PrefixParsed(r, fields, p);
    if ParseRequest(p).Some? {
      var q := ParseRequest(p).value;
      JudgedAsItIs(q);
      if |p| >= |Head(r, fields)| {
        BehindHead(r, fields, p);
        if p != RequestText(r, fields) && q.body != "" {
          CutBodyRejected(r, fields, q);
        }
      }
    }
  }

  /** Of a cut body only white space, which counts as no body, gets through. */
  lemma {:induction false} CutBodyRejected(r: HTTPRequest, fields: seq<Field>, q: HTTPRequest)
    requires Agreeing(r.headers) && Enumerates(fields, r.headers) && StatesItsLength(r)
    requires Receivable(RequestText(r, fields))
    requires q.headers == Arrived(fields) && q.body != "" && |q.body| < |r.body|
    ensures Judge(Some(q)).Reject? && Judge(Some(q)).code == if q.version == HTTP_VERSION then 400 else 505
  {
    LengthArrives(r, fields);
    BodyIsShorter(r, fields);
    WrongLengthRejected(q, |r.body|);
  }

  /** Which cuts get through at all.  A prefix of such a request is dispatched exactly when it
      reaches the end of the version and stops in the head, or in white space at the start of
      the body, or not at all; the handler then sees the headers that are left and no body,
      unless nothing was cut.  The others are turned away with 400, or with 505 for a cut that
      left a version behind. */
  lemma {:induction false} DispatchedPrefixIff(r: HTTPRequest, fields: seq<Field>, p: string)
    requires SendableRequest(r) && Agreeing(r.headers) && Enumerates(fields, r.headers)
    requires r.version == HTTP_VERSION && (r.body == "" || StatesItsLength(r))
    requires Receivable(RequestText(r, fields)) && p <= RequestText(r, fields)
    ensures Judge(ParseRequest(p)).Dispatch? <==>
              && |p| >= |RequestWords(r)|
              && (p == RequestText(r, fields) || |p| < |Head(r, fields)| || !Text.HasNext(p[|Head(r, fields)|..]))
    ensures Judge(ParseRequest(p)).Dispatch? ==>
              Judge(ParseRequest(p))
              == Dispatch(HandlerMapper(r.resource),
                          HTTPRequest(r.verb, r.resource, r.version, HeaderMap(AfterLine(p)),
                                      if p == RequestText(r, fields) then r.body else ""))
    ensures Judge(ParseRequest(p)).Reject? ==>
              Judge(ParseRequest(p)).code == if ParseRequest(p).Some? && |p| < |RequestWords(r)| then 505 else 400
  {
    PrefixParsed(r, fields, p);
    RequestAccepted(p);
    if |p| < |Head(r, fields)| {
      TextIsHeadAndBody(r, fields);
      if ParseRequest(p).Some? {
        BodylessJudged(ParseRequest(p).value);
      }
    } else {
      DispatchedCutInBody(r, fields, p, ParseRequest(p).value);
    }
  }

  lemma BodylessJudged(q: HTTPRequest)
    requires q.body == ""
    ensures if q.version == HTTP_VERSION then Judge(Some(q)) == Dispatch(HandlerMapper(q.resource), q)
            else Judge(Some(q)).Reject? && Judge(Some(q)).code == 505
  {
  }

  lemma {:induction false} DispatchedCutInBody(r: HTTPRequest, fields: seq<Field>, p: string, q: HTTPRequest)
    requires SendableRequest(r) && Agreeing(r.headers) && Enumerates(fields, r.headers)
    requires r.version == HTTP_VERSION && (r.body == "" || StatesItsLength(r))
    requires Receivable(RequestText(r, fields)) && p <= RequestText(r, fields)
    requires |p| >= |Head(r, fields)| && ParseRequest(p) == Some(q)
    requires q == r.(headers := Arrived(fields), body := BodyOf(p[|Head(r, fields)|..]))
    ensures Judge(Some(q)).Dispatch? <==> p == RequestText(r, fields) || !Text.HasNext(p[|Head(r, fields)|..])
    ensures Judge(Some(q)).Dispatch? ==>
              && Judge(Some(q)) == Dispatch(HandlerMapper(r.resource), q)
              && q.body == if p == RequestText(r, fields) then r.body else ""
    ensures Judge(Some(q)).Reject? ==> Judge(Some(q)).code == 400
  {
    BehindHead(r, fields, p);
    if !Text.HasNext(p[|Head(r, fields)|..]) {
      BodylessJudged(q);
    } else if p == RequestText(r, fields) {
      RequestRoundTrip(r, fields);
      SelfConsistent(r, fields);
    } else {
      CutBodyRejected(r, fields, q);
    }
  }

  /** For one, the cut right behind the version: whatever the request was, its resource is served
      as if it had been asked for without headers and without a body. */
  lemma {:induction false} CutBehindVersion(r: HTTPRequest)
    requires r.verb != UNKNOWN && IsWord(r.resource) && r.version == HTTP_VERSION
    requires Receivable(RequestWords(r))
    ensures Judge(ParseRequest(RequestWords(r)))
         == Dispatch(HandlerMapper(r.resource), HTTPRequest(r.verb, r.resource, r.version, map[], ""))
  {
    VersionIsWord();
    WordsAndEnd(r);
    CutInRequestLine(r, RequestWords(r));
    BodylessJudged(HTTPRequest(r.verb, r.resource, r.version, map[], ""));
  }

  lemma WrongLengthRejected(q: HTTPRequest, n: uint32)
    requires q.body != "" && |q.body| != n
    requires "content-length" in q.headers && q.headers["content-length"] == Decimal(n)
    ensures Judge(Some(q)).Reject? && Judge(Some(q)).code == if q.version == HTTP_VERSION then 400 else 505
  {
    if q.version == HTTP_VERSION {
      StatedLengthEnforced(q, n);
    }
  }

  lemma JudgedAsItIs(q: HTTPRequest)
    ensures Judge(Some(q)).Dispatch? ==> Judge(Some(q)) == Dispatch(HandlerMapper(q.resource), q)
  {
    if q.body != "" {
      DispatchedIff(q);
    }
  }

  lemma ContentPrefix()
    ensures Lower("Content-") == "content-"
  {
    var a, b := Lower("Cont"), Lower("ent-");
    assert a[0] == 'c' && a[1] == 'o' && a[2] == 'n' && a[3] == 't';
    assert b[0] == 'e' && b[1] == 'n' && b[2] == 't' && b[3] == '-';
    LowerAppend("Cont", "ent-");
    assert "Cont" + "ent-" == "Content-" && a + b == "content-";
  }

  lemma LengthSuffix()
    ensures Lower("Length") == "length"
  {
    var l := Lower("Length");
    assert l[0] == 'l' && l[1] == 'e' && l[2] == 'n' && l[3] == 'g' && l[4] == 't' && l[5] == 'h';
  }

  lemma LengthNameParts()
    ensures "Content-" + "Length" == "Content-Length" && "content-" + "length" == "content-length"
  {
  }

  lemma {:induction false} LengthName()
    ensures Lower("Content-Length") == "content-length"
  {
    LengthNameParts();
    ContentPrefix();
    LengthSuffix();
    LowerAppend("Content-", "Length");
  }

  lemma DecimalIsClean(n: nat)
    ensures CleanValue(Decimal(n))
  {
    var d := Decimal(n);
    assert forall i :: 0 <= i < |d| ==> InClass(d[i], Digits);
  }

  lemma TypeFieldIsClean()
    ensures CleanField(Field("Content-Type", "application/json"))
  {
  }

  lemma LengthFieldIsClean(n: nat)
    ensures CleanField(Field("Content-Length", Decimal(n)))
  {
    DecimalIsClean(n);
  }

  lemma JsonNamesDiffer()
    ensures Lower("Content-Type") != Lower("Content-Length")
  {
    assert |Lower("Content-Type")| == 12 && |Lower("Content-Length")| == 14;
  }

  /** Clean entries whose names differ by more than letter case. */
  lemma CleanPair(a: string, u: string, b: string, v: string)
    requires CleanField(Field(a, u)) && CleanField(Field(b, v)) && Lower(a) != Lower(b)
    ensures var h := map[a := u, b := v]; CleanHeaders(h) && Agreeing(h) && b in h && h[b] == v
  {
  }

  lemma CleanTriple(a: string, u: string, b: string, v: string, c: string, w: string)
    requires CleanField(Field(a, u)) && CleanField(Field(b, v)) && CleanField(Field(c, w))
    requires Lower(a) != Lower(b) && Lower(c) != Lower(a) && Lower(c) != Lower(b)
    ensures var h := map[a := u, b := v][c := w]; CleanHeaders(h) && Agreeing(h) && b in h && h[b] == v
  {
    CleanPair(a, u, b, v);
    CleanMore(map[a := u, b := v], c, w);
  }

  lemma CleanMore(h: Headers, c: string, w: string)
    requires CleanHeaders(h) && Agreeing(h) && CleanField(Field(c, w))
    requires forall n <- h :: Lower(n) != Lower(c)
    ensures CleanHeaders(h[c := w]) && Agreeing(h[c := w])
  {
  }

  lemma {:induction false} JsonHeadersAreClean(dumped: string)
    ensures CleanHeaders(JsonHeaders(dumped)) && Agreeing(JsonHeaders(dumped))
    ensures "Content-Length" in JsonHeaders(dumped) && JsonHeaders(dumped)["Content-Length"] == Decimal(|dumped|)
  {
    TypeFieldIsClean();
    LengthFieldIsClean(|dumped|);
    JsonNamesDiffer();
    CleanPair("Content-Type", "application/json", "Content-Length", Decimal(|dumped|));
  }

  lemma VersionIsWord()
    ensures IsWord(HTTP_VERSION)
  {
  }

  /** The JSON constructor builds such requests. */
  lemma {:induction false} JsonRequestsStateTheirLength(verb: Method, resource: string, dumped: string)
    requires verb != UNKNOWN && IsWord(resource) && Text.HasNext(dumped)
    ensures var r := JsonRequest(verb, resource, dumped);
            && SendableRequest(r) && Agreeing(r.headers) && StatesItsLength(r)
            && r.version == HTTP_VERSION && r.body == dumped != ""
  {
    var r := JsonRequest(verb, resource, dumped);
    JsonHeadersAreClean(dumped);
    VersionIsWord();
    LengthName();
    assert "Content-Length" in r.headers;
  }

  lemma TypeSuffix()
    ensures Lower("Type") == "type"
  {
    var l := Lower("Type");
    assert l[0] == 't' && l[1] == 'y' && l[2] == 'p' && l[3] == 'e';
  }

  lemma TypeNameParts()
    ensures "Content-" + "Type" == "Content-Type" && "content-" + "type" == "content-type"
  {
  }

  lemma {:induction false} TypeName()
    ensures Lower("Content-Type") == "content-type"
  {
    TypeNameParts();
    ContentPrefix();
    TypeSuffix();
    LowerAppend("Content-", "Type");
  }

  /** The headers of the JSON constructors as they arrive. */
  function ArrivedJson(body: string): Headers {
    map["content-type" := "application/json", "content-length" := Decimal(|body|)]
  }

  lemma TwoArrive(fields: seq<Field>, a: string, u: string, b: string, v: string)
    requires Enumerates(fields, map[a := u, b := v]) && Lower(a) != Lower(b)
    ensures Arrived(fields) == map[Lower(a) := u, Lower(b) := v]
  {
    var h := map[a := u, b := v];
    assert a in h && b in h;
    ArrivedIs(fields, h);
    TwoEntries(Arrived(fields), Lower(a), u, Lower(b), v);
  }

  lemma TwoEntries(m: Headers, a: string, u: string, b: string, v: string)
    requires a in m && b in m && a != b && m[a] == u && m[b] == v
    requires forall k <- m :: k == a || k == b
    ensures m == map[a := u, b := v]
  {
  }

  lemma {:induction false} JsonArrives(body: string, fields: seq<Field>)
    requires Enumerates(fields, JsonHeaders(body))
    ensures Arrived(fields) == ArrivedJson(body)
  {
    JsonNamesDiffer();
    TypeName();
    LengthName();
    TwoArrive(fields, "Content-Type", "application/json", "Content-Length", Decimal(|body|));
  }

  /** From the JSON constructor to the handler: the request is printed with its headers in any
      order, parsed, and reaches the handler of its resource with its body byte for byte, and
      with the content type and the length that the constructor set. */
  lemma {:induction false} JsonRequestServed(verb: Method, resource: string, dumped: string, fields: seq<Field>)
    requires verb != UNKNOWN && IsWord(resource) && Text.HasNext(dumped)
    requires Enumerates(fields, JsonRequest(verb, resource, dumped).headers)
    requires Receivable(RequestText(JsonRequest(verb, resource, dumped), fields))
    ensures Judge(ParseRequest(RequestText(JsonRequest(verb, resource, dumped), fields)))
         == Dispatch(HandlerMapper(resource), JsonRequest(verb, resource, dumped).(headers := ArrivedJson(dumped)))
  {
    JsonRequestsStateTheirLength(verb, resource, dumped);
    SelfConsistent(JsonRequest(verb, resource, dumped), fields);
    JsonArrives(dumped, fields);
  }

  /** A report that was posted as JSON passes the checks of its handler: it is answered with 200
      exactly if the JSON library finds the clicked link in it, and the click is then due to be
      forwarded unless the link is empty. */
  lemma {:induction false} ReportServed(json: JsonLibrary, resource: string, dumped: string, fields: seq<Field>,
                                        id: uint32)
    requires HandlerMapper(resource) == ReportSearchResults && IsWord(resource) && Text.HasNext(dumped)
    requires Enumerates(fields, JsonRequest(POST, resource, dumped).headers)
    requires Receivable(RequestText(JsonRequest(POST, resource, dumped), fields))
    ensures var x := Serve(json, ParseRequest(RequestText(JsonRequest(POST, resource, dumped), fields)), id);
            match json.clicked(dumped)
            case None =>
              x == Exchange(ErrorResponse(json, 400, "Bad Request", "Improper format of request body."), None, id)
            case Some(link) =>
              x == Exchange(PlainResponse(200, "OK"), if link == "" then None else Some(ClickRequest(json, link)), id)
  {
    JsonRequestServed(POST, resource, dumped, fields);
    ReportAnswered(json, JsonRequest(POST, resource, dumped).(headers := ArrivedJson(dumped)), id);
  }

  lemma ReportAnswered(json: JsonLibrary, r: HTTPRequest, id: uint32)
    requires r.verb == POST && r.headers == ArrivedJson(r.body)
    ensures Handle(json, ReportSearchResults, r, id)
         == match json.clicked(r.body)
            case None =>
              Exchange(ErrorResponse(json, 400, "Bad Request", "Improper format of request body."), None, id)
            case Some(link) =>
              Exchange(PlainResponse(200, "OK"), if link == "" then None else Some(ClickRequest(json, link)), id)
  {
    TypeInJson(r.body);
  }

  lemma TypeInJson(body: string)
    ensures "content-type" in ArrivedJson(body) && ArrivedJson(body)["content-type"] == "application/json"
  {
    assert "content-type" != "content-length" by {
      assert |"content-type"| == 12 && |"content-length"| == 14;
    }
  }

  // ---------------------------------------------------------------- replies

  /** A reply that can be sent, and whose headers arrive alike in any order. */
  ghost predicate Readable(r: HTTPResponse) {
    SendableResponse(r) && Agreeing(r.headers) && (r.body == "" ==> r.headers == map[])
  }

  lemma {:induction false} JsonReplyIsReadable(code: uint32, status: string, dumped: string)
    requires code != 0 && status != "" && CleanValue(status) && Text.HasNext(dumped)
    ensures Readable(JsonResponse(code, status, dumped))
  {
    JsonHeadersAreClean(dumped);
    VersionIsWord();
  }

  lemma OKIsReadable()
    ensures CleanValue("OK") && Readable(PlainResponse(200, "OK"))
  {
    VersionIsWord();
  }

  lemma StatusesAreClean()
    ensures CleanValue("Bad Request") && CleanValue("Not Found") && CleanValue("Method Not Allowed")
    ensures CleanValue("Length Required") && CleanValue("HTTP Version Not Supported")
  {
  }

  /** The replies of `v0reportSearchResults`, with the message of the error if it is one. */
  lemma ReportReplies(json: JsonLibrary, r: HTTPRequest) returns (message: string)
    ensures || Report(json, r).0 == ErrorResponse(json, 405, "Method Not Allowed", message)
            || Report(json, r).0 == ErrorResponse(json, 400, "Bad Request", message)
            || Report(json, r).0 == PlainResponse(200, "OK")
  {
    if r.verb != POST {
      return "Use POST for this API call";
    } else if "content-type" !in r.headers || r.headers["content-type"] != "application/json" {
      return "Missing / Incorrect `Content-Type` header (expected `application/json`)";
    } else {
      return "Improper format of request body.";
    }
  }

  /** Every handler's reply can be sent. */
  lemma {:induction false} HandlerRepliesAreReadable(json: JsonLibrary, route: Route, r: HTTPRequest, id: uint32)
    requires NeverBlank(json)
    ensures Readable(Handle(json, route, r, id).reply)
  {
    OKIsReadable();
    StatusesAreClean();
    match route
    case GetAutofill => JsonReplyIsReadable(200, "OK", json.suggestions);
    case GetQueryID => JsonReplyIsReadable(200, "OK", json.queryId(id));
    case ReportSearchResults =>
      var message := ReportReplies(json, r);
      JsonReplyIsReadable(405, "Method Not Allowed", json.error("Method Not Allowed", message));
      JsonReplyIsReadable(400, "Bad Request", json.error("Bad Request", message));
    case SubmitFeedback =>
    case GetQueryData => JsonReplyIsReadable(200, "OK", json.queries);
    case ReportMetrics =>
    case NotFound =>
      JsonReplyIsReadable(404, "Not Found", json.error("Not Found", "Resource (API function) not found"));
  }

  /** Whatever was received, the reply can be sent ... */
  lemma {:induction false} ServedReplyIsReadable(json: JsonLibrary, parsed: Option<HTTPRequest>, id: uint32)
    requires NeverBlank(json)
    ensures Readable(Serve(json, parsed, id).reply)
  {
    match Judge(parsed)
    case Dispatch(route, r) =>
      HandlerRepliesAreReadable(json, route, r, id);
    case Reject(code, status, message) =>
      StatusesAreClean();
      JsonReplyIsReadable(code, status, json.error(status, message));
  }

  /** ... and a client that receives all of it, with the headers in any order, parses exactly
      that reply. */
  lemma {:induction false} RepliesAreReadable(json: JsonLibrary, parsed: Option<HTTPRequest>, id: uint32,
                                              fields: seq<Field>)
    requires NeverBlank(json) && Enumerates(fields, Serve(json, parsed, id).reply.headers)
    requires Receivable(ResponseText(Serve(json, parsed, id).reply, fields))
    ensures var reply := Serve(json, parsed, id).reply;
            && Agreeing(reply.headers)
            && ParseResponse(ResponseText(reply, fields)) == Some(reply.(headers := Arrived(fields)))
  {
    ServedReplyIsReadable(json, parsed, id);
    ResponseRoundTrip(Serve(json, parsed, id).reply, fields);
  }

  /** A click is forwarded exactly when a well-formed report of one was posted to its resource;
      the reply is then 200, and the forwarded request is one that states its own length. */
  lemma ForwardIff(json: JsonLibrary, parsed: Option<HTTPRequest>, id: uint32)
    ensures var x := Serve(json, parsed, id);
            x.forward.Some? <==>
              && Judge(parsed).Dispatch? && Judge(parsed).route == ReportSearchResults
              && var r := Judge(parsed).request;
              && r.verb == POST
              && "content-type" in r.headers && r.headers["content-type"] == "application/json"
              && json.clicked(r.body).Some? && json.clicked(r.body).value != ""
    ensures var x := Serve(json, parsed, id);
            x.forward.Some? ==>
              && x.reply == PlainResponse(200, "OK")
              && x.forward == Some(ClickRequest(json, json.clicked(Judge(parsed).request.body).value))
  {
  }

  lemma {:induction false} ClickHeadersAreClean(dumped: string)
    ensures var h := JsonHeaders(dumped)["Host" := "lspt-link-analysis.cs.rpi.edu:1234"];
            CleanHeaders(h) && Agreeing(h) && "Content-Length" in h && h["Content-Length"] == Decimal(|dumped|)
  {
    HostIsClean();
    TypeFieldIsClean();
    LengthFieldIsClean(|dumped|);
    JsonNamesDiffer();
    HostNameDiffers();
    CleanTriple("Content-Type", "application/json", "Content-Length", Decimal(|dumped|),
                "Host", "lspt-link-analysis.cs.rpi.edu:1234");
  }

  lemma HostNameDiffers()
    ensures Lower("Host") != Lower("Content-Type") && Lower("Host") != Lower("Content-Length")
  {
    assert |Lower("Host")| == 4 && |Lower("Content-Type")| == 12 && |Lower("Content-Length")| == 14;
  }

  lemma {:induction false} ClicksStateTheirLength(json: JsonLibrary, link: string)
    requires NeverBlank(json)
    ensures var r := ClickRequest(json, link);
            && SendableRequest(r) && Agreeing(r.headers) && StatesItsLength(r)
            && r.version == HTTP_VERSION && r.body != ""
  {
    var r := ClickRequest(json, link);
    ClickResourceIsWord();
    JsonRequestsStateTheirLength(POST, "/evaluation/update_metadata", json.clicks(link));
    ClickHeadersAreClean(json.clicks(link));
    LengthName();
    assert "Content-Length" in r.headers;
  }

  /** So a server of this kind receives a forwarded click with its body intact. */
  lemma {:induction false} ClickArrives(json: JsonLibrary, link: string, fields: seq<Field>)
    requires NeverBlank(json)
    requires Enumerates(fields, ClickRequest(json, link).headers)
    requires Receivable(RequestText(ClickRequest(json, link), fields))
    ensures var click := ClickRequest(json, link);
            Judge(ParseRequest(RequestText(click, fields)))
            == Dispatch(HandlerMapper(click.resource), click.(headers := Arrived(fields)))
    ensures ClickRequest(json, link).verb == POST && ClickRequest(json, link).body == json.clicks(link)
  {
    ClicksStateTheirLength(json, link);
    SelfConsistent(ClickRequest(json, link), fields);
  }

  lemma ClickResourceIsWord()
    ensures IsWord("/evaluation/update_metadata")
  {
  }

  lemma HostIsClean()
    ensures CleanField(Field("Host", "lspt-link-analysis.cs.rpi.edu:1234"))
  {
  }

  /** The verdict on a received text, told from its lines.  Not three words led by a method: 400.
      Another version: 505.  Something other than white space behind the header block without a
      stated length: 411; with one that is no number, or whose low 32 bits are not the length of
      what is behind the block: 400.  Everything else is dispatched. */
  lemma {:induction false} VerdictOnText(t: string)
    requires Receivable(t)
    ensures var start := RequestLineOf(FirstLine(t));
            var headers, rest := HeaderMap(AfterLine(t)), HeaderRest(AfterLine(t));
            var stated := if "content-length" in headers then Stoul(headers["content-length"]) else None;
            var verdict := Judge(ParseRequest(t));
            var spoken := start.Some? && start.value.version == HTTP_VERSION;
            var fits := stated.Some? && Truncate32(stated.value) == |rest|;
            && (verdict.Dispatch? <==> spoken && (Text.HasNext(rest) ==> fits))
            && (verdict.Reject? ==>
                  && (verdict.code == 505 <==> start.Some? && !spoken)
                  && (verdict.code == 411 <==> spoken && "content-length" !in headers)
                  && (verdict.code == 400 <==> start == None || (spoken && "content-length" in headers)))
            && (verdict.Dispatch? ==>
                  verdict == Dispatch(HandlerMapper(start.value.resource),
                               HTTPRequest(start.value.verb, start.value.resource, start.value.version, headers,
                                           if Text.HasNext(rest) then rest else "")))
  {
    RequestAccepted(t);
    if ParseRequest(t).Some? {
      VerdictOnRequest(ParseRequest(t).value);
    }
  }

  lemma VerdictOnRequest(r: HTTPRequest)
    ensures var stated := if "content-length" in r.headers then Stoul(r.headers["content-length"]) else None;
            var fits := stated.Some? && Truncate32(stated.value) == |r.body|;
            match Judge(Some(r))
            case Dispatch(route, q) =>
              route == HandlerMapper(r.resource) && q == r && r.version == HTTP_VERSION && (r.body == "" || fits)
            case Reject(code, _, _) =>
              if r.version != HTTP_VERSION then code == 505
              else r.body != "" && !fits && code == if "content-length" !in r.headers then 411 else 400
  {
  }

  /** A request for a query ID is answered with the current one, and only it advances it. */
  lemma IdServed(json: JsonLibrary, parsed: Option<HTTPRequest>, id: uint32)
    ensures var x := Serve(json, parsed, id);
            if Judge(parsed).Dispatch? && Judge(parsed).route == GetQueryID
            then x.reply == JsonResponse(200, "OK", json.queryId(id)) && x.nextId == Increment32(id)
            else x.nextId == id
  {
  }
}

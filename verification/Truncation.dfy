/**
 What a receiver makes of a message that was cut short, by a send that gave up or by a peer
 that was too slow: exactly what every prefix of a printed message parses to, and exactly how
 much may be missing for that to be the message itself.
 */
module Truncation {
  import opened Text
  import opened Messages
  import opened Syntax
  import opened Grammar
  import opened HeaderBlock
  import opened RoundTrip
  import opened Cuts
  import opened Wrappers

  // ---------------------------------------------------------------- a cut request

  /** The printed request up to and including its blank line. */
  function Head(r: HTTPRequest, fields: seq<Field>): string {
    RequestLine(r) + (FieldsText(fields) + "\r\n")
  }

  lemma TextIsHeadAndBody(r: HTTPRequest, fields: seq<Field>)
    ensures RequestText(r, fields) == Head(r, fields) + r.body
  {
    Assoc(FieldsText(fields), "\r\n", r.body);
    Assoc(RequestLine(r), FieldsText(fields) + "\r\n", r.body);
  }

  /** Cut in its request line: nothing, a version that is too short, or no headers. */
  lemma CutInRequestLine(r: HTTPRequest, p: string)
    requires r.verb != UNKNOWN && IsWord(r.resource) && IsWord(r.version)
    requires p <= RequestLine(r) && |p| < |RequestLine(r)|
    ensures AfterLine(p) == ""
    ensures |p| >= |RequestWords(r)| ==>
              ParseRequest(p) == Some(HTTPRequest(r.verb, r.resource, r.version, map[], ""))
    ensures |p| < |RequestWords(r)| && ParseRequest(p).Some? ==>
              var v := ParseRequest(p).value.version;
              ParseRequest(p) == Some(HTTPRequest(r.verb, r.resource, v, map[], "")) && v < r.version
  {
    CutRequestLine(r, p);
    OneLineRequest(p);
    LastLineOf(p);
  }

  /** Cut behind its request line: the headers and the body are those of the block that is left. */
  lemma BehindRequestLine(r: HTTPRequest, h: string)
    requires r.verb != UNKNOWN && IsWord(r.resource) && IsWord(r.version)
    ensures var p := RequestLine(r) + h;
            && AfterLine(p) == h
            && ParseRequest(p) == Some(HTTPRequest(r.verb, r.resource, r.version, HeaderMap(h), BodyOf(HeaderRest(h))))
  {
    RequestLineBodyIs(r);
    RequestLineEnds(r);
    LineOf(RequestLineBody(r), h);
    PrintedRequestLine(r, h);
    var l := RequestStart(r.verb, r.resource, r.version);
    RequestFrom(RequestLine(r) + h, l, h, HeaderMap(h), BodyOf(HeaderRest(h)));
  }

  /** Cut in its head behind the third word: the headers are those that are left. */
  lemma {:induction false} CutInHead(r: HTTPRequest, fields: seq<Field>, p: string)
    requires SendableRequest(r) && Enumerates(fields, r.headers)
    requires p <= Head(r, fields) && |RequestWords(r)| <= |p| < |Head(r, fields)|
    ensures ParseRequest(p) == Some(HTTPRequest(r.verb, r.resource, r.version, HeaderMap(AfterLine(p)), ""))
  {
    PrefixOf(p, RequestLine(r), FieldsText(fields) + "\r\n");
    if |p| < |RequestLine(r)| {
      CutInRequestLine(r, p);
      NoBlock();
    } else {
      EnumeratedFieldsAreClean(fields, r.headers);
      BehindRequestLine(r, p[|RequestLine(r)|..]);
      CutHeaders(fields, p[|RequestLine(r)|..]);
    }
  }

  /** Cut in its body: the headers are complete. */
  lemma {:induction false} CutInBody(r: HTTPRequest, fields: seq<Field>, part: string)
    requires SendableRequest(r) && Enumerates(fields, r.headers)
    ensures ParseRequest(Head(r, fields) + part) == Some(r.(headers := Arrived(fields), body := BodyOf(part)))
  {
    EnumeratedFieldsAreClean(fields, r.headers);
    PrintedHeaders(fields, part);
    TextIsHeadAndBody(r.(body := part), fields);
    BehindRequestLine(r, FieldsText(fields) + ("\r\n" + part));
  }

  lemma WordsInHead(r: HTTPRequest, fields: seq<Field>)
    ensures RequestWords(r) <= RequestLine(r) <= Head(r, fields)
    ensures |Head(r, fields)| == |RequestWords(r)| + 4 + |FieldsText(fields)|
  {
    WordsAndEnd(r);
  }

  lemma PrefixOfPrefix(p: string, a: string, t: string)
    requires p <= t && a <= t && |p| <= |a|
    ensures p <= a
  {
    assert p == t[..|p|] && a == t[..|a|];
  }

  /** What every prefix of a sendable request parses to.  Cut before the end of its third word it
      is nothing, or has a version that is too short.  From there to the end of its head it is a
      request without a body, and with the headers of the part that is left.  After that its
      headers are complete, and its body is the part that is left, if not all white space. */
  lemma {:induction false} PrefixParsed(r: HTTPRequest, fields: seq<Field>, p: string)
    requires SendableRequest(r) && Enumerates(fields, r.headers)
    requires p <= RequestText(r, fields)
    ensures if |p| < |RequestWords(r)| then
              ParseRequest(p).Some? ==>
                var v := ParseRequest(p).value.version;
                ParseRequest(p) == Some(HTTPRequest(r.verb, r.resource, v, map[], "")) && v < r.version
            else if |p| < |Head(r, fields)| then
              ParseRequest(p) == Some(HTTPRequest(r.verb, r.resource, r.version, HeaderMap(AfterLine(p)), ""))
            else
              ParseRequest(p) == Some(r.(headers := Arrived(fields), body := BodyOf(p[|Head(r, fields)|..])))
  {
    TextIsHeadAndBody(r, fields);
    WordsInHead(r, fields);
    var head := Head(r, fields);
    PrefixOf(p, head, r.body);
    if |p| >= |head| {
      CutInBody(r, fields, p[|head|..]);
    } else {
      PrefixOfPrefix(p, head, RequestText(r, fields));
      if |p| >= |RequestWords(r)| {
        CutInHead(r, fields, p);
      } else {
        PrefixOfPrefix(p, RequestLine(r), head);
        CutInRequestLine(r, p);
      }
    }
  }

  lemma BodyIsShorter(r: HTTPRequest, fields: seq<Field>)
    ensures |r.body| <= |RequestText(r, fields)|
  {
  }

  lemma BehindHead(r: HTTPRequest, fields: seq<Field>, p: string)
    requires p <= RequestText(r, fields) && |p| >= |Head(r, fields)|
    ensures var part := p[|Head(r, fields)|..];
            part <= r.body && (part == r.body <==> p == RequestText(r, fields))
            && (part != r.body ==> |part| < |r.body|)
  {
    TextIsHeadAndBody(r, fields);
    PrefixOf(p, Head(r, fields), r.body);
  }

  /** So a receiver that sees a body sees the headers that were sent, and a prefix of the body. */
  lemma {:induction false} BodyLeft(r: HTTPRequest, fields: seq<Field>, p: string)
    requires SendableRequest(r) && Enumerates(fields, r.headers)
    requires p <= RequestText(r, fields)
    ensures match ParseRequest(p)
            case None => true
            case Some(q) =>
              q.body != "" ==> q == r.(headers := Arrived(fields), body := q.body) && q.body <= r.body
  {
    PrefixParsed(r, fields, p);
    if |p| >= |Head(r, fields)| {
      BehindHead(r, fields, p);
    }
  }

  /** How much may be missing from the end of a request for the peer to parse it all the same. */
  function RequestSlack(r: HTTPRequest, fields: seq<Field>): nat {
    if r.body != "" then 0 else Slack(fields)
  }

  lemma PartOfBody(body: string, part: string)
    requires part <= body && CleanBody(body)
    ensures BodyOf(part) == body <==> part == body
  {
  }

  /** The peer parses the request that was sent exactly when no more than the slack is missing:
      nothing at all from a body, and from a request without one the line ends, more or less.
      With colliding names the loss of a field might not show; a body always shows. */
  lemma {:induction false} RequestSurvivesIff(r: HTTPRequest, fields: seq<Field>, p: string)
    requires SendableRequest(r) && Enumerates(fields, r.headers)
    requires r.body == "" ==> CaseDistinct(r.headers)
    requires p <= RequestText(r, fields)
    ensures ParseRequest(p) == Some(r.(headers := Arrived(fields)))
       <==> |RequestText(r, fields)| - |p| <= RequestSlack(r, fields)
  {
    TextIsHeadAndBody(r, fields);
    WordsInHead(r, fields);
    var head := Head(r, fields);
    PrefixOf(p, head, r.body);
    PrefixParsed(r, fields, p);
    if |p| >= |head| {
      PartOfBody(r.body, p[|head|..]);
    } else {
      PrefixOfPrefix(p, head, RequestText(r, fields));
      if r.body == "" {
        CutHeadIff(r, fields, p);
      }
    }
  }

  lemma {:induction false} CutHeadIff(r: HTTPRequest, fields: seq<Field>, p: string)
    requires SendableRequest(r) && Enumerates(fields, r.headers) && CaseDistinct(r.headers)
    requires p <= Head(r, fields)
    ensures |Head(r, fields)| - |p| <= Slack(fields)
       <==> |p| >= |RequestWords(r)| && HeaderMap(AfterLine(p)) == Arrived(fields)
  {
    WordsInHead(r, fields);
    if |p| < |RequestLine(r)| {
      PrefixOfPrefix(p, RequestLine(r), Head(r, fields));
      CutInRequestLine(r, p);
      ShortCutIff(fields);
    } else {
      EnumeratedFieldsAreClean(fields, r.headers);
      EnumeratedNamesDistinct(fields, r.headers);
      PrefixOf(p, RequestLine(r), FieldsText(fields) + "\r\n");
      BehindRequestLine(r, p[|RequestLine(r)|..]);
      CutBlockIff(fields, p[|RequestLine(r)|..]);
    }
  }

  lemma ShortCutIff(fields: seq<Field>)
    ensures HeaderMap("") == Arrived(fields) <==> fields == []
    ensures fields != [] ==> |FieldsText(fields)| >= 4 && Slack(fields) <= 5
  {
    NoBlock();
    if fields != [] {
      LongBlock(fields);
      LastArrives(fields);
    }
  }

  // ---------------------------------------------------------------- a cut response

  function ResponseHead(r: HTTPResponse, fields: seq<Field>): string {
    StatusLine(r) + (FieldsText(fields) + "\r\n")
  }

  lemma ResponseTextIsHeadAndBody(r: HTTPResponse, fields: seq<Field>)
    ensures ResponseText(r, fields) == ResponseHead(r, fields) + r.body
    ensures StatusLine(r) <= ResponseHead(r, fields)
    ensures |ResponseHead(r, fields)| == |StatusLine(r)| + |FieldsText(fields)| + 2
  {
    Assoc(FieldsText(fields), "\r\n", r.body);
    Assoc(StatusLine(r), FieldsText(fields) + "\r\n", r.body);
  }

  /** A status line counts only with its newline. */
  lemma CutInStatusLine(r: HTTPResponse, p: string)
    requires r.code != 0 && IsWord(r.version) && r.status != "" && CleanValue(r.status)
    requires p <= StatusLine(r) && |p| < |StatusLine(r)|
    ensures ParseResponse(p) == None
  {
    StatusLineBodyIs(r);
    StatusLineEnds(r);
    assert p == StatusLineBody(r)[..|p|];
    FirstNewline(p, "");
    assert p + "" == p && FirstLine(p) == p;
    ResponseAccepted(p);
  }

  lemma BehindStatusLine(r: HTTPResponse, h: string)
    requires r.code != 0 && IsWord(r.version) && r.status != "" && CleanValue(r.status)
    ensures var p := StatusLine(r) + h;
            && AfterLine(p) == h
            && ParseResponse(p) == Some(HTTPResponse(r.version, r.code, r.status, HeaderMap(h), BodyOf(HeaderRest(h))))
  {
    StatusLineBodyIs(r);
    StatusLineEnds(r);
    LineOf(StatusLineBody(r), h);
    PrintedStatusLine(r, h);
    var l := ResponseStart(r.version, r.code, r.status);
    ResponseFrom(StatusLine(r) + h, l, h, HeaderMap(h), BodyOf(HeaderRest(h)));
  }

  lemma {:induction false} ResponseCutInHead(r: HTTPResponse, fields: seq<Field>, p: string)
    requires SendableResponse(r) && Enumerates(fields, r.headers)
    requires p <= ResponseHead(r, fields) && |StatusLine(r)| <= |p| < |ResponseHead(r, fields)|
    ensures ParseResponse(p) == Some(HTTPResponse(r.version, r.code, r.status, HeaderMap(AfterLine(p)), ""))
  {
    PrefixOf(p, StatusLine(r), FieldsText(fields) + "\r\n");
    EnumeratedFieldsAreClean(fields, r.headers);
    BehindStatusLine(r, p[|StatusLine(r)|..]);
    CutHeaders(fields, p[|StatusLine(r)|..]);
  }

  lemma {:induction false} ResponseCutInBody(r: HTTPResponse, fields: seq<Field>, part: string)
    requires SendableResponse(r) && Enumerates(fields, r.headers)
    ensures ParseResponse(ResponseHead(r, fields) + part)
         == Some(r.(headers := Arrived(fields), body := BodyOf(part)))
  {
    EnumeratedFieldsAreClean(fields, r.headers);
    PrintedHeaders(fields, part);
    ResponseTextIsHeadAndBody(r.(body := part), fields);
    BehindStatusLine(r, FieldsText(fields) + ("\r\n" + part));
  }

  /** What every prefix of a sendable response parses to.  Cut in its status line it is nothing;
      in its head, a response without a body; after that, one with a shorter body. */
  lemma {:induction false} ResponsePrefixParsed(r: HTTPResponse, fields: seq<Field>, p: string)
    requires SendableResponse(r) && Enumerates(fields, r.headers)
    requires p <= ResponseText(r, fields)
    ensures if |p| < |StatusLine(r)| then
              ParseResponse(p) == None
            else if |p| < |ResponseHead(r, fields)| then
              ParseResponse(p) == Some(HTTPResponse(r.version, r.code, r.status, HeaderMap(AfterLine(p)), ""))
            else
              ParseResponse(p)
              == Some(r.(headers := Arrived(fields), body := BodyOf(p[|ResponseHead(r, fields)|..])))
  {
    ResponseTextIsHeadAndBody(r, fields);
    var head := ResponseHead(r, fields);
    PrefixOf(p, head, r.body);
    if |p| >= |head| {
      ResponseCutInBody(r, fields, p[|head|..]);
    } else {
      PrefixOfPrefix(p, head, ResponseText(r, fields));
      if |p| >= |StatusLine(r)| {
        ResponseCutInHead(r, fields, p);
      } else {
        PrefixOfPrefix(p, StatusLine(r), head);
        CutInStatusLine(r, p);
      }
    }
  }

  /** Unlike a request line, a status line cannot spare its own line end. */
  function ResponseSlack(r: HTTPResponse, fields: seq<Field>): nat {
    if r.body != "" then 0 else if fields == [] then 2 else Slack(fields)
  }

  lemma {:induction false} ResponseSurvivesIff(r: HTTPResponse, fields: seq<Field>, p: string)
    requires SendableResponse(r) && Enumerates(fields, r.headers)
    requires r.body == "" ==> CaseDistinct(r.headers)
    requires p <= ResponseText(r, fields)
    ensures ParseResponse(p) == Some(r.(headers := Arrived(fields)))
       <==> |ResponseText(r, fields)| - |p| <= ResponseSlack(r, fields)
  {
    ResponseTextIsHeadAndBody(r, fields);
    var head := ResponseHead(r, fields);
    PrefixOf(p, head, r.body);
    ResponsePrefixParsed(r, fields, p);
    if |p| >= |head| {
      PartOfBody(r.body, p[|head|..]);
    } else {
      PrefixOfPrefix(p, head, ResponseText(r, fields));
      if r.body == "" {
        ResponseCutHeadIff(r, fields, p);
      }
    }
  }

  lemma {:induction false} ResponseCutHeadIff(r: HTTPResponse, fields: seq<Field>, p: string)
    requires SendableResponse(r) && Enumerates(fields, r.headers) && CaseDistinct(r.headers)
    requires p <= ResponseHead(r, fields)
    ensures |ResponseHead(r, fields)| - |p| <= (if fields == [] then 2 else Slack(fields))
       <==> |p| >= |StatusLine(r)| && HeaderMap(AfterLine(p)) == Arrived(fields)
  {
    ResponseTextIsHeadAndBody(r, fields);
    if |p| < |StatusLine(r)| {
      ShortCutIff(fields);
    } else {
      EnumeratedFieldsAreClean(fields, r.headers);
      EnumeratedNamesDistinct(fields, r.headers);
      PrefixOf(p, StatusLine(r), FieldsText(fields) + "\r\n");
      BehindStatusLine(r, p[|StatusLine(r)|..]);
      CutBlockIff(fields, p[|StatusLine(r)|..]);
    }
  }
}

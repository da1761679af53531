/** `HTTPWorker::run` and its handlers, on a connected socket. */
module Worker {
  import opened Numbers
  import opened Messages
  import opened Syntax
  import opened Transport
  import opened Service
  import opened Wrappers
  import Codec

  /** The static counter of `v0getQueryID`. */
  class QueryCounter {
    var next: uint32

    constructor ()
      ensures next == 0
    {
      next := 0;
    }
  }

  /** What a worker does to the outside, in order: an attempt to answer the client, and an
      attempt to hand a click to Link Analysis. */
  datatype Event = Replied(reply: HTTPResponse) | Forwarded(request: HTTPRequest)

  function Forwards(t: seq<Event>): seq<HTTPRequest> {
    if t == [] then []
    else
      var last := t[|t| - 1];
      Forwards(t[..|t| - 1]) + if last.Forwarded? then [last.request] else []
  }

  lemma ForwardsMore(t: seq<Event>, e: Event)
    ensures Forwards(t + [e]) == Forwards(t) + if e.Forwarded? then [e.request] else []
  {
    assert (t + [e])[..|t|] == t;
  }

  lemma {:induction false} ForwardsAppend(t: seq<Event>, u: seq<Event>)
    ensures Forwards(t + u) == Forwards(t) + Forwards(u)
  {
    if u == [] {
      assert t + u == t;
    } else {
      var k := |u| - 1;
      ForwardsAppend(t, u[..k]);
      ForwardsMore(t + u[..k], u[k]);
      assert t + u == t + u[..k] + [u[k]];
    }
  }

  /** Each text is what was written of one request, printed in some order of its headers. */
  ghost predicate Written(texts: seq<string>, requests: seq<HTTPRequest>) {
    |texts| == |requests| && forall i :: 0 <= i < |texts| ==> PrefixWritten(texts[i], requests[i])
  }

  ghost predicate PrefixWritten(text: string, r: HTTPRequest) {
    exists fields :: Enumerates(fields, r.headers) && text <= RequestText(r, fields)
  }

  lemma WrittenMore(texts: seq<string>, t: seq<Event>, more: seq<string>, u: seq<Event>)
    requires Written(texts, Forwards(t)) && Written(more, Forwards(u))
    ensures Written(texts + more, Forwards(t + u))
  {
    ForwardsAppend(t, u);
    WrittenConcat(texts, Forwards(t), more, Forwards(u));
  }

  lemma WrittenConcat(a: seq<string>, p: seq<HTTPRequest>, b: seq<string>, q: seq<HTTPRequest>)
    requires Written(a, p) && Written(b, q)
    ensures Written(a + b, p + q)
  {
    forall i | 0 <= i < |a + b| ensures PrefixWritten((a + b)[i], (p + q)[i]) {
      if i < |a| {
        assert (a + b)[i] == a[i] && (p + q)[i] == p[i];
      } else {
        assert (a + b)[i] == b[i - |a|] && (p + q)[i] == q[i - |a|];
      }
    }
  }

  class HTTPWorker {
    const socket: Connection
    const counter: QueryCounter
    const json: JsonLibrary
    const reachable: bool        // whether a socket to Link Analysis can be created and connected
    var trace: seq<Event>
    var forwarded: seq<string>   // what was written to Link Analysis, socket by socket

    constructor (socket: Connection, counter: QueryCounter, json: JsonLibrary, reachable: bool)
      ensures this.socket == socket && this.counter == counter && this.json == json
      ensures this.reachable == reachable && trace == [] && Valid()
    {
      this.socket, this.counter, this.json, this.reachable := socket, counter, json, reachable;
      trace, forwarded := [], [];
    }

    /** To Link Analysis a prefix of each forwarded request was written, and nothing else. */
    ghost predicate Valid()
      reads this`trace, this`forwarded
    {
      Written(forwarded, Forwards(trace))
    }

    /** The exchange that the received text and the current query ID call for. */
    ghost function Due(): Exchange
      reads socket`inbound, counter
    {
      Serve(json, Syntax.ParseRequest(socket.Incoming()), counter.next)
    }

    /** One reply was attempted, `sent` bytes of its text got through, and the given request was
        forwarded after it, if there is one and Link Analysis can be reached. */
    ghost predicate Answered(before: seq<Event>, wire: string, text: string, sent: nat,
                             reply: HTTPResponse, forward: Option<HTTPRequest>)
      reads this`trace, socket`wire
    {
      && (exists fields :: Enumerates(fields, reply.headers) && text == ResponseText(reply, fields))
      && sent <= |text| && socket.wire == wire + text[..sent]
      && trace == before + if forward.Some? && reachable then [Replied(reply), Forwarded(forward.value)]
                           else [Replied(reply)]
    }

    /** `m_socket.send(response)` */
    method Reply(r: HTTPResponse) returns (ok: bool, ghost text: string, ghost sent: nat)
      requires Valid() && ReplyFits(r)
      modifies this`trace, socket`wire, socket`calls, socket`failures
      ensures Valid() && trace == old(trace) + [Replied(r)]
      ensures Answered(old(trace), old(socket.wire), text, sent, r, None)
      ensures ok <==> socket.open && sent == |text|
    {
      var s := Codec.PrintResponse(r);
      text := s;
      ForwardsMore(trace, Replied(r));
      trace := trace + [Replied(r)];
      ok, sent := socket.Send(s, true);
    }

    /** `m_socket.send(HTTPResponse::makeErrorResponse(...))` */
    method ReplyError(code: uint32, status: string, message: string) returns (ghost text: string, ghost sent: nat)
      requires Valid() && ReplyFits(ErrorResponse(json, code, status, message))
      modifies this`trace, socket`wire, socket`calls, socket`failures
      ensures Valid()
      ensures Answered(old(trace), old(socket.wire), text, sent, ErrorResponse(json, code, status, message), None)
    {
      var ok: bool;
      ok, text, sent := Reply(ErrorResponse(json, code, status, message));
    }

    /** The part of `v0reportSearchResults` after the reply.  Opening and connecting a socket to
        Link Analysis may fail; then nothing is forwarded. */
    method Forward(r: HTTPRequest)
      requires Valid() && ForwardFits(r)
      modifies this`trace, this`forwarded
      ensures Valid()
      ensures trace == if reachable then old(trace) + [Forwarded(r)] else old(trace)
    {
      if !reachable {
        return;
      }
      var linkAnalysis := new Connection(true, []);
      var s := Codec.PrintRequest(r);
      var ok, sent := linkAnalysis.Send(s, true);
      assert linkAnalysis.wire <= s;
      ForwardsMore(trace, Forwarded(r));
      trace, forwarded := trace + [Forwarded(r)], forwarded + [linkAnalysis.wire];
    }

    /** `HTTPWorker::run` */
    method Run() returns (ghost text: string, ghost sent: nat)
      requires Receivable(socket.Incoming())
      requires Valid() && Fits(Due())
      modifies this`trace, this`forwarded, counter, socket
      ensures Valid()
      ensures counter.next == old(Due()).nextId
      ensures Answered(old(trace), old(socket.wire), text, sent, old(Due()).reply, old(Due()).forward)
    {
      ghost var x := Due();
      var ok: bool;
      var parsed, cursor := Codec.ParseRequest(socket);
      assert x == Serve(json, parsed, counter.next);
      if parsed == None {
        text, sent := ReplyError(400, "Bad Request", "Error parsing request.");
        return;
      }
      text, sent := Check(parsed.value);
    }

    /** The checks of the stated length, and what is said to a client that fails them. */
    method WrongLength(request: HTTPRequest, stated: string) returns (message: Option<string>)
      ensures match message
              case None => JudgeLength(request, stated) == Service.Dispatch(HandlerMapper(request.resource), request)
              case Some(m) => JudgeLength(request, stated) == Reject(400, "Bad Request", m)
    {
      var number := Stoul(stated);
      if number == None {
        return Some("Specified content length (" + stated + ") is invalid");
      }
      var contentLength := Truncate32(number.value);
      if contentLength != |request.body| {
        return Some("Provided content length " + stated + " does not match actual content length "
                    + Decimal(|request.body|));
      }
      return None;
    }

    /** The checks of `run` on a request that was parsed. */
    method Check(request: HTTPRequest) returns (ghost text: string, ghost sent: nat)
      requires Valid() && Fits(Serve(json, Some(request), counter.next))
      modifies this`trace, this`forwarded, counter, socket`wire, socket`calls, socket`failures
      ensures Valid()
      ensures var x := old(Serve(json, Some(request), counter.next));
              counter.next == x.nextId && Answered(old(trace), old(socket.wire), text, sent, x.reply, x.forward)
    {
      if request.version != "HTTP/1.1" {
        text, sent := ReplyError(505, "HTTP Version Not Supported", "HTTP/1.1 Must be Used.");
        return;
      }
      if request.body != "" {
        if "content-length" !in request.headers {
          text, sent := ReplyError(411, "Length Required",
            "Content-Length header must be specified when sending a request body");
          return;
        }
        var wrong := WrongLength(request, request.headers["content-length"]);
        if wrong.Some? {
          text, sent := ReplyError(400, "Bad Request", wrong.value);
          return;
        }
      }
      text, sent := Dispatch(request);
    }

    /** The call of the handler that `handlerMapper` finds. */
    method Dispatch(r: HTTPRequest) returns (ghost text: string, ghost sent: nat)
      requires Valid() && Fits(Handle(json, HandlerMapper(r.resource), r, counter.next))
      modifies this`trace, this`forwarded, counter, socket`wire, socket`calls, socket`failures
      ensures Valid()
      ensures var x := old(Handle(json, HandlerMapper(r.resource), r, counter.next));
              counter.next == x.nextId && Answered(old(trace), old(socket.wire), text, sent, x.reply, x.forward)
    {
      var ok: bool;
      match HandlerMapper(r.resource)
      case GetAutofill => ok, text, sent := Reply(JsonResponse(200, "OK", json.suggestions));
      case GetQueryID =>
        var id := counter.next;
        counter.next := Increment32(id);
        ok, text, sent := Reply(JsonResponse(200, "OK", json.queryId(id)));
      case ReportSearchResults => text, sent := ReportResults(r);
      case SubmitFeedback => ok, text, sent := Reply(PlainResponse(200, "OK"));
      case GetQueryData => ok, text, sent := Reply(JsonResponse(200, "OK", json.queries));
      case ReportMetrics => ok, text, sent := Reply(PlainResponse(200, "OK"));
      case NotFound =>
        text, sent := ReplyError(404, "Not Found", "Resource (API function) not found");
    }

    /** `v0reportSearchResults` */
    method ReportResults(r: HTTPRequest) returns (ghost text: string, ghost sent: nat)
      requires Valid() && Fits(Exchange(Report(json, r).0, Report(json, r).1, 0))
      modifies this`trace, this`forwarded, socket`wire, socket`calls, socket`failures
      ensures Valid()
      ensures Answered(old(trace), old(socket.wire), text, sent, Report(json, r).0, Report(json, r).1)
    {
      if r.verb != POST {
        text, sent := ReplyError(405, "Method Not Allowed", "Use POST for this API call");
        return;
      }
      if "content-type" !in r.headers || r.headers["content-type"] != "application/json" {
        text, sent := ReplyError(400, "Bad Request",
          "Missing / Incorrect `Content-Type` header (expected `application/json`)");
        return;
      }
      var clicked := json.clicked(r.body);
      if clicked == None {
        text, sent := ReplyError(400, "Bad Request", "Improper format of request body.");
        return;
      }
      text, sent := AnswerClick(clicked.value);
    }

    /** The end of `v0reportSearchResults`: respond before continuing to propagate data. */
    method AnswerClick(link: string) returns (ghost text: string, ghost sent: nat)
      requires Valid() && ReplyFits(PlainResponse(200, "OK"))
      requires link != "" ==> ForwardFits(ClickRequest(json, link))
      modifies this`trace, this`forwarded, socket`wire, socket`calls, socket`failures
      ensures Valid()
      ensures Answered(old(trace), old(socket.wire), text, sent, PlainResponse(200, "OK"),
                       if link == "" then None else Some(ClickRequest(json, link)))
    {
      var ok: bool;
      ok, text, sent := Reply(PlainResponse(200, "OK"));
      if link != "" {
        Forward(ClickRequest(json, link));
      }
    }
  }
}

/**
 One end and the other together: a message is printed, sent, carried over the network in any
 pieces, and parsed, with a send that may give up anywhere and a receiver that may stop waiting
 anywhere.
 */
module Delivery {
  import opened Text
  import opened Messages
  import opened Grammar
  import opened RoundTrip
  import opened Cuts
  import opened Truncation
  import opened Transport
  import opened Service
  import opened ServiceLaws
  import opened Worker
  import opened Wrappers
  import Codec
  import Syntax

  lemma {:induction false} ConcatAppend(a: seq<string>, s: string)
    ensures Concat(a + [s]) == Concat(a) + s
  {
    if a == [] {
      assert a + [s] == [s] && [s][1..] == [];
      assert Concat([s]) == s;
    } else {
      assert (a + [s])[1..] == a[1..] + [s];
      ConcatAppend(a[1..], s);
    }
  }

  /** The network hands over what one socket wrote in non-empty pieces, cut anywhere. */
  method Carry(text: string) returns (chunks: seq<string>)
    ensures "" !in chunks && Concat(chunks) == text
  {
    chunks := [];
    var i := 0;
    while i < |text|
      invariant 0 <= i <= |text| && "" !in chunks && Concat(chunks) == text[..i]
    {
      var j :| i < j <= |text|;
      ConcatAppend(chunks, text[i..j]);
      assert text[..i] + text[i..j] == text[..j];
      chunks := chunks + [text[i..j]];
      i := j;
    }
    assert text[..i] == text;
  }

  /** The socket at the other end of `wire`: pieces of what was written, then an empty `recv`,
      which may be a timeout or an error before all of it has arrived, then whatever may follow. */
  method Peer(wire: string) returns (peer: Connection, ghost arrived: nat)
    ensures fresh(peer) && peer.open && peer.wire == ""
    ensures arrived <= |wire| && peer.Incoming() == wire[..arrived]
  {
    var some :| 0 <= some <= |wire|;
    arrived := some;
    var chunks := Carry(wire[..some]);
    var later: seq<string> := *;
    DeliverableOfSplit(chunks, later);
    peer := new Connection(true, chunks + [""] + later);
  }

  /** Every text of the request, in whatever header order, can be sent and received. */
  ghost predicate RequestCarries(r: HTTPRequest) {
    forall fields :: Enumerates(fields, r.headers) ==> Receivable(RequestText(r, fields))
  }

  ghost predicate ResponseCarries(r: HTTPResponse) {
    forall fields :: Enumerates(fields, r.headers) ==> Receivable(ResponseText(r, fields))
  }

  /** A request is printed and sent on a new connection.  Some prefix of its text is written, and
      some prefix of that has arrived when the peer stops waiting. */
  method SendRequest(r: HTTPRequest, socket: Connection)
    returns (ok: bool, peer: Connection, ghost fields: seq<Field>, ghost sent: nat, ghost arrived: nat)
    requires RequestCarries(r) && socket.wire == ""
    modifies socket`wire, socket`calls, socket`failures
    ensures Enumerates(fields, r.headers) && arrived <= sent <= |RequestText(r, fields)|
    ensures ok <==> socket.open && sent == |RequestText(r, fields)|
    ensures !socket.open ==> sent == 0
    ensures socket.wire == RequestText(r, fields)[..sent]
    ensures fresh(peer) && peer.open && peer.wire == "" && peer.Incoming() == RequestText(r, fields)[..arrived]
  {
    var text := Codec.PrintRequest(r);
    fields :| Enumerates(fields, r.headers) && text == RequestText(r, fields);
    ok, sent := socket.Send(text, true);
    assert "" + text[..sent] == text[..sent];
    peer, arrived := Peer(socket.wire);
    assert text[..sent][..arrived] == text[..arrived];
  }

  /** A request is printed and sent on a new connection, and parsed at its other end.  The peer
      ends up with the request that was sent exactly when no more than the slack had not arrived;
      so, if the request has a body, exactly when all of it had, and then the send succeeded.  In
      any other case it has nothing, a request without a body, or the same request with a shorter
      body.  That the send succeeds does not imply that everything arrives in time. */
  method DeliverRequest(r: HTTPRequest, socket: Connection)
    returns (ok: bool, received: Option<HTTPRequest>, ghost fields: seq<Field>, ghost sent: nat, ghost arrived: nat)
    requires SendableRequest(r) && RequestCarries(r) && socket.wire == ""
    modifies socket`wire, socket`calls, socket`failures
    ensures Enumerates(fields, r.headers) && arrived <= sent <= |RequestText(r, fields)|
    ensures socket.wire == RequestText(r, fields)[..sent]
    ensures ok <==> socket.open && sent == |RequestText(r, fields)|
    ensures received == Syntax.ParseRequest(RequestText(r, fields)[..arrived])
    ensures (r.body == "" ==> CaseDistinct(r.headers)) ==>
              (received == Some(r.(headers := Arrived(fields)))
               <==> |RequestText(r, fields)| - arrived <= RequestSlack(r, fields))
    ensures r.body != "" ==>
              && (received == Some(r.(headers := Arrived(fields))) <==> arrived == |RequestText(r, fields)|)
              && (received == Some(r.(headers := Arrived(fields))) ==> ok)
    ensures received.Some? && received.value.body != "" ==>
              && received.value == r.(headers := Arrived(fields), body := received.value.body)
              && received.value.body <= r.body
  {
    var peer: Connection;
    ok, peer, fields, sent, arrived := SendRequest(r, socket);
    ghost var cursor: nat;
    received, cursor := Codec.ParseRequest(peer);
    ghost var p := RequestText(r, fields)[..arrived];
    BodyIsShorter(r, fields);
    BodyLeft(r, fields, p);
    if r.body == "" ==> CaseDistinct(r.headers) {
      RequestSurvivesIff(r, fields, p);
    }
  }

  /** A peer that is answered with silence before the first byte sees no request at all, although
      all of the text is there for it. */
  lemma {:induction false} SilenceFirst(text: string)
    ensures Syntax.ParseRequest(Deliverable(["", text])) == None
  {
    assert Deliverable(["", text]) == "";
    NothingParsed("");
  }

  lemma NothingParsed(t: string)
    requires t == ""
    ensures Syntax.ParseRequest(t) == None
  {
    NoWords(FirstLine(t));
    RequestAccepted(t);
  }

  lemma NoWords(s: string)
    requires s == ""
    ensures Words(s) == []
  {
  }

  /** A request whose body follows its head too late is served without its body, however complete
      it was when it was sent. */
  lemma {:induction false} BodyTooLate(r: HTTPRequest, fields: seq<Field>)
    requires SendableRequest(r) && Agreeing(r.headers) && Enumerates(fields, r.headers)
    requires r.version == HTTP_VERSION && StatesItsLength(r) && Receivable(RequestText(r, fields))
    ensures RequestText(r, fields) == Concat([Head(r, fields), r.body])
    ensures Judge(Syntax.ParseRequest(Deliverable([Head(r, fields), "", r.body])))
         == Dispatch(HandlerMapper(r.resource), r.(headers := Arrived(fields), body := ""))
  {
    var head := Head(r, fields);
    TextIsHeadAndBody(r, fields);
    TwoPieces(head, r.body);
    NothingBehind(head);
    WordsInHead(r, fields);
    PrefixParsed(r, fields, head);
    BodylessJudged(r.(headers := Arrived(fields), body := ""));
  }

  lemma NothingBehind(head: string)
    ensures Syntax.BodyOf(head[|head|..]) == ""
  {
  }

  lemma TwoPieces(a: string, b: string)
    requires a != ""
    ensures Concat([a, b]) == a + b && Deliverable([a, "", b]) == a
  {
    ConcatAppend([a], b);
    ConcatAppend([], a);
    assert [] + [a] == [a] && [a] + [b] == [a, b] && "" + a == a;
    assert [a, "", b][1..] == ["", b] && a + "" == a;
  }

  /** A reply is parsed from what has arrived of what its socket wrote: it is the reply that was
      sent exactly when nothing is missing, or of one without headers and body at most its last
      line end. */
  method ReadReply(wire: string, ghost r: HTTPResponse, ghost text: string)
    returns (reply: Option<HTTPResponse>, ghost fields: seq<Field>, ghost arrived: nat)
    requires Readable(r) && ResponseCarries(r) && wire <= text
    requires exists fields :: Enumerates(fields, r.headers) && text == ResponseText(r, fields)
    ensures Enumerates(fields, r.headers) && text == ResponseText(r, fields)
    ensures arrived <= |wire| && reply == Syntax.ParseResponse(text[..arrived])
    ensures reply == Some(r.(headers := Arrived(fields)))
       <==> |text| - arrived <= if r.body == "" then 2 else 0
  {
    fields :| Enumerates(fields, r.headers) && text == ResponseText(r, fields);
    var peer: Connection;
    peer, arrived := Peer(wire);
    assert wire[..arrived] == text[..arrived];
    ghost var cursor: nat;
    reply, cursor := Codec.ParseResponse(peer);
    if fields != [] {
      SomeField(fields, r.headers);
    }
    ResponseSurvivesIff(r, fields, text[..arrived]);
  }

  /** Whatever prefix of the request arrives, the exchange it calls for can be carried out. */
  ghost predicate AnswersFit(json: JsonLibrary, r: HTTPRequest, id: uint32) {
    forall fields, p :: Enumerates(fields, r.headers) && p <= RequestText(r, fields) ==>
      var x := Serve(json, Syntax.ParseRequest(p), id);
      Fits(x) && ResponseCarries(x.reply)
  }

  /** The exchange that a proper prefix `p` of a request calls for: what the resource does when it
      is asked by the same method, with the headers that are left, without a body; or, for a cut
      in the request line or behind the start of the body, an error reply and nothing else. */
  ghost predicate CutShort(json: JsonLibrary, r: HTTPRequest, fields: seq<Field>, p: string, id: uint32, x: Exchange) {
    if |p| >= |RequestWords(r)| && (|p| < |Head(r, fields)| || !HasNext(p[|Head(r, fields)|..])) then
      x == Handle(json, HandlerMapper(r.resource),
                  HTTPRequest(r.verb, r.resource, r.version, Syntax.HeaderMap(AfterLine(p)), ""), id)
    else
      && x.reply.code == (if |p| < |RequestWords(r)| && Syntax.ParseRequest(p).Some? then 505 else 400)
      && x.forward == None && x.nextId == id
  }

  /** A worker answers what it receives, and the client parses what arrives of the answer. */
  method Answer(peer: Connection, json: JsonLibrary, counter: QueryCounter, ghost x: Exchange)
    returns (reply: Option<HTTPResponse>, ghost events: seq<Event>, ghost fields: seq<Field>, ghost back: nat)
    requires peer.wire == "" && Receivable(peer.Incoming())
    requires x == Serve(json, Syntax.ParseRequest(peer.Incoming()), counter.next)
    requires Fits(x) && Readable(x.reply) && ResponseCarries(x.reply)
    modifies peer, counter
    ensures counter.next == x.nextId
    ensures || events == [Replied(x.reply)]
            || (x.forward.Some? && events == [Replied(x.reply), Forwarded(x.forward.value)])
    ensures Enumerates(fields, x.reply.headers) && back <= |ResponseText(x.reply, fields)|
    ensures reply == Syntax.ParseResponse(ResponseText(x.reply, fields)[..back])
    ensures reply == Some(x.reply.(headers := Arrived(fields)))
       <==> |ResponseText(x.reply, fields)| - back <= if x.reply.body == "" then 2 else 0
  {
    var reachable: bool := *;
    var worker := new HTTPWorker(peer, counter, json, reachable);
    ghost var text: string, written: nat;
    text, written := worker.Run();
    events := worker.trace;
    assert "" + text[..written] == text[..written];
    reply, fields, back := ReadReply(peer.wire, x.reply, text);
  }

  /** One client: a request made by the JSON constructor is printed, sent, parsed and answered,
      and the answer parsed, with either send giving up anywhere, the network cutting either text
      anywhere, and either end no longer waiting at any point; `arrived` and `back` are how much
      of the request and of the answer was received.  A request that was received whole, which
      implies that its send succeeded, is handled with exactly the method, body and headers that
      the client set; one that was not is `CutShort`.  The client has the reply exactly when no
      more of it is missing than its last line end, and of one with a body nothing. */
  method Call(socket: Connection, json: JsonLibrary, counter: QueryCounter,
              verb: Method, resource: string, dumped: string)
    returns (ok: bool, reply: Option<HTTPResponse>,
             ghost order: seq<Field>, ghost arrived: nat, ghost x: Exchange, ghost events: seq<Event>,
             ghost fields: seq<Field>, ghost back: nat)
    requires NeverBlank(json) && verb != UNKNOWN && IsWord(resource) && HasNext(dumped)
    requires socket.wire == "" && RequestCarries(JsonRequest(verb, resource, dumped))
    requires AnswersFit(json, JsonRequest(verb, resource, dumped), counter.next)
    modifies socket`wire, socket`calls, socket`failures, counter
    ensures Enumerates(order, JsonRequest(verb, resource, dumped).headers)
    ensures var r := JsonRequest(verb, resource, dumped);
            var text := RequestText(r, order);
            && arrived <= |text| && (arrived == |text| ==> ok)
            && if arrived == |text|
               then x == Handle(json, HandlerMapper(resource), r.(headers := ArrivedJson(dumped)), old(counter.next))
               else CutShort(json, r, order, text[..arrived], old(counter.next), x)
    ensures counter.next == x.nextId
    ensures || events == [Replied(x.reply)]
            || (x.forward.Some? && events == [Replied(x.reply), Forwarded(x.forward.value)])
    ensures Enumerates(fields, x.reply.headers) && back <= |ResponseText(x.reply, fields)|
    ensures reply == Syntax.ParseResponse(ResponseText(x.reply, fields)[..back])
    ensures reply == Some(x.reply.(headers := Arrived(fields)))
       <==> |ResponseText(x.reply, fields)| - back <= if x.reply.body == "" then 2 else 0
  {
    var peer: Connection;
    ghost var sent: nat;
    ok, peer, order, sent, arrived := SendRequest(JsonRequest(verb, resource, dumped), socket);
    x := Serve(json, Syntax.ParseRequest(peer.Incoming()), counter.next);
    Arrives(json, verb, resource, dumped, order, counter.next, arrived);
    ServedReplyIsReadable(json, Syntax.ParseRequest(peer.Incoming()), counter.next);
    reply, events, fields, back := Answer(peer, json, counter, x);
  }

  /** The exchange that the first `arrived` characters of a JSON request call for. */
  lemma {:induction false} Arrives(json: JsonLibrary, verb: Method, resource: string, dumped: string,
                                   fields: seq<Field>, id: uint32, arrived: nat)
    requires verb != UNKNOWN && IsWord(resource) && HasNext(dumped)
    requires Enumerates(fields, JsonRequest(verb, resource, dumped).headers)
    requires Receivable(RequestText(JsonRequest(verb, resource, dumped), fields))
    requires arrived <= |RequestText(JsonRequest(verb, resource, dumped), fields)|
    ensures var r := JsonRequest(verb, resource, dumped);
            var text := RequestText(r, fields);
            var x := Serve(json, Syntax.ParseRequest(text[..arrived]), id);
            && text != "" && text[..arrived] <= text
            && if arrived == |text|
               then x == Handle(json, HandlerMapper(resource), r.(headers := ArrivedJson(dumped)), id)
               else CutShort(json, r, fields, text[..arrived], id, x)
  {
    var r := JsonRequest(verb, resource, dumped);
    var text := RequestText(r, fields);
    JsonRequestsStateTheirLength(verb, resource, dumped);
    BodyIsShorter(r, fields);
    if arrived == |text| {
      assert text[..arrived] == text;
      JsonRequestServed(verb, resource, dumped, fields);
      ServedAsJudged(json, Syntax.ParseRequest(text), id);
    } else {
      CutArrives(json, r, fields, id, text[..arrived]);
    }
  }

  lemma {:induction false} CutArrives(json: JsonLibrary, r: HTTPRequest, fields: seq<Field>, id: uint32, p: string)
    requires SendableRequest(r) && Agreeing(r.headers) && Enumerates(fields, r.headers)
    requires r.version == HTTP_VERSION && StatesItsLength(r) && Receivable(RequestText(r, fields))
    requires p <= RequestText(r, fields) && p != RequestText(r, fields)
    ensures CutShort(json, r, fields, p, id, Serve(json, Syntax.ParseRequest(p), id))
  {
    DispatchedPrefixIff(r, fields, p);
    ServedAsJudged(json, Syntax.ParseRequest(p), id);
  }
}

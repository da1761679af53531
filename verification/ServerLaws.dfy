/** What holds of every run of the server. */
module ServerLaws {
  import opened Text
  import opened Messages
  import opened Syntax
  import opened Grammar
  import opened RoundTrip
  import opened Cuts
  import opened Truncation
  import opened Transport
  import opened Service
  import opened ServiceLaws
  import opened Answers
  import opened Worker
  import opened Server
  import opened Wrappers

  // ---------------------------------------------------------------- replies and forwards

  function Replies(t: seq<Event>): seq<HTTPResponse> {
    if t == [] then []
    else if t[0].Replied? then [t[0].reply] + Replies(t[1..])
    else Replies(t[1..])
  }

  function RepliesDue(xs: seq<Exchange>): seq<HTTPResponse> {
    if xs == [] then [] else [xs[0].reply] + RepliesDue(xs[1..])
  }

  /** Every accepted client is answered once, in order of acceptance, and nobody else is. */
  lemma {:induction false} OneReplyPerClient(t: seq<Event>, serve: Behaviour, clients: seq<seq<string>>, id: uint32)
    requires Shows(t, Exchanges(serve, clients, id))
    ensures Replies(t) == RepliesDue(Exchanges(serve, clients, id)) && |Replies(t)| == |clients|
  {
    if clients != [] {
      var x := serve(clients[0], id);
      var rest := Exchanges(serve, clients[1..], x.nextId);
      assert Exchanges(serve, clients, id)[1..] == rest;
      if Shows(t[1..], rest) {
        OneReplyPerClient(t[1..], serve, clients[1..], x.nextId);
      } else {
        OneReplyPerClient(t[2..], serve, clients[1..], x.nextId);
        assert t[1..][1..] == t[2..];
      }
    }
  }

  /** Forwards come with the reply 200 only. */
  ghost predicate ForwardsOnOK(serve: Behaviour) {
    forall client, id :: serve(client, id).forward.Some? ==> serve(client, id).reply == PlainResponse(200, "OK")
  }

  lemma {:induction false} ServiceForwardsOnOK(json: JsonLibrary)
    ensures ForwardsOnOK(BehaviourOf(json))
  {
    forall client, id: uint32
      ensures BehaviourOf(json)(client, id).forward.Some? ==>
                BehaviourOf(json)(client, id).reply == PlainResponse(200, "OK")
    {
      ForwardIff(json, ParseRequest(Deliverable(client)), id);
    }
  }

  lemma {:induction false} ForwardsFollowOK(t: seq<Event>, serve: Behaviour, clients: seq<seq<string>>, id: uint32)
    requires ForwardsOnOK(serve) && Shows(t, Exchanges(serve, clients, id))
    ensures forall i :: 0 <= i < |t| && t[i].Forwarded? ==> i > 0 && t[i - 1] == Replied(PlainResponse(200, "OK"))
  {
    if clients != [] {
      var x := serve(clients[0], id);
      var rest := Exchanges(serve, clients[1..], x.nextId);
      assert Exchanges(serve, clients, id)[1..] == rest;
      if Shows(t[1..], rest) {
        ForwardsFollowOK(t[1..], serve, clients[1..], x.nextId);
        assert forall i :: 0 < i < |t| ==> t[i] == t[1..][i - 1];
      } else {
        ForwardsFollowOK(t[2..], serve, clients[1..], x.nextId);
        assert forall i :: 1 < i < |t| ==> t[i] == t[2..][i - 2];
      }
    }
  }

  /** A forward to Link Analysis directly follows the attempt to answer its client with 200. */
  lemma {:induction false} ServiceForwardsFollowOK(t: seq<Event>, json: JsonLibrary,
                                                   clients: seq<seq<string>>, id: uint32)
    requires Shows(t, Exchanges(BehaviourOf(json), clients, id))
    ensures forall i :: 0 <= i < |t| && t[i].Forwarded? ==> i > 0 && t[i - 1] == Replied(PlainResponse(200, "OK"))
  {
    ServiceForwardsOnOK(json);
    ForwardsFollowOK(t, BehaviourOf(json), clients, id);
  }

  // ---------------------------------------------------------------- one client, end to end

  /** A client sends a request made by the JSON constructor, its headers printed in any order,
      its text cut into any non-empty chunks.  The server runs the handler of the resource on
      exactly that method and body, with the headers that say what the body is, and what the
      client parses from the whole reply is the reply that the handler gave, again for any order
      of its headers. */
  lemma {:induction false} ClientToServerAndBack(
      json: JsonLibrary, verb: Method, resource: string, dumped: string, id: uint32, fields: seq<Field>,
      chunks: seq<string>, later: seq<string>, replyFields: seq<Field>)
    requires NeverBlank(json) && verb != UNKNOWN && IsWord(resource) && HasNext(dumped)
    requires Enumerates(fields, JsonRequest(verb, resource, dumped).headers)
    requires "" !in chunks && Concat(chunks) == RequestText(JsonRequest(verb, resource, dumped), fields)
    requires Receivable(Concat(chunks))
    requires Enumerates(replyFields, Serve(json, ParseRequest(Deliverable(chunks + [""] + later)), id).reply.headers)
    requires Receivable(
      ResponseText(Serve(json, ParseRequest(Deliverable(chunks + [""] + later)), id).reply, replyFields))
    ensures var x := Serve(json, ParseRequest(Deliverable(chunks + [""] + later)), id);
            && x == Handle(json, HandlerMapper(resource),
                           JsonRequest(verb, resource, dumped).(headers := ArrivedJson(dumped)), id)
            && ParseResponse(ResponseText(x.reply, replyFields)) == Some(x.reply.(headers := Arrived(replyFields)))
  {
    DeliverableOfSplit(chunks, later);
    JsonRequestServed(verb, resource, dumped, fields);
    ServedAsJudged(json, ParseRequest(Deliverable(chunks + [""] + later)), id);
    RepliesAreReadable(json, ParseRequest(Deliverable(chunks + [""] + later)), id, replyFields);
  }

  // ---------------------------------------------------------------- stopping

  /** Once the shutdown descriptor is reported readable, or `poll` has failed, nothing that
      happens later is accepted, not even a client that is ready in the same outcome. */
  lemma {:induction false} NothingAfterStop(before: seq<Poll>, stop: Poll, later: seq<Poll>)
    requires Stops(stop)
    ensures Accepted(before + [stop] + later) == Accepted(before)
  {
    var script := before + [stop] + later;
    if before != [] {
      assert script[1..] == before[1..] + [stop] + later;
      NothingAfterStop(before[1..], stop, later);
    } else {
      assert script[0] == stop;
    }
  }

  /** Without a stop, what is accepted in two parts of a run adds up. */
  lemma {:induction false} AcceptedAppend(a: seq<Poll>, b: seq<Poll>)
    requires forall p <- a :: !Stops(p)
    ensures Accepted(a + b) == Accepted(a) + Accepted(b)
  {
    if a == [] {
      assert a + b == b;
    } else {
      assert a[0] in a;
      assert (a + b)[1..] == a[1..] + b;
      AcceptedAppend(a[1..], b);
    }
  }

  /** One outcome at a time: a failed poll and a shutdown end it, a timeout, an event on neither
      descriptor and a failed `accept` serve nobody, and a client on the listener is served. */
  lemma OneOutcome(rest: seq<Poll>, listener: bool, accepted: Option<seq<string>>, client: seq<string>)
    ensures Accepted([]) == [] && Outcome([]) == Blocked
    ensures Accepted([PollError] + rest) == [] && Outcome([PollError] + rest) == Returned(false)
    ensures var s := [Ready(true, listener, accepted)] + rest; Accepted(s) == [] && Outcome(s) == Returned(true)
    ensures var s := [PollTimeout] + rest; Accepted(s) == Accepted(rest) && Outcome(s) == Outcome(rest)
    ensures var s := [Ready(false, false, accepted)] + rest;
            Accepted(s) == Accepted(rest) && Outcome(s) == Outcome(rest)
    ensures var s := [Ready(false, true, None)] + rest;
            Accepted(s) == Accepted(rest) && Outcome(s) == Outcome(rest)
    ensures var s := [Ready(false, true, Some(client))] + rest;
            Accepted(s) == [client] + Accepted(rest) && Outcome(s) == Outcome(rest)
  {
    assert forall p: Poll :: ([p] + rest)[1..] == rest;
  }

  /** The run returns at the first outcome that stops it, and says whether that was a shutdown;
      without one it is still running. */
  lemma {:induction false} OutcomeIs(script: seq<Poll>)
    ensures match Outcome(script)
            case Blocked => forall p <- script :: GoesOn(p)
            case Returned(v) =>
              exists k :: 0 <= k < |script| && !GoesOn(script[k]) && v == script[k].Ready?
                       && forall p <- script[..k] :: GoesOn(p)
  {
    if script != [] {
      if !GoesOn(script[0]) {
        assert script[..0] == [];
      } else {
        var rest := script[1..];
        OutcomeIs(rest);
        if Outcome(script).Returned? {
          var k :| 0 <= k < |rest| && !GoesOn(rest[k]) && Outcome(script).value == rest[k].Ready?
                   && forall p <- rest[..k] :: GoesOn(p);
          assert script[..k + 1] == [script[0]] + rest[..k] && script[k + 1] == rest[k];
        }
      }
    }
  }

  // ---------------------------------------------------------------- query IDs

  /** The clients that ask for an ID. */
  type Asking = seq<string> -> bool

  ghost function AskingOf(): Asking {
    client =>
      var verdict := Judge(ParseRequest(Deliverable(client)));
      verdict.Dispatch? && verdict.route == GetQueryID
  }

  /** Those whose text has that resource as its second word, and is let through. */
  lemma {:induction false} AsksForId(client: seq<string>)
    requires Receivable(Deliverable(client))
    ensures AskingOf()(client) <==>
              var words := Words(FirstLine(Deliverable(client)));
              |words| == 3 && words[1] == "/v0/GetQueryID" && Asks(Deliverable(client), words[0], words[1])
  {
    var t := Deliverable(client);
    DispatchedAsks(t);
    if |Words(FirstLine(t))| == 3 {
      Resources(Words(FirstLine(t))[1]);
    }
  }

  /** A behaviour that hands out the current ID to those who ask, and to them only. */
  ghost predicate HandsOutIds(json: JsonLibrary, serve: Behaviour, asks: Asking) {
    && (forall client, id :: asks(client) ==> serve(client, id).nextId == Increment32(id))
    && (forall client, id :: !asks(client) ==> serve(client, id).nextId == id)
    && (forall client, id :: asks(client) ==>
          serve(client, id).reply == JsonResponse(200, "OK", json.queryId(id)))
  }

  lemma {:induction false} ServiceHandsOutIds(json: JsonLibrary)
    ensures HandsOutIds(json, BehaviourOf(json), AskingOf())
  {
    forall client, id: uint32
      ensures var x := BehaviourOf(json)(client, id);
              if AskingOf()(client)
              then x.reply == JsonResponse(200, "OK", json.queryId(id)) && x.nextId == Increment32(id)
              else x.nextId == id
    {
      IdServed(json, ParseRequest(Deliverable(client)), id);
    }
  }

  /** How many of the clients asked for a query ID. */
  ghost function Asked(asks: Asking, clients: seq<seq<string>>): nat {
    if clients == [] then 0 else (if asks(clients[0]) then 1 else 0) + Asked(asks, clients[1..])
  }

  lemma {:induction false} AskedAppend(asks: Asking, a: seq<seq<string>>, b: seq<seq<string>>)
    ensures Asked(asks, a + b) == Asked(asks, a) + Asked(asks, b)
  {
    if a == [] {
      assert a + b == b;
    } else {
      assert (a + b)[1..] == a[1..] + b;
      AskedAppend(asks, a[1..], b);
    }
  }

  /** The counter after `n` more IDs. */
  function IdAfter(id: uint32, n: nat): uint32
    decreases n
  {
    if n == 0 then id else IdAfter(Increment32(id), n - 1)
  }

  lemma IncrementAdds(id: uint32, n: nat)
    ensures Truncate32(Increment32(id) + n) == Truncate32(id + (n + 1))
  {
  }

  lemma {:induction false} IdAfterIs(id: uint32, n: nat)
    ensures IdAfter(id, n) == Truncate32(id + n)
    decreases n
  {
    if n == 0 {
      Truncate32Keeps(id);
    } else {
      IdAfterIs(Increment32(id), n - 1);
      IncrementAdds(id, n - 1);
    }
  }

  lemma {:induction false} ExchangesLength(serve: Behaviour, clients: seq<seq<string>>, id: uint32)
    ensures |Exchanges(serve, clients, id)| == |clients|
  {
    if clients != [] {
      ExchangesLength(serve, clients[1..], serve(clients[0], id).nextId);
    }
  }

  /** What a client meets depends on those before it only through the number of IDs they asked
      for. */
  lemma {:induction false} ExchangeAt(json: JsonLibrary, serve: Behaviour, asks: Asking, clients: seq<seq<string>>,
                                      id: uint32, i: nat)
    requires HandsOutIds(json, serve, asks) && i < |clients|
    ensures |Exchanges(serve, clients, id)| == |clients|
    ensures Exchanges(serve, clients, id)[i] == serve(clients[i], IdAfter(id, Asked(asks, clients[..i])))
    decreases clients
  {
    ExchangesLength(serve, clients, id);
    if i == 0 {
      assert clients[..0] == [];
    } else {
      var rest := clients[1..];
      ExchangeAt(json, serve, asks, rest, serve(clients[0], id).nextId, i - 1);
      assert clients[..i][1..] == rest[..i - 1];
    }
  }

  lemma AskedBetween(asks: Asking, clients: seq<seq<string>>, i: nat, j: nat)
    requires i < j < |clients| && asks(clients[i])
    ensures Asked(asks, clients[..j]) == Asked(asks, clients[..i]) + Asked(asks, clients[i..j])
    ensures Asked(asks, clients[i..j]) > 0
  {
    assert clients[..j] == clients[..i] + clients[i..j];
    AskedAppend(asks, clients[..i], clients[i..j]);
  }

  lemma SameModulo(a: nat, b: nat)
    requires a < b
    ensures Truncate32(a) == Truncate32(b) <==> Truncate32(b - a) == 0
    ensures b - a < TWO_TO_THE_32 ==> Truncate32(b - a) != 0
  {
  }

  /** A client that asks for an ID is told the number of those who asked before it, counted from
      the counter's first value, modulo 2^32. */
  lemma {:induction false} IdTold(json: JsonLibrary, clients: seq<seq<string>>, id: uint32, i: nat)
    requires i < |clients| && AskingOf()(clients[i])
    ensures |Exchanges(BehaviourOf(json), clients, id)| == |clients|
    ensures Exchanges(BehaviourOf(json), clients, id)[i].reply
         == JsonResponse(200, "OK", json.queryId(Truncate32(id + Asked(AskingOf(), clients[..i]))))
  {
    ServiceHandsOutIds(json);
    ToldId(json, BehaviourOf(json), AskingOf(), clients, id, i);
  }

  lemma ToldId(json: JsonLibrary, serve: Behaviour, asks: Asking, clients: seq<seq<string>>, id: uint32, i: nat)
    requires HandsOutIds(json, serve, asks) && i < |clients| && asks(clients[i])
    ensures |Exchanges(serve, clients, id)| == |clients|
    ensures Exchanges(serve, clients, id)[i].reply
         == JsonResponse(200, "OK", json.queryId(Truncate32(id + Asked(asks, clients[..i]))))
  {
    ExchangeAt(json, serve, asks, clients, id, i);
    IdAfterIs(id, Asked(asks, clients[..i]));
  }

  /** The counter ends where the number of those who asked takes it. */
  lemma {:induction false} FinalIdIs(json: JsonLibrary, clients: seq<seq<string>>, id: uint32)
    ensures FinalId(BehaviourOf(json), clients, id) == Truncate32(id + Asked(AskingOf(), clients))
  {
    ServiceHandsOutIds(json);
    CountedIdIs(json, BehaviourOf(json), AskingOf(), clients, id);
  }

  lemma CountedIdIs(json: JsonLibrary, serve: Behaviour, asks: Asking, clients: seq<seq<string>>, id: uint32)
    requires HandsOutIds(json, serve, asks)
    ensures FinalId(serve, clients, id) == Truncate32(id + Asked(asks, clients))
  {
    CountedId(json, serve, asks, clients, id);
    IdAfterIs(id, Asked(asks, clients));
  }

  lemma {:induction false} CountedId(json: JsonLibrary, serve: Behaviour, asks: Asking, clients: seq<seq<string>>,
                                     id: uint32)
    requires HandsOutIds(json, serve, asks)
    ensures FinalId(serve, clients, id) == IdAfter(id, Asked(asks, clients))
    decreases clients
  {
    if clients != [] {
      CountedId(json, serve, asks, clients[1..], serve(clients[0], id).nextId);
    }
  }

  lemma SameModuloBetween(id: uint32, asks: Asking, clients: seq<seq<string>>, i: nat, j: nat)
    requires i < j < |clients| && asks(clients[i])
    ensures var a, b := Asked(asks, clients[..i]), Asked(asks, clients[..j]);
            && b == a + Asked(asks, clients[i..j]) && a < b
            && (Truncate32(id + a) == Truncate32(id + b) <==> Truncate32(Asked(asks, clients[i..j])) == 0)
            && (Asked(asks, clients[i..j]) < TWO_TO_THE_32 ==> Truncate32(Asked(asks, clients[i..j])) != 0)
  {
    AskedBetween(asks, clients, i, j);
    SameModulo(id + Asked(asks, clients[..i]), id + Asked(asks, clients[..j]));
  }

  /** The JSON library dumps different IDs differently. */
  ghost predicate DumpsIdsApart(json: JsonLibrary) {
    forall a, b :: json.queryId(a) == json.queryId(b) ==> a == b
  }

  /** Two clients that ask for an ID are given the same reply exactly when the number of IDs handed
      out from the one to the other is a multiple of 2^32; so the replies to any 2^32 consecutive
      such clients are pairwise distinct. */
  lemma {:induction false} IdsRepeatIff(json: JsonLibrary, clients: seq<seq<string>>, id: uint32, i: nat, j: nat)
    requires DumpsIdsApart(json)
    requires i < j < |clients| && AskingOf()(clients[i]) && AskingOf()(clients[j])
    ensures var xs := Exchanges(BehaviourOf(json), clients, id);
            var handedOut := Asked(AskingOf(), clients[i..j]);
            && |xs| == |clients|
            && (xs[i].reply == xs[j].reply <==> Truncate32(handedOut) == 0)
            && (handedOut < TWO_TO_THE_32 ==> xs[i].reply != xs[j].reply)
  {
    ServiceHandsOutIds(json);
    RepliesRepeat(json, BehaviourOf(json), AskingOf(), clients, id, i, j);
  }

  lemma RepliesRepeat(json: JsonLibrary, serve: Behaviour, asks: Asking, clients: seq<seq<string>>, id: uint32,
                      i: nat, j: nat)
    requires HandsOutIds(json, serve, asks) && DumpsIdsApart(json)
    requires i < j < |clients| && asks(clients[i]) && asks(clients[j])
    ensures var xs := Exchanges(serve, clients, id);
            var handedOut := Asked(asks, clients[i..j]);
            && |xs| == |clients|
            && (xs[i].reply == xs[j].reply <==> Truncate32(handedOut) == 0)
            && (handedOut < TWO_TO_THE_32 ==> xs[i].reply != xs[j].reply)
  {
    ToldId(json, serve, asks, clients, id, i);
    ToldId(json, serve, asks, clients, id, j);
    SameModuloBetween(id, asks, clients, i, j);
    IdReplies(json, Truncate32(id + Asked(asks, clients[..i])), Truncate32(id + Asked(asks, clients[..j])));
  }

  lemma IdReplies(json: JsonLibrary, a: uint32, b: uint32)
    requires DumpsIdsApart(json)
    ensures JsonResponse(200, "OK", json.queryId(a)) == JsonResponse(200, "OK", json.queryId(b)) <==> a == b
  {
    assert JsonResponse(200, "OK", json.queryId(a)).body == json.queryId(a);
  }

  // ---------------------------------------------------------------- what the clients read

  lemma {:induction false} ReplyWasServed(json: JsonLibrary, serve: Behaviour, asks: Asking,
                                          clients: seq<seq<string>>, id: uint32, i: nat)
    requires NeverBlank(json) && Implements(json, serve) && HandsOutIds(json, serve, asks) && i < |clients|
    ensures |Exchanges(serve, clients, id)| == |clients| && Readable(Exchanges(serve, clients, id)[i].reply)
  {
    ExchangeAt(json, serve, asks, clients, id, i);
    var told := IdAfter(id, Asked(asks, clients[..i]));
    var parsed := ParseRequest(Deliverable(clients[i]));
    assert serve(clients[i], told) == Serve(json, parsed, told);
    ServedReplyIsReadable(json, parsed, told);
  }

  lemma {:induction false} ReadFromWire(wire: string, reply: HTTPResponse)
    requires Readable(reply) && OnWire(wire, reply) && Receivable(wire)
    ensures match ParseResponse(wire)
            case None => true
            case Some(q) =>
              q.version == reply.version && q.code == reply.code && q.status == reply.status && q.body <= reply.body
  {
    var fields :| Enumerates(fields, reply.headers) && wire <= ResponseText(reply, fields);
    ResponsePrefixParsed(reply, fields, wire);
    ResponseTextIsHeadAndBody(reply, fields);
    PrefixOf(wire, ResponseHead(reply, fields), reply.body);
  }

  /** Over a whole run: whatever a client parses from what its socket was written has the code
      and the status of its own reply, and a prefix of its body. */
  lemma {:induction false} ClientsReadTheirReplies(json: JsonLibrary, clients: seq<seq<string>>, id: uint32,
                                                   wires: seq<string>, i: nat)
    requires NeverBlank(json) && WiresShow(wires, Exchanges(BehaviourOf(json), clients, id)) && i < |wires|
    requires Receivable(wires[i])
    ensures |wires| == |clients|
    ensures var reply := Exchanges(BehaviourOf(json), clients, id)[i].reply;
            match ParseResponse(wires[i])
            case None => true
            case Some(q) =>
              q.version == reply.version && q.code == reply.code && q.status == reply.status && q.body <= reply.body
  {
    ServiceHandsOutIds(json);
    BehaviourImplements(json);
    ExchangesLength(BehaviourOf(json), clients, id);
    ReplyWasServed(json, BehaviourOf(json), AskingOf(), clients, id, i);
    ReadFromWire(wires[i], Exchanges(BehaviourOf(json), clients, id)[i].reply);
  }
}

/**
 `HTTPServer::run`: the poll loop, over any finite sequence of outcomes of `poll` and
 `accept`.  A run that has used up its sequence is blocked in the next `poll`.
 */
module Server {
  import opened Messages
  import opened Syntax
  import opened Transport
  import opened Service
  import opened Worker
  import opened Wrappers

  /** An outcome of `poll`: -1, 0, or some descriptors ready.  In the last case `accepted` is
      what `accept` would give: nothing, or a client and what it will send. */
  datatype Poll = PollError | PollTimeout | Ready(shutdown: bool, listener: bool, accepted: Option<seq<string>>)

  datatype Result = Blocked | Returned(value: bool)

  predicate Stops(p: Poll) {
    p.PollError? || (p.Ready? && p.shutdown)
  }

  /** The outcomes that lead to a client being served. */
  predicate Connects(p: Poll) {
    p.Ready? && !p.shutdown && p.listener && p.accepted.Some?
  }

  /** The clients accepted over a run, each given by the chunks it sends. */
  function Accepted(script: seq<Poll>): seq<seq<string>> {
    if script == [] || Stops(script[0]) then []
    else if Connects(script[0]) then [script[0].accepted.value] + Accepted(script[1..])
    else Accepted(script[1..])
  }

  /** What the run returns: false after a failed `poll`, true after a shutdown. */
  function Outcome(script: seq<Poll>): Result {
    if script == [] then Blocked
    else if script[0].PollError? then Returned(false)
    else if Stops(script[0]) then Returned(true)
    else Outcome(script[1..])
  }

  /** What a client's chunks and the current query ID lead to. */
  type Behaviour = (seq<string>, uint32) -> Exchange

  /** The service: what the client sent decides the exchange, apart from the query ID. */
  ghost function BehaviourOf(json: JsonLibrary): Behaviour {
    (client: seq<string>, id: uint32) => Serve(json, ParseRequest(Deliverable(client)), id)
  }

  ghost predicate Implements(json: JsonLibrary, serve: Behaviour) {
    forall client: seq<string>, id: uint32 {:trigger Serve(json, ParseRequest(Deliverable(client)), id)} ::
      serve(client, id) == Serve(json, ParseRequest(Deliverable(client)), id)
  }

  lemma BehaviourImplements(json: JsonLibrary)
    ensures Implements(json, BehaviourOf(json))
  {
  }

  ghost function Exchanges(serve: Behaviour, clients: seq<seq<string>>, id: uint32): seq<Exchange> {
    if clients == [] then []
    else
      var x := serve(clients[0], id);
      [x] + Exchanges(serve, clients[1..], x.nextId)
  }

  /** The query ID after all the clients have been served. */
  ghost function FinalId(serve: Behaviour, clients: seq<seq<string>>, id: uint32): uint32 {
    if clients == [] then id else FinalId(serve, clients[1..], serve(clients[0], id).nextId)
  }

  /** Some prefix of the reply, printed in some order of its headers, was written to a socket. */
  ghost predicate OnWire(wire: string, reply: HTTPResponse) {
    exists fields :: Enumerates(fields, reply.headers) && wire <= ResponseText(reply, fields)
  }

  /** Each client's socket was written its own reply, and nothing else. */
  ghost predicate WiresShow(wires: seq<string>, xs: seq<Exchange>) {
    |wires| == |xs| && forall i :: 0 <= i < |wires| ==> OnWire(wires[i], xs[i].reply)
  }

  lemma WiresShowMore(wires: seq<string>, xs: seq<Exchange>, wire: string, x: Exchange)
    requires WiresShow(wires, xs) && OnWire(wire, x.reply)
    ensures WiresShow(wires + [wire], xs + [x])
  {
  }

  /** `t` shows each of the exchanges in turn: one reply, then at most the forward it calls for. */
  ghost predicate Shows(t: seq<Event>, xs: seq<Exchange>) {
    if xs == [] then t == []
    else
      && t != [] && t[0] == Replied(xs[0].reply)
      && (|| Shows(t[1..], xs[1..])
          || (|t| > 1 && xs[0].forward.Some? && t[1] == Forwarded(xs[0].forward.value) && Shows(t[2..], xs[1..])))
  }

  /** Everything received and sent stays below the 4 GiB at which a cursor would wrap. */
  ghost predicate AllFit(serve: Behaviour, clients: seq<seq<string>>, id: uint32) {
    clients == [] ||
    (var x := serve(clients[0], id);
     Receivable(Deliverable(clients[0])) && Fits(x) && AllFit(serve, clients[1..], x.nextId))
  }

  lemma {:induction false} ShowsAppend(t: seq<Event>, xs: seq<Exchange>, u: seq<Event>, ys: seq<Exchange>)
    requires Shows(t, xs) && Shows(u, ys)
    ensures Shows(t + u, xs + ys)
  {
    if xs == [] {
      assert t + u == u && xs + ys == ys;
    } else {
      assert (xs + ys)[1..] == xs[1..] + ys;
      assert (t + u)[1..] == t[1..] + u;
      if Shows(t[1..], xs[1..]) {
        ShowsAppend(t[1..], xs[1..], u, ys);
      } else {
        assert (t + u)[2..] == t[2..] + u;
        ShowsAppend(t[2..], xs[1..], u, ys);
      }
    }
  }

  lemma ShowsOne(t: seq<Event>, x: Exchange)
    requires || t == [Replied(x.reply)]
             || (x.forward.Some? && t == [Replied(x.reply), Forwarded(x.forward.value)])
    ensures Shows(t, [x])
  {
    if |t| > 1 {
      assert t[2..] == [];
    }
  }

  lemma WireIsPrefix(wire: string, text: string, sent: nat)
    requires sent <= |text| && wire == "" + text[..sent]
    ensures wire <= text
  {
  }

  /** Serving the first of some clients moves its exchange from those due to those done. */
  lemma ServedOne(serve: Behaviour, done: seq<Exchange>, client: seq<string>, rest: seq<seq<string>>, id: uint32)
    ensures var x := serve(client, id);
            && done + Exchanges(serve, [client] + rest, id) == done + [x] + Exchanges(serve, rest, x.nextId)
            && FinalId(serve, [client] + rest, id) == FinalId(serve, rest, x.nextId)
            && (AllFit(serve, [client] + rest, id) ==>
                  Receivable(Deliverable(client)) && Fits(x) && AllFit(serve, rest, x.nextId))
  {
    var clients := [client] + rest;
    assert clients[0] == client && clients[1..] == rest;
  }

  lemma AcceptedAt(script: seq<Poll>, i: nat)
    requires i < |script| && !Stops(script[i])
    ensures Accepted(script[i..]) ==
            if Connects(script[i]) then [script[i].accepted.value] + Accepted(script[i + 1..])
            else Accepted(script[i + 1..])
    ensures Outcome(script[i..]) == Outcome(script[i + 1..])
  {
    assert script[i..][1..] == script[i + 1..];
  }

  /** One turn of the poll loop that serves a client. */
  lemma TurnServes(serve: Behaviour, script: seq<Poll>, i: nat, done: seq<Exchange>, due: seq<Exchange>, id: uint32)
    returns (x: Exchange)
    requires i < |script| && Connects(script[i])
    requires AllFit(serve, Accepted(script[i..]), id)
    requires done + Exchanges(serve, Accepted(script[i..]), id) == due
    ensures x == serve(script[i].accepted.value, id)
    ensures Receivable(Deliverable(script[i].accepted.value)) && Fits(x)
    ensures done + [x] + Exchanges(serve, Accepted(script[i + 1..]), x.nextId) == due
    ensures FinalId(serve, Accepted(script[i..]), id) == FinalId(serve, Accepted(script[i + 1..]), x.nextId)
    ensures AllFit(serve, Accepted(script[i + 1..]), x.nextId)
    ensures Outcome(script[i..]) == Outcome(script[i + 1..])
  {
    x := serve(script[i].accepted.value, id);
    AcceptedAt(script, i);
    ServedOne(serve, done, script[i].accepted.value, Accepted(script[i + 1..]), id);
  }

  // ---------------------------------------------------------------- who is served

  /** `clients` are served at the outcomes `at`, told without the definitions above: those, in
      order, are all the outcomes before a failed poll or a shutdown that report the listener
      readable and for which `accept` gave a client. */
  ghost predicate ServedAt(script: seq<Poll>, at: seq<nat>, clients: seq<seq<string>>) {
    && |at| == |clients|
    && (forall j :: 0 <= j < |at| ==> ServesAt(script, at[j]) && script[at[j]].accepted == Some(clients[j]))
    && (forall j, k :: 0 <= j < k < |at| ==> at[j] < at[k])
    && (forall i: nat :: ServesAt(script, i) ==> i in at)
  }

  ghost predicate ServesAt(script: seq<Poll>, i: nat) {
    && i < |script|
    && (match script[i]
        case PollError => false
        case PollTimeout => false
        case Ready(shutdown, listener, accepted) => !shutdown && listener && accepted.Some?)
    && (forall h :: 0 <= h < i ==> GoesOn(script[h]))
  }

  ghost predicate GoesOn(p: Poll) {
    match p
    case PollError => false
    case PollTimeout => true
    case Ready(shutdown, _, _) => !shutdown
  }

  /** The list `at` with every position moved by one. */
  function Later(at: seq<nat>): (r: seq<nat>)
    ensures |r| == |at| && forall j :: 0 <= j < |at| ==> r[j] == at[j] + 1
  {
    if at == [] then [] else [at[0] + 1] + Later(at[1..])
  }

  lemma ServesLater(script: seq<Poll>, i: nat)
    requires script != []
    ensures ServesAt(script, i + 1) <==> GoesOn(script[0]) && ServesAt(script[1..], i)
  {
    if i + 1 < |script| {
      assert script[1..][i] == script[i + 1];
      if ServesAt(script, i + 1) {
        forall h | 0 <= h < i ensures GoesOn(script[1..][h]) {
          assert GoesOn(script[h + 1]);
        }
      }
      if GoesOn(script[0]) && ServesAt(script[1..], i) {
        forall h | 0 <= h < i + 1 ensures GoesOn(script[h]) {
          if h > 0 {
            assert GoesOn(script[1..][h - 1]);
          }
        }
      }
    }
  }

  /** The clients that `Accepted` lists are those. */
  lemma {:induction false} AcceptedAreServed(script: seq<Poll>) returns (at: seq<nat>)
    ensures ServedAt(script, at, Accepted(script))
  {
    if script == [] {
      at := [];
    } else {
      var p, rest := script[0], script[1..];
      var later := AcceptedAreServed(rest);
      if !GoesOn(p) {
        at := [];
        forall i: nat ensures !ServesAt(script, i) {
          if i > 0 {
            ServesLater(script, i - 1);
          }
        }
      } else {
        if ServesAt(script, 0) {
          at := [0] + Later(later);
          ServedFirst(script, later, Accepted(rest));
        } else {
          at := Later(later);
          NotServedFirst(script, later, Accepted(rest));
        }
      }
    }
  }

  /** What is served after the first outcome is served one position later. */
  lemma LaterServed(script: seq<Poll>, later: seq<nat>, clients: seq<seq<string>>)
    requires script != [] && GoesOn(script[0]) && ServedAt(script[1..], later, clients)
    ensures |later| == |clients|
    ensures forall j :: 0 <= j < |later| ==>
              ServesAt(script, Later(later)[j]) && script[Later(later)[j]].accepted == Some(clients[j])
    ensures forall i: nat :: ServesAt(script, i) && i > 0 ==> i in Later(later)
  {
    forall j | 0 <= j < |later|
      ensures ServesAt(script, Later(later)[j]) && script[Later(later)[j]].accepted == Some(clients[j])
    {
      ServesLater(script, later[j]);
      assert script[1..][later[j]] == script[later[j] + 1];
    }
    forall i: nat | ServesAt(script, i) && i > 0 ensures i in Later(later) {
      ServesLater(script, i - 1);
      var j :| 0 <= j < |later| && later[j] == i - 1;
      assert Later(later)[j] == i;
    }
  }

  lemma NotServedFirst(script: seq<Poll>, later: seq<nat>, clients: seq<seq<string>>)
    requires script != [] && GoesOn(script[0]) && ServedAt(script[1..], later, clients)
    requires !ServesAt(script, 0)
    ensures ServedAt(script, Later(later), clients)
  {
    LaterServed(script, later, clients);
  }

  lemma ServedFirst(script: seq<Poll>, later: seq<nat>, clients: seq<seq<string>>)
    requires script != [] && GoesOn(script[0]) && ServedAt(script[1..], later, clients)
    requires ServesAt(script, 0)
    ensures ServedAt(script, [0] + Later(later), [script[0].accepted.value] + clients)
  {
    LaterServed(script, later, clients);
    InFront(script, Later(later), clients, script[0].accepted.value);
  }

  lemma InFront(script: seq<Poll>, at: seq<nat>, clients: seq<seq<string>>, client: seq<string>)
    requires ServesAt(script, 0) && script[0].accepted == Some(client) && |at| == |clients|
    requires forall j :: 0 <= j < |at| ==> ServesAt(script, at[j]) && script[at[j]].accepted == Some(clients[j])
    requires forall j, k :: 0 <= j < k < |at| ==> at[j] < at[k]
    requires forall n <- at :: n > 0
    requires forall i: nat :: ServesAt(script, i) && i > 0 ==> i in at
    ensures ServedAt(script, [0] + at, [client] + clients)
  {
    var ats, all := [0] + at, [client] + clients;
    forall j | 0 <= j < |ats|
      ensures ServesAt(script, ats[j]) && script[ats[j]].accepted == Some(all[j])
    {
      if j > 0 {
        assert ats[j] == at[j - 1] && all[j] == clients[j - 1];
      }
    }
    forall j, k | 0 <= j < k < |ats| ensures ats[j] < ats[k] {
      assert ats[k] == at[k - 1] && at[k - 1] in at;
      if j > 0 {
        assert ats[j] == at[j - 1];
      }
    }
    forall i: nat | ServesAt(script, i) ensures i in ats {
      if i == 0 {
        assert ats[0] == 0;
      }
    }
  }

  class HTTPServer {
    const counter: QueryCounter
    const json: JsonLibrary
    var trace: seq<Event>
    var wires: seq<string>       // what each accepted socket was written
    var forwarded: seq<string>   // what was written to Link Analysis

    constructor (counter: QueryCounter, json: JsonLibrary)
      ensures this.counter == counter && this.json == json && trace == [] && wires == [] && Valid()
    {
      this.counter, this.json, trace, wires, forwarded := counter, json, [], [], [];
    }

    /** To Link Analysis a prefix of each forwarded request was written, and nothing else. */
    ghost predicate Valid()
      reads this
    {
      Written(forwarded, Forwards(trace))
    }

    /** The run of a worker on an accepted socket. */
    method Work(chunks: seq<string>, ghost serve: Behaviour)
      returns (events: seq<Event>, wire: string, forwards: seq<string>)
      requires Implements(json, serve)
      requires Receivable(Deliverable(chunks)) && Fits(serve(chunks, counter.next))
      modifies counter
      ensures counter.next == serve(chunks, old(counter.next)).nextId
      ensures Shows(events, [serve(chunks, old(counter.next))])
      ensures OnWire(wire, serve(chunks, old(counter.next)).reply)
      ensures Written(forwards, Forwards(events))
    {
      ghost var x := serve(chunks, counter.next);
      var client := new Connection(true, chunks);
      var reachable: bool := *;
      var worker := new HTTPWorker(client, counter, json, reachable);
      assert worker.Due() == x;
      ghost var text: string, sent: nat;
      text, sent := worker.Run();
      events, wire, forwards := worker.trace, client.wire, worker.forwarded;
      WireIsPrefix(wire, text, sent);
      ShowsOne(events, x);
    }

    /** A client is served, and the worker is gone. */
    method ServeClient(chunks: seq<string>, ghost serve: Behaviour)
      returns (ghost events: seq<Event>, ghost wire: string)
      requires Valid() && Implements(json, serve)
      requires Receivable(Deliverable(chunks)) && Fits(serve(chunks, counter.next))
      modifies this, counter
      ensures Valid() && counter.next == serve(chunks, old(counter.next)).nextId
      ensures trace == old(trace) + events && Shows(events, [serve(chunks, old(counter.next))])
      ensures wires == old(wires) + [wire] && OnWire(wire, serve(chunks, old(counter.next)).reply)
    {
      var happened, written, forwards := Work(chunks, serve);
      WrittenMore(forwarded, trace, forwards, happened);
      trace, wires, forwarded := trace + happened, wires + [written], forwarded + forwards;
      events, wire := happened, written;
    }

    /** The poll loop. */
    method Loop(script: seq<Poll>, ghost serve: Behaviour)
      returns (result: Result, ghost shown: seq<Event>, ghost written: seq<string>)
      requires Valid() && Implements(json, serve)
      requires AllFit(serve, Accepted(script), counter.next)
      modifies this, counter
      ensures Valid() && trace == old(trace) + shown && wires == old(wires) + written
      ensures Shows(shown, Exchanges(serve, Accepted(script), old(counter.next)))
      ensures WiresShow(written, Exchanges(serve, Accepted(script), old(counter.next)))
      ensures counter.next == FinalId(serve, Accepted(script), old(counter.next))
      ensures result == Outcome(script)
    {
      shown, written := [], [];
      ghost var due := Exchanges(serve, Accepted(script), counter.next);
      ghost var done: seq<Exchange> := [];
      var i := 0;
      assert script[0..] == script && [] + due == due;
      while i < |script|
        invariant 0 <= i <= |script|
        invariant Valid() && trace == old(trace) + shown && wires == old(wires) + written
        invariant Outcome(script[i..]) == Outcome(script)
        invariant AllFit(serve, Accepted(script[i..]), counter.next)
        invariant Shows(shown, done) && WiresShow(written, done)
        invariant done + Exchanges(serve, Accepted(script[i..]), counter.next) == due
        invariant FinalId(serve, Accepted(script[i..]), counter.next)
               == FinalId(serve, Accepted(script), old(counter.next))
      {
        var p := script[i];
        if p.PollError? {
          assert done + [] == done;
          return Returned(false), shown, written;
        }
        if p.Ready? && p.shutdown {
          assert done + [] == done;
          return Returned(true), shown, written;
        }
        if p.Ready? && p.listener && p.accepted.Some? {
          ghost var x := TurnServes(serve, script, i, done, due, counter.next);
          ghost var events, wire := ServeClient(p.accepted.value, serve);
          ShowsAppend(shown, done, events, [x]);
          WiresShowMore(written, done, wire, x);
          Assoc(old(trace), shown, events);
          Assoc(old(wires), written, [wire]);
          shown, written, done := shown + events, written + [wire], done + [x];
        } else {
          AcceptedAt(script, i);
          assert Accepted(script[i..]) == Accepted(script[i + 1..]);
        }
        i := i + 1;
      }
      assert script[i..] == [];
      assert done + [] == done;
      return Blocked, shown, written;
    }

    /** `HTTPServer::run`.  A failed `init` returns `EXIT_FAILURE`, which as a `bool` is true. */
    method Run(initialized: bool, script: seq<Poll>)
      returns (result: Result, ghost shown: seq<Event>, ghost written: seq<string>)
      requires Valid() && AllFit(BehaviourOf(json), Accepted(script), counter.next)
      modifies this, counter
      ensures Valid() && trace == old(trace) + shown && wires == old(wires) + written
      ensures !initialized ==>
                result == Returned(true) && shown == [] && written == [] && counter.next == old(counter.next)
      ensures initialized ==>
                var xs := Exchanges(BehaviourOf(json), Accepted(script), old(counter.next));
                && (exists at :: ServedAt(script, at, Accepted(script)))
                && result == Outcome(script) && Shows(shown, xs) && WiresShow(written, xs)
                && counter.next == FinalId(BehaviourOf(json), Accepted(script), old(counter.next))
    {
      if !initialized {
        return Returned(true), [], [];
      }
      BehaviourImplements(json);
      ghost var at := AcceptedAreServed(script);
      result, shown, written := Loop(script, BehaviourOf(json));
    }
  }
}

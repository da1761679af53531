/** The parsers and printers as the program runs them, on a stream and character by character. */
module Codec {
  import opened Ascii
  import opened Text
  import opened Numbers
  import opened Messages
  import opened Syntax
  import opened Transport
  import opened Wrappers

  /** A header line as a field: lower-cases the name and skips to the value. */
  method ReadField(line: string) returns (f: Field)
    requires IsField(line)
    ensures f == FieldOf(line)
  {
    var delim := Span(line, NameText);
    var name := line[..delim];
    var c := 0;
    while c < |name|
      invariant c <= |name| == delim
      invariant forall i :: 0 <= i < c ==> name[i] == ToLower(line[i])
      invariant forall i :: c <= i < delim ==> name[i] == line[i]
    {
      name := name[c := ToLower(name[c])];
      c := c + 1;
    }
    assert name == Lower(line[..delim]);
    var start := delim + 1;
    // line[line.size()] is a NUL, so the loop stops there
    while start < |line| && IsSpace(line[start])
      invariant delim < start <= |line|
      invariant start - delim - 1 + Span(line[start..], Space) == Span(line[delim + 1..], Space)
    {
      SpanStep(line, start, Space);
      start := start + 1;
    }
    assert line[start..] == SkipSpace(line[delim + 1..]);
    f := Field(name, line[start..]);
  }

  /** What is left of the header loop when it stands at `rest` with `headers` read. */
  lemma HeaderTurn(headers: Headers, rest: string)
    ensures !Text.HasNext(rest) ==> Assign(headers, HeaderFields(rest)) == headers && HeaderRest(rest) == rest
    ensures Text.HasNext(rest) && !IsField(Line(rest)) ==>
              Assign(headers, HeaderFields(rest)) == headers && HeaderRest(rest) == AfterLine(rest)
    ensures Text.HasNext(rest) && IsField(Line(rest)) ==>
              var f := FieldOf(Line(rest));
              && Assign(headers, HeaderFields(rest))
                 == Assign(headers[f.name := f.value], HeaderFields(AfterLine(rest)))
              && HeaderRest(rest) == HeaderRest(AfterLine(rest))
  {
  }

  /** A turn of the header loop: the next line, as a field if it is one. */
  method ReadHeaderLine(ss: SocketStream) returns (field: Option<Field>)
    requires ss.Valid() && Text.HasNext(ss.Rest())
    modifies ss`buffer, ss`timedOut, ss`pos, ss.socket`inbound
    ensures ss.Valid() && ss.Full() == old(ss.Full()) && ss.Rest() == AfterLine(old(ss.Rest()))
    ensures field == if IsField(Line(old(ss.Rest()))) then Some(FieldOf(Line(old(ss.Rest())))) else None
    ensures ss.pos <= |ss.Full()| + 1
  {
    assert ss.pos <= |ss.Full()|;
    var read := ss.NextLine(false);
    var line := read.value;
    if line == "" || !IsField(line) {
      return None;
    }
    var f := ReadField(line);
    field := Some(f);
  }

  /** The header loop, the same in both parsers. */
  method ReadHeaders(ss: SocketStream) returns (headers: Headers)
    requires ss.Valid()
    modifies ss`buffer, ss`timedOut, ss`pos, ss.socket`inbound
    ensures ss.Valid() && ss.Full() == old(ss.Full())
    ensures headers == HeaderMap(old(ss.Rest())) && ss.Rest() == HeaderRest(old(ss.Rest()))
    ensures old(ss.pos) <= |ss.Full()| + 1 ==> ss.pos <= |ss.Full()| + 1
  {
    headers := map[];
    ghost var s := ss.Rest();
    HeaderTurn(headers, s);
    var more := ss.HasNext();
    while more
      invariant ss.Valid() && ss.Full() == old(ss.Full())
      invariant more ==> Text.HasNext(ss.Rest())
      invariant old(ss.pos) <= |ss.Full()| + 1 ==> ss.pos <= |ss.Full()| + 1
      invariant HeaderMap(s) == if more then Assign(headers, HeaderFields(ss.Rest())) else headers
      invariant HeaderRest(s) == if more then HeaderRest(ss.Rest()) else ss.Rest()
      decreases more, |ss.Rest()|
    {
      HeaderTurn(headers, ss.Rest());
      var field := ReadHeaderLine(ss);
      if field == None {
        break;
      }
      headers := headers[field.value.name := field.value.value];
      HeaderTurn(headers, ss.Rest());
      more := ss.HasNext();
    }
  }

  /** The body is read only when something other than white space is left. */
  method ReadBody(ss: SocketStream) returns (body: string)
    requires ss.Valid()
    modifies ss`buffer, ss`timedOut, ss`pos, ss.socket`inbound
    ensures ss.Valid() && ss.Full() == old(ss.Full())
    ensures body == BodyOf(old(ss.Rest()))
    ensures old(ss.pos) <= |ss.Full()| + 1 ==> ss.pos <= |ss.Full()| + 1
  {
    body := "";
    var ahead := ss.HasNext();
    if ahead {
      assert ss.pos <= |ss.Full()|;
      var read := ss.Remaining();
      body := read.value;
    }
  }

  /** The three words of the request line. */
  method LexThreeWords(ss: SocketStream)
    returns (name: string, resource: string, version: string, ghost s1: string, ghost s2: string)
    requires ss.Valid() && ss.pos == 0
    modifies ss`buffer, ss`timedOut, ss`pos, ss.socket`inbound
    ensures ss.Valid() && ss.Full() == old(ss.Full()) && ss.pos <= |ss.Full()|
    ensures name == Word(ss.Full()) && s1 == AfterWord(ss.Full())
    ensures resource == Word(s1) && s2 == AfterWord(s1)
    ensures version == Word(s2) && ss.Rest() == AfterWord(s2)
  {
    assert ss.Rest() == ss.Full();
    var read := ss.NextWord();
    name, s1 := read.value, ss.Rest();
    read := ss.NextWord();
    resource, s2 := read.value, ss.Rest();
    read := ss.NextWord();
    version := read.value;
  }

  /** The three words of the request line, and where the text up to them has a newline. */
  method LexRequestLine(ss: SocketStream)
    returns (name: string, resource: string, version: string, newline: int)
    requires ss.Valid() && ss.pos == 0
    modifies ss`buffer, ss`timedOut, ss`pos, ss.socket`inbound
    ensures ss.Valid() && ss.Full() == old(ss.Full()) && ss.pos <= |ss.Full()|
    ensures Syntax.ReadRequestLine(ss.Full()) == CheckRequestLine(name, resource, version, newline, ss.Rest())
  {
    ghost var s1, s2;
    name, resource, version, s1, s2 := LexThreeWords(ss);
    var passed := ss.PassedBuffer();
    RequestLineLexed(ss.Full(), s1, s2, ss.Rest(), ss.pos);
    newline := FindNewline(passed);
  }

  /** The part of `parseRequest` before the header loop. */
  method ReadRequestLine(ss: SocketStream) returns (l: Option<RequestStart>)
    requires ss.Valid() && ss.pos == 0
    modifies ss`buffer, ss`timedOut, ss`pos, ss.socket`inbound
    ensures ss.Valid() && ss.Full() == old(ss.Full()) && ss.pos <= |ss.Full()| + 1
    ensures match Syntax.ReadRequestLine(old(ss.Full()))
            case None => l == None
            case Some(Start(line, rest)) => l == Some(line) && ss.Rest() == rest
  {
    var name, resource, version, newline := LexRequestLine(ss);
    var verb := StringToMethod(name);
    if newline != -1 || resource == "" || version == "" {
      return None;
    }
    var line := ss.NextLine(false);
    var blank := IsBlank(line.value);
    if !blank || verb == UNKNOWN {
      return None;
    }
    return Some(RequestStart(verb, resource, version));
  }

  /** The loop that looks for extra characters at the end of the request line. */
  method IsBlank(line: string) returns (blank: bool)
    ensures blank <==> !Text.HasNext(line)
  {
    HasNextIff(line);
    var i := 0;
    while i < |line|
      invariant 0 <= i <= |line|
      invariant forall j :: 0 <= j < i ==> IsSpace(line[j])
    {
      if !IsSpace(line[i]) {
        return false;
      }
      i := i + 1;
    }
    return true;
  }

  /** `HTTPWorker::parseRequest`.  The stream's cursor is left at `cursor`, at most one past the
      end of the text. */
  method ParseRequest(sock: Connection) returns (r: Option<HTTPRequest>, ghost cursor: nat)
    requires Receivable(sock.Incoming())
    modifies sock`inbound
    ensures r == Syntax.ParseRequest(old(sock.Incoming()))
    ensures cursor <= |old(sock.Incoming())| + 1
  {
    var ss := new SocketStream(sock);
    var l := ReadRequestLine(ss);
    if l == None {
      return None, ss.pos;
    }
    var headers := ReadHeaders(ss);
    var body := ReadBody(ss);
    return Some(HTTPRequest(l.value.verb, l.value.resource, l.value.version, headers, body)), ss.pos;
  }

  /** The version, the status code and the reason phrase, which starts at `s`; then where the
      text up to the cursor has its first newline, and how long that text is. */
  method LexStatusLine(ss: SocketStream)
    returns (version: string, valid: bool, number: nat, status: string, newline: int, passed: nat,
             ghost s: string)
    requires ss.Valid() && ss.pos == 0
    modifies ss`buffer, ss`timedOut, ss`pos, ss.socket`inbound
    ensures ss.Valid() && ss.Full() == old(ss.Full()) && ss.pos <= |ss.Full()| + 1
    ensures !valid ==> Syntax.ReadStatusLine(ss.Full()) == None
    ensures valid ==>
              && Syntax.ReadStatusLine(ss.Full()) == CheckStatusLine(version, number, newline, passed, s)
              && status == Line(s) && ss.Rest() == AfterLine(s)
  {
    ghost var t := ss.Full();
    assert ss.Rest() == t;
    var read := ss.NextWord();
    version := read.value;
    ghost var s1 := ss.Rest();
    read := ss.NextWord();
    var code := Stoul(read.value);
    s := SkipSpace(ss.Rest());
    if code == None {
      return version, false, 0, "", -1, 0, "";
    }
    valid, number := true, code.value;
    read := ss.NextLine(true);
    status := read.value;
    var before := ss.PassedBuffer();
    StatusLineLexed(t, s1, s, ss.pos);
    newline, passed := FindNewline(before), |before|;
  }

  /** The part of `parseResponse` before the header loop. */
  method ReadStatusLine(ss: SocketStream) returns (l: Option<ResponseStart>)
    requires ss.Valid() && ss.pos == 0
    modifies ss`buffer, ss`timedOut, ss`pos, ss.socket`inbound
    ensures ss.Valid() && ss.Full() == old(ss.Full()) && ss.pos <= |ss.Full()| + 1
    ensures match Syntax.ReadStatusLine(old(ss.Full()))
            case None => l == None
            case Some(Start(line, rest)) => l == Some(line) && ss.Rest() == rest
  {
    var version, valid, number, status, newline, passed, s := LexStatusLine(ss);
    if !valid {
      return None;
    }
    var code := Truncate32(number);
    if newline + 1 != passed || version == "" || code == 0 || status == "" {
      return None;
    }
    return Some(ResponseStart(version, code, status));
  }

  /** `HTTPWorker::parseResponse` */
  method ParseResponse(sock: Connection) returns (r: Option<HTTPResponse>, ghost cursor: nat)
    requires Receivable(sock.Incoming())
    modifies sock`inbound
    ensures r == Syntax.ParseResponse(old(sock.Incoming()))
    ensures cursor <= |old(sock.Incoming())| + 1
  {
    var ss := new SocketStream(sock);
    var l := ReadStatusLine(ss);
    if l == None {
      return None, ss.pos;
    }
    var headers := ReadHeaders(ss);
    var body := ReadBody(ss);
    return Some(HTTPResponse(l.value.version, l.value.code, l.value.status, headers, body)), ss.pos;
  }

  /** The loop over the unordered header map: every order of its entries is possible. */
  method PrintHeaders(headers: Headers) returns (s: string)
    ensures exists fields :: Enumerates(fields, headers) && s == FieldsText(fields)
  {
    s := "";
    ghost var fields: seq<Field> := [];
    var left := headers.Keys;
    while left != {}
      invariant left <= headers.Keys && s == FieldsText(fields)
      invariant forall f <- fields :: f.name in headers.Keys - left && headers[f.name] == f.value
      invariant forall n <- headers :: n in left || Field(n, headers[n]) in fields
      invariant forall i, j :: 0 <= i < j < |fields| ==> fields[i].name != fields[j].name
      decreases left
    {
      var name :| name in left;
      FieldsTextAppend(fields, [Field(name, headers[name])]);
      s := s + name + ": " + headers[name] + "\r\n";
      fields := fields + [Field(name, headers[name])];
      left := left - {name};
    }
    assert Enumerates(fields, headers);
  }

  lemma FieldsTextAppend(a: seq<Field>, b: seq<Field>)
    ensures FieldsText(a + b) == FieldsText(a) + FieldsText(b)
  {
    if a == [] {
      assert a + b == b;
    } else {
      assert (a + b)[1..] == a[1..] + b;
    }
  }

  /** `to_string(const HTTPRequest&)` */
  method PrintRequest(r: HTTPRequest) returns (s: string)
    ensures exists fields :: Enumerates(fields, r.headers) && s == RequestText(r, fields)
  {
    s := MethodToString(r.verb) + " " + r.resource + " " + r.version + "\r\n";
    var headers := PrintHeaders(r.headers);
    s := s + (headers + ("\r\n" + r.body));
  }

  /** `to_string(const HTTPResponse&)` */
  method PrintResponse(r: HTTPResponse) returns (s: string)
    ensures exists fields :: Enumerates(fields, r.headers) && s == ResponseText(r, fields)
  {
    s := r.version + " " + Decimal(r.code) + " " + r.status + "\r\n";
    var headers := PrintHeaders(r.headers);
    s := s + (headers + ("\r\n" + r.body));
  }
}

/**
 Parsing undoes printing.  A message survives the trip, with its header names in lower case,
 for every order of its headers, exactly when it is of the kind a parse can return.
 */
module RoundTrip {
  import opened Ascii
  import opened Text
  import opened Numbers
  import opened Messages
  import opened Syntax
  import opened Grammar
  import opened HeaderBlock
  import opened Wrappers

  // ---------------------------------------------------------------- any text

  function FirstLine(t: string): string {
    t[..Span(t, LineText)]
  }

  lemma FirstLineIs(t: string)
    ensures var s := FirstLine(t); var tail := t[|s|..];
            t == s + tail && LineEndsWith(s, tail) && AfterNewline(tail) == AfterLine(t)
  {
    SpanIs(t, LineText);
  }

  /** A text is a request exactly when its first line is three words starting with a method. */
  lemma RequestAccepted(t: string)
    ensures match ParseRequest(t)
            case None => RequestLineOf(FirstLine(t)) == None
            case Some(r) =>
              && RequestLineOf(FirstLine(t)) == Some(RequestStart(r.verb, r.resource, r.version))
              && r.headers == HeaderMap(AfterLine(t)) && r.body == BodyOf(HeaderRest(AfterLine(t)))
  {
    FirstLineIs(t);
    RequestLineGrammar(FirstLine(t), t[|FirstLine(t)|..]);
  }

  /** A text is a response exactly when its first line is ended by a newline and says a
      version, a number with non-zero low 32 bits and a reason. */
  lemma ResponseAccepted(t: string)
    ensures match ParseResponse(t)
            case None => FirstLine(t) == t || StatusLineOf(FirstLine(t)) == None
            case Some(r) =>
              && FirstLine(t) != t
              && StatusLineOf(FirstLine(t)) == Some(ResponseStart(r.version, r.code, r.status))
              && r.headers == HeaderMap(AfterLine(t)) && r.body == BodyOf(HeaderRest(AfterLine(t)))
  {
    FirstLineIs(t);
    StatusLineGrammar(FirstLine(t), t[|FirstLine(t)|..]);
  }

  /** No byte is lost when a request or a response is parsed: the text is its first line, the
      field lines, the line that ended them and a rest, and the body is exactly that rest, or
      is empty when the rest is all white space. */
  lemma {:induction false} MessageConserved(t: string)
    ensures var s := AfterLine(t);
            && t == FrontLine(t) + (Flatten(FieldLines(s)) + (TerminatorLine(s) + HeaderRest(s)))
            && (forall r :: ParseRequest(t) == Some(r) ==>
                  r.body == HeaderRest(s) || (r.body == "" && !HasNext(HeaderRest(s))))
            && (forall r :: ParseResponse(t) == Some(r) ==>
                  r.body == HeaderRest(s) || (r.body == "" && !HasNext(HeaderRest(s))))
  {
    RequestAccepted(t);
    ResponseAccepted(t);
    FrontLineIs(t);
    BlockConserved(AfterLine(t));
  }

  /** Changing the letter case of header names changes no parse, whatever the first line is and
      whatever follows the header lines. */
  lemma {:induction false} HeaderCaseIgnored(start: string, a: seq<RawField>, b: seq<RawField>, tail: string)
    requires AllIn(start, LineText)
    requires forall f <- a :: Writable(f)
    requires forall f <- b :: Writable(f)
    requires SameUpToCase(a, b)
    ensures ParseRequest(start + ("\n" + (RawBlock(a) + tail))) == ParseRequest(start + ("\n" + (RawBlock(b) + tail)))
    ensures ParseResponse(start + ("\n" + (RawBlock(a) + tail))) == ParseResponse(start + ("\n" + (RawBlock(b) + tail)))
  {
    var s, s' := RawBlock(a) + tail, RawBlock(b) + tail;
    RawBlockRead(a, tail);
    RawBlockRead(b, tail);
    ReadAllIgnoresCase(a, b);
    RequestLineGrammar(start, "\n" + s);
    RequestLineGrammar(start, "\n" + s');
    StatusLineGrammar(start, "\n" + s);
    StatusLineGrammar(start, "\n" + s');
    assert ("\n" + s)[1..] == s && ("\n" + s')[1..] == s';
  }

  // ---------------------------------------------------------------- what can be sent

  ghost predicate IsWord(w: string) {
    w != "" && AllIn(w, WordText)
  }

  ghost predicate CleanHeaders(h: Headers) {
    forall n <- h :: CleanField(Field(n, h[n]))
  }

  /** Empty, or not all white space. */
  ghost predicate CleanBody(body: string) {
    body == "" || HasNext(body)
  }

  ghost predicate SendableRequest(r: HTTPRequest) {
    r.verb != UNKNOWN && IsWord(r.resource) && IsWord(r.version) && CleanHeaders(r.headers) && CleanBody(r.body)
  }

  ghost predicate SendableResponse(r: HTTPResponse) {
    && r.code != 0 && IsWord(r.version) && r.status != "" && CleanValue(r.status)
    && CleanHeaders(r.headers) && CleanBody(r.body)
  }

  /** No two header names are the same name in different letter case. */
  ghost predicate CaseDistinct(h: Headers) {
    forall a, b :: a in h && b in h && Lower(a) == Lower(b) ==> a == b
  }

  /** Names that are the same in lower case carry the same value. */
  ghost predicate Agreeing(h: Headers) {
    forall a, b :: a in h && b in h && Lower(a) == Lower(b) ==> h[a] == h[b]
  }

  function LowerName(f: Field): Field {
    Field(Lower(f.name), f.value)
  }

  function LowerNames(fields: seq<Field>): seq<Field> {
    if fields == [] then [] else [LowerName(fields[0])] + LowerNames(fields[1..])
  }

  /** The headers after the trip: lower-cased and assigned in the order in which they are sent. */
  function Arrived(fields: seq<Field>): Headers {
    Assign(map[], LowerNames(fields))
  }

  lemma {:induction false} LowerNamesAt(fields: seq<Field>)
    ensures |LowerNames(fields)| == |fields|
    ensures forall i :: 0 <= i < |fields| ==> LowerNames(fields)[i] == LowerName(fields[i])
  {
    if fields != [] {
      LowerNamesAt(fields[1..]);
    }
  }

  /** What arrives under a name is the value of a field sent under that name in some letter case. */
  lemma ArrivedFrom(fields: seq<Field>, k: string) returns (f: Field)
    requires k in Arrived(fields)
    ensures f in fields && Lower(f.name) == k && Arrived(fields)[k] == f.value
  {
    LowerNamesAt(fields);
    var i := AssignedFrom(LowerNames(fields), k);
    f := fields[i];
  }

  lemma EveryNameArrives(fields: seq<Field>, f: Field)
    requires f in fields
    ensures Lower(f.name) in Arrived(fields)
  {
    LowerNamesAt(fields);
    var i :| 0 <= i < |fields| && fields[i] == f;
    NameAssigned(LowerNames(fields), i);
  }

  lemma LastArrives(fields: seq<Field>)
    requires fields != []
    ensures var f := fields[|fields| - 1]; Lower(f.name) in Arrived(fields) && Arrived(fields)[Lower(f.name)] == f.value
  {
    LowerNamesAt(fields);
    LastAssigned(LowerNames(fields), |fields| - 1);
  }

  /** When colliding names agree the order is irrelevant: each entry arrives under its
      lower-cased name, and there are no others. */
  lemma ArrivedIs(fields: seq<Field>, h: Headers)
    requires Enumerates(fields, h) && Agreeing(h)
    ensures forall n <- h :: Lower(n) in Arrived(fields) && Arrived(fields)[Lower(n)] == h[n]
    ensures forall k <- Arrived(fields) :: exists n :: n in h && Lower(n) == k
  {
    forall n | n in h
      ensures Lower(n) in Arrived(fields) && Arrived(fields)[Lower(n)] == h[n]
    {
      assert Field(n, h[n]) in fields;
      EveryNameArrives(fields, Field(n, h[n]));
      var f := ArrivedFrom(fields, Lower(n));
    }
    forall k | k in Arrived(fields)
      ensures exists n :: n in h && Lower(n) == k
    {
      var f := ArrivedFrom(fields, k);
    }
  }

  lemma SomeField(fields: seq<Field>, h: Headers)
    requires Enumerates(fields, h) && fields != []
    ensures h != map[]
  {
    assert fields[0] in fields;
  }

  lemma OneMoreField(fields: seq<Field>, h: Headers, n: string, v: string)
    requires Enumerates(fields, h) && n !in h
    ensures Enumerates(fields + [Field(n, v)], h[n := v])
  {
    assert forall f <- fields :: f.name != n;
    assert Field(n, v) in fields + [Field(n, v)];
    assert forall f <- fields :: f in fields + [Field(n, v)];
  }

  lemma PutBack(h: Headers, n: string)
    requires n in h
    ensures n !in h - {n} && (h - {n})[n := h[n]] == h && |h - {n}| < |h|
  {
    var rest := h - {n};
    assert h.Keys == rest.Keys + {n};
    assert |rest.Keys| == |rest| && |h.Keys| == |h|;
  }

  /** Every map can be walked in some order ... */
  lemma {:induction false} SomeOrder(h: Headers) returns (fields: seq<Field>)
    ensures Enumerates(fields, h)
    decreases |h|
  {
    if h == map[] {
      fields := [];
    } else {
      var n :| n in h;
      PutBack(h, n);
      fields := SomeOrder(h - {n});
      OneMoreField(fields, h - {n}, n, h[n]);
      fields := fields + [Field(n, h[n])];
    }
  }

  /** ... also in one that ends with a given name, whose value is then the one that arrives. */
  lemma OrderEndingIn(h: Headers, n: string) returns (fields: seq<Field>)
    requires n in h
    ensures Enumerates(fields, h)
    ensures Lower(n) in Arrived(fields) && Arrived(fields)[Lower(n)] == h[n]
  {
    PutBack(h, n);
    var before := SomeOrder(h - {n});
    OneMoreField(before, h - {n}, n, h[n]);
    fields := before + [Field(n, h[n])];
    LastArrives(fields);
  }

  /** The order in which the headers are printed can be told from what arrives exactly when two
      colliding names carry different values. */
  lemma {:induction false} OrderMattersIff(h: Headers)
    ensures (exists a, b :: Enumerates(a, h) && Enumerates(b, h) && Arrived(a) != Arrived(b)) <==> !Agreeing(h)
  {
    if Agreeing(h) {
      forall a, b | Enumerates(a, h) && Enumerates(b, h) ensures Arrived(a) == Arrived(b) {
        ArrivedIs(a, h);
        ArrivedIs(b, h);
      }
    } else {
      var m, n :| m in h && n in h && Lower(m) == Lower(n) && h[m] != h[n];
      var a := OrderEndingIn(h, m);
      var b := OrderEndingIn(h, n);
      assert Arrived(a)[Lower(m)] != Arrived(b)[Lower(m)];
    }
  }

  // ---------------------------------------------------------------- printing, then parsing

  /** A printed header line as the header block sees it. */
  function Written(f: Field): RawField {
    RawField(f.name, " " + f.value + "\r")
  }

  function WrittenAll(fields: seq<Field>): seq<RawField> {
    if fields == [] then [] else [Written(fields[0])] + WrittenAll(fields[1..])
  }

  lemma WrittenField(f: Field)
    requires CleanField(f)
    ensures Writable(Written(f)) && Read(Written(f)) == LowerName(f)
  {
    var text := " " + f.value;
    DropCROf(text);
    assert text + "\r" == Written(f).text;
    assert text[..1] == " " && text[1..] == f.value;
    SpanUnique(text, Space, 1);
  }

  lemma FieldTextEnds(f: Field)
    ensures FieldText(f) == RawLine(Written(f)) + "\n"
  {
  }

  lemma {:induction false} WrittenBlock(fields: seq<Field>)
    requires forall f <- fields :: CleanField(f)
    ensures RawBlock(WrittenAll(fields)) == FieldsText(fields)
    ensures forall f <- WrittenAll(fields) :: Writable(f)
    ensures ReadAll(WrittenAll(fields)) == LowerNames(fields)
  {
    if fields != [] {
      assert fields[0] in fields;
      WrittenField(fields[0]);
      WrittenBlock(fields[1..]);
      FieldTextEnds(fields[0]);
      assert WrittenAll(fields)[1..] == WrittenAll(fields[1..]);
    }
  }

  /** Printed headers, the blank line and a body are read back. */
  lemma {:induction false} PrintedHeaders(fields: seq<Field>, body: string)
    requires forall f <- fields :: CleanField(f)
    ensures var s := FieldsText(fields) + ("\r\n" + body);
            HeaderMap(s) == Arrived(fields) && BodyOf(HeaderRest(s)) == BodyOf(body)
  {
    var tail := "\r\n" + body;
    WrittenBlock(fields);
    RawBlockRead(WrittenAll(fields), tail);
    assert tail == "\r" + "\n" + body;
    EndLine("\r", body);
    assert LowerNames(fields) + [] == LowerNames(fields);
  }

  lemma {:induction false} ThirdWord(w1: string, w2: string, third: string)
    requires IsWord(w1) && IsWord(w2) && HasNext(third) && IsSpace(third[0])
    ensures var s := w1 + (" " + w2 + third);
            Words(s) == [w1, w2] + Words(third) && AfterWord(AfterWord(s)) == third
  {
    var second := " " + w2 + third;
    var s := w1 + second;
    WordOf(w1, second);
    WordsStep(s, w1, second);
    WordOfSpaced(w2, third);
    WordsStep(second, w2, third);
    TwoInFront(w1, w2, Words(third));
  }

  /** The printed start lines without their newline. */
  function RequestLineBody(r: HTTPRequest): string {
    MethodToString(r.verb) + (" " + r.resource + (" " + r.version + "\r"))
  }

  function StatusLineBody(r: HTTPResponse): string {
    r.version + (" " + Decimal(r.code) + (" " + r.status + "\r"))
  }

  lemma {:induction false} RequestLineBodyIs(r: HTTPRequest)
    requires r.verb != UNKNOWN && IsWord(r.resource) && IsWord(r.version)
    ensures RequestLineOf(RequestLineBody(r)) == Some(RequestStart(r.verb, r.resource, r.version))
    ensures AllIn(RequestLineBody(r), LineText)
  {
    var name := MethodToString(r.verb);
    MethodTables(name, r.verb);
    var third := " " + r.version + "\r";
    LastWord(r.version);
    ThirdWord(name, r.resource, third);
    WordsAreLineText(name, r.resource, r.version);
  }

  lemma LastWord(w: string)
    requires IsWord(w)
    ensures var third := " " + w + "\r"; HasNext(third) && Words(third) == [w]
  {
    var third := " " + w + "\r";
    WordOfSpaced(w, "\r");
    WordIff(third);
    WordsStep(third, w, "\r");
    assert !HasNext("\r") by { HasNextIff("\r"); }
    assert [w] + [] == [w];
  }

  lemma WordsAreLineText(w1: string, w2: string, text: string)
    requires IsWord(w1) && IsWord(w2) && (AllIn(text, LineText) || IsWord(text))
    ensures AllIn(w1 + (" " + w2 + (" " + text + "\r")), LineText)
  {
    assert forall i :: 0 <= i < |w1| ==> InClass(w1[i], WordText);
    assert forall i :: 0 <= i < |w2| ==> InClass(w2[i], WordText);
    assert IsWord(text) ==> forall i :: 0 <= i < |text| ==> InClass(text[i], WordText);
  }

  lemma ReasonOf(status: string)
    requires status != "" && CleanValue(status)
    ensures var third := " " + status + "\r";
            HasNext(third) && DropCR(SkipSpace(third)) == status
  {
    var text := " " + status;
    assert text[..1] == " " && text[1..] == status;
    SpanUnique(text, Space, 1);
    SkipSpaceAppend(text, "\r");
    HasNextAppend(text, "\r");
    DropCROf(status);
  }

  lemma {:induction false} StatusLineBodyIs(r: HTTPResponse)
    requires r.code != 0 && IsWord(r.version) && r.status != "" && CleanValue(r.status)
    ensures StatusLineOf(StatusLineBody(r)) == Some(ResponseStart(r.version, r.code, r.status))
    ensures AllIn(StatusLineBody(r), LineText)
  {
    var number := Decimal(r.code);
    DecimalIsWord(r.code);
    var third := " " + r.status + "\r";
    ReasonOf(r.status);
    ThirdWord(r.version, number, third);
    var w := Words(StatusLineBody(r));
    assert |w| >= 3 && w[0] == r.version && w[1] == number;
    StoulOfPrinted(w[1], r.code);
    assert ReasonPhrase(StatusLineBody(r)) == r.status;
    Truncate32Keeps(r.code);
    WordsAreLineText(r.version, number, r.status);
  }

  lemma StartThenRest(line: string, s: string, rest: string)
    requires line == s + "\n"
    ensures line + rest == s + ("\n" + rest) && AfterNewline("\n" + rest) == rest
  {
  }

  lemma RequestLineEnds(r: HTTPRequest)
    ensures RequestLine(r) == RequestLineBody(r) + "\n"
  {
  }

  lemma StatusLineEnds(r: HTTPResponse)
    ensures StatusLine(r) == StatusLineBody(r) + "\n"
  {
  }

  lemma {:induction false} PrintedRequestLine(r: HTTPRequest, rest: string)
    requires r.verb != UNKNOWN && IsWord(r.resource) && IsWord(r.version)
    ensures ReadRequestLine(RequestLine(r) + rest)
         == Some(Start(RequestStart(r.verb, r.resource, r.version), rest))
  {
    RequestLineBodyIs(r);
    RequestLineEnds(r);
    StartThenRest(RequestLine(r), RequestLineBody(r), rest);
    RequestLineGrammar(RequestLineBody(r), "\n" + rest);
  }

  lemma PrintedStatusLine(r: HTTPResponse, rest: string)
    requires r.code != 0 && IsWord(r.version) && r.status != "" && CleanValue(r.status)
    ensures ReadStatusLine(StatusLine(r) + rest)
         == Some(Start(ResponseStart(r.version, r.code, r.status), rest))
  {
    StatusLineBodyIs(r);
    StatusLineEnds(r);
    StartThenRest(StatusLine(r), StatusLineBody(r), rest);
    StatusLineGrammar(StatusLineBody(r), "\n" + rest);
  }

  lemma DecimalIsWord(n: nat)
    ensures IsWord(Decimal(n))
  {
    var s := Decimal(n);
    assert forall i :: 0 <= i < |s| ==> InClass(s[i], Digits);
  }

  lemma EnumeratedFieldsAreClean(fields: seq<Field>, h: Headers)
    requires Enumerates(fields, h) && CleanHeaders(h)
    ensures forall f <- fields :: CleanField(f)
  {
    forall f | f in fields ensures CleanField(f) {
      assert f == Field(f.name, h[f.name]);
    }
  }

  /** A parse is put together from its start line and its header block. */
  lemma RequestFrom(t: string, l: RequestStart, s: string, h: Headers, body: string)
    requires ReadRequestLine(t) == Some(Start(l, s))
    requires HeaderMap(s) == h && BodyOf(HeaderRest(s)) == body
    ensures ParseRequest(t) == Some(HTTPRequest(l.verb, l.resource, l.version, h, body))
  {
  }

  lemma ResponseFrom(t: string, l: ResponseStart, s: string, h: Headers, body: string)
    requires ReadStatusLine(t) == Some(Start(l, s))
    requires HeaderMap(s) == h && BodyOf(HeaderRest(s)) == body
    ensures ParseResponse(t) == Some(HTTPResponse(l.version, l.code, l.status, h, body))
  {
  }

  /** Printing a sendable request and parsing the text gives the request back with its header
      names in lower case, in whatever order the headers were printed. */
  lemma RequestRoundTrip(r: HTTPRequest, fields: seq<Field>)
    requires SendableRequest(r) && Enumerates(fields, r.headers)
    ensures ParseRequest(RequestText(r, fields)) == Some(r.(headers := Arrived(fields)))
  {
    EnumeratedFieldsAreClean(fields, r.headers);
    PrintedHeaders(fields, r.body);
    var block := FieldsText(fields) + ("\r\n" + r.body);
    PrintedRequestLine(r, block);
    var t, l := RequestLine(r) + block, RequestStart(r.verb, r.resource, r.version);
    RequestFrom(t, l, block, Arrived(fields), r.body);
  }

  lemma ResponseRoundTrip(r: HTTPResponse, fields: seq<Field>)
    requires SendableResponse(r) && Enumerates(fields, r.headers)
    ensures ParseResponse(ResponseText(r, fields)) == Some(r.(headers := Arrived(fields)))
  {
    EnumeratedFieldsAreClean(fields, r.headers);
    PrintedHeaders(fields, r.body);
    var block := FieldsText(fields) + ("\r\n" + r.body);
    PrintedStatusLine(r, block);
    var t, l := StatusLine(r) + block, ResponseStart(r.version, r.code, r.status);
    ResponseFrom(t, l, block, Arrived(fields), r.body);
  }
}

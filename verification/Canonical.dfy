/**
 What every parse returns, and the three consequences: the round trip holds exactly for the
 sendable messages, printing a parsed message and parsing it again changes nothing, and two
 messages with one text are one message.
 */
module Canonical {
  import opened Ascii
  import opened Text
  import opened Messages
  import opened Syntax
  import opened Grammar
  import opened HeaderBlock
  import opened RoundTrip
  import opened Wrappers

  lemma {:induction false} WordsAreWords(s: string)
    ensures forall w <- Words(s) :: IsWord(w)
    decreases |s|
  {
    if HasNext(s) {
      WordIff(s);
      WordIs(s);
      WordShrinks(s);
      WordsAreWords(AfterWord(s));
    }
  }

  ghost predicate LowerCased(h: Headers) {
    forall n <- h :: IsLower(n)
  }

  lemma RequestLineIsSendable(s: string)
    requires RequestLineOf(s).Some?
    ensures var l := RequestLineOf(s).value; l.verb != UNKNOWN && IsWord(l.resource) && IsWord(l.version)
  {
    WordsAreWords(s);
    var w := Words(s);
    assert w[1] in w && w[2] in w;
  }

  /** A parsed request can be sent again, and its header names are in lower case. */
  lemma {:induction false} ParsedRequestIsSendable(t: string)
    requires ParseRequest(t).Some?
    ensures SendableRequest(ParseRequest(t).value) && LowerCased(ParseRequest(t).value.headers)
  {
    RequestAccepted(t);
    RequestLineIsSendable(FirstLine(t));
    HeaderMapIsClean(AfterLine(t));
  }

  lemma DropCRIsClean(l: string)
    requires AllIn(l, LineText) && l != "" && !IsSpace(l[0])
    ensures DropCR(l) != "" && CleanValue(DropCR(l))
  {
  }

  lemma StatusLineIsSendable(s: string)
    requires AllIn(s, LineText) && StatusLineOf(s).Some?
    ensures var l := StatusLineOf(s).value; l.code != 0 && IsWord(l.version) && l.status != "" && CleanValue(l.status)
  {
    WordsAreWords(s);
    assert Words(s)[0] in Words(s);
    FirstThreeWords(s);
    var s1 := AfterWord(s);
    var s2 := AfterWord(s1);
    SuffixOfLine(s);
    SuffixOfLine(s1);
    SuffixOfLine(s2);
    ReasonIs(s2);
    DropCRIsClean(SkipSpace(s2));
  }

  lemma ParsedResponseIsSendable(t: string)
    requires ParseResponse(t).Some?
    ensures SendableResponse(ParseResponse(t).value) && LowerCased(ParseResponse(t).value.headers)
  {
    ResponseAccepted(t);
    SpanIs(t, LineText);
    StatusLineIsSendable(FirstLine(t));
    HeaderMapIsClean(AfterLine(t));
  }

  /** If the headers arrive clean, they were clean when they were sent. */
  lemma CleanOnArrival(fields: seq<Field>, h: Headers)
    requires Enumerates(fields, h) && Agreeing(h) && CleanHeaders(Arrived(fields))
    ensures CleanHeaders(h)
  {
    ArrivedIs(fields, h);
    forall n | n in h ensures CleanField(Field(n, h[n])) {
      LowerKeepsClass(n);
      assert Lower(n) in Arrived(fields);
    }
  }

  /** The round trip holds for a request, in which colliding header names agree, exactly when it
      is sendable. */
  lemma RequestRoundTripIff(r: HTTPRequest, fields: seq<Field>)
    requires Enumerates(fields, r.headers) && Agreeing(r.headers)
    ensures ParseRequest(RequestText(r, fields)) == Some(r.(headers := Arrived(fields))) <==> SendableRequest(r)
  {
    if SendableRequest(r) {
      RequestRoundTrip(r, fields);
    }
    if ParseRequest(RequestText(r, fields)) == Some(r.(headers := Arrived(fields))) {
      ParsedRequestIsSendable(RequestText(r, fields));
      CleanOnArrival(fields, r.headers);
    }
  }

  lemma ResponseRoundTripIff(r: HTTPResponse, fields: seq<Field>)
    requires Enumerates(fields, r.headers) && Agreeing(r.headers)
    ensures ParseResponse(ResponseText(r, fields)) == Some(r.(headers := Arrived(fields))) <==> SendableResponse(r)
  {
    if SendableResponse(r) {
      ResponseRoundTrip(r, fields);
    }
    if ParseResponse(ResponseText(r, fields)) == Some(r.(headers := Arrived(fields))) {
      ParsedResponseIsSendable(ResponseText(r, fields));
      CleanOnArrival(fields, r.headers);
    }
  }

  /** Lower-cased headers arrive as they were sent. */
  lemma LowerCasedArrive(fields: seq<Field>, h: Headers)
    requires Enumerates(fields, h) && LowerCased(h)
    ensures Agreeing(h) && Arrived(fields) == h
  {
    forall n | n in h ensures Lower(n) == n {
      assert forall c <- n :: !IsUpper(c);
      LowerOfLower(n);
    }
    ArrivedIs(fields, h);
    assert forall k <- Arrived(fields) :: k in h;
  }

  /** Whatever text was parsed, printing the result in any header order and parsing that gives
      the same result: the printed form is canonical. */
  lemma {:induction false} RequestReparse(t: string, fields: seq<Field>)
    requires ParseRequest(t).Some? && Enumerates(fields, ParseRequest(t).value.headers)
    ensures ParseRequest(RequestText(ParseRequest(t).value, fields)) == ParseRequest(t)
  {
    var r := ParseRequest(t).value;
    ParsedRequestIsSendable(t);
    LowerCasedArrive(fields, r.headers);
    RequestRoundTrip(r, fields);
  }

  lemma {:induction false} ResponseReparse(t: string, fields: seq<Field>)
    requires ParseResponse(t).Some? && Enumerates(fields, ParseResponse(t).value.headers)
    ensures ParseResponse(ResponseText(ParseResponse(t).value, fields)) == ParseResponse(t)
  {
    var r := ParseResponse(t).value;
    ParsedResponseIsSendable(t);
    LowerCasedArrive(fields, r.headers);
    ResponseRoundTrip(r, fields);
  }

  /** Where a run of class `k` ends is told by the first character outside it. */
  lemma SplitUnique(a: string, b: string, k: CharClass, c: char, x: string, y: string)
    requires AllIn(a, k) && AllIn(b, k) && !InClass(c, k)
    requires a + [c] + x == b + [c] + y
    ensures a == b && x == y
  {
    var s := a + [c] + x;
    assert s[..|a|] == a && s[|a| + 1..] == x;
    assert s[..|b|] == b && s[|b| + 1..] == y;
    SpanUnique(s, k, |a|);
    SpanUnique(s, k, |b|);
  }

  /** A header line fixes its field ... */
  lemma LineUnambiguous(f: Field, g: Field)
    requires CleanField(f) && CleanField(g) && RawLine(Written(f)) == RawLine(Written(g))
    ensures f == g
  {
    SplitUnique(f.name, g.name, NameText, ':', Written(f).text, Written(g).text);
    TextOfValue(f);
    TextOfValue(g);
  }

  lemma TextOfValue(f: Field)
    ensures var t := Written(f).text; |t| == |f.value| + 2 && f.value == t[1..|t| - 1]
  {
  }

  /** ... and is never the blank line. */
  lemma LineIsNotBlank(f: Field)
    ensures RawLine(Written(f)) != "\r"
  {
    assert |RawLine(Written(f))| >= 3;
  }

  lemma BlockSteps(fields: seq<Field>, x: string)
    ensures fields == [] ==> FieldsText(fields) + ("\r\n" + x) == "\r" + ['\n'] + x
    ensures fields != [] ==>
              FieldsText(fields) + ("\r\n" + x)
              == RawLine(Written(fields[0])) + ['\n'] + (FieldsText(fields[1..]) + ("\r\n" + x))
  {
    if fields != [] {
      FieldTextEnds(fields[0]);
      Assoc(FieldText(fields[0]), FieldsText(fields[1..]), "\r\n" + x);
    }
  }

  /** Two printed header blocks with what follows them are the same text only if they print the
      same fields in the same order, and the same follows. */
  lemma {:induction false} BlockUnambiguous(a: seq<Field>, x: string, b: seq<Field>, y: string)
    requires forall f <- a :: CleanField(f)
    requires forall f <- b :: CleanField(f)
    requires FieldsText(a) + ("\r\n" + x) == FieldsText(b) + ("\r\n" + y)
    ensures a == b && x == y
  {
    BlockSteps(a, x);
    BlockSteps(b, y);
    var la := if a == [] then "\r" else RawLine(Written(a[0]));
    var lb := if b == [] then "\r" else RawLine(Written(b[0]));
    BlockLineIsLine(a, la);
    BlockLineIsLine(b, lb);
    var s := if a == [] then x else FieldsText(a[1..]) + ("\r\n" + x);
    var t := if b == [] then y else FieldsText(b[1..]) + ("\r\n" + y);
    SplitUnique(la, lb, LineText, '\n', s, t);
    if a != [] && b != [] {
      LineUnambiguous(a[0], b[0]);
      BlockUnambiguous(a[1..], x, b[1..], y);
    }
  }

  lemma BlockLineIsLine(fields: seq<Field>, line: string)
    requires forall f <- fields :: CleanField(f)
    requires line == if fields == [] then "\r" else RawLine(Written(fields[0]))
    ensures AllIn(line, LineText) && (line == "\r" <==> fields == [])
  {
    if fields != [] {
      LineIsNotBlank(fields[0]);
      assert fields[0] in fields;
      WrittenField(fields[0]);
      RawLineIsField(Written(fields[0]));
    }
  }

  lemma SameFieldsSameMap(fields: seq<Field>, a: Headers, b: Headers)
    requires Enumerates(fields, a) && Enumerates(fields, b)
    ensures a == b
  {
    assert forall n <- a :: Field(n, a[n]) in fields;
    assert forall n <- b :: Field(n, b[n]) in fields;
  }

  /** The text tells the request: two sendable requests are printed as one text only if they are
      the same request, letter case of header names included, with its headers in one order. */
  lemma {:induction false} RequestTextUnambiguous(a: HTTPRequest, fa: seq<Field>, b: HTTPRequest, fb: seq<Field>)
    requires SendableRequest(a) && Enumerates(fa, a.headers)
    requires SendableRequest(b) && Enumerates(fb, b.headers)
    requires RequestText(a, fa) == RequestText(b, fb)
    ensures a == b && fa == fb
  {
    RequestRoundTrip(a, fa);
    RequestRoundTrip(b, fb);
    EnumeratedFieldsAreClean(fa, a.headers);
    EnumeratedFieldsAreClean(fb, b.headers);
    assert RequestLine(a) == RequestLine(b);
    SameStart(RequestLine(a), FieldsText(fa) + ("\r\n" + a.body), FieldsText(fb) + ("\r\n" + b.body));
    BlockUnambiguous(fa, a.body, fb, b.body);
    SameFieldsSameMap(fa, a.headers, b.headers);
  }

  lemma {:induction false} ResponseTextUnambiguous(a: HTTPResponse, fa: seq<Field>, b: HTTPResponse, fb: seq<Field>)
    requires SendableResponse(a) && Enumerates(fa, a.headers)
    requires SendableResponse(b) && Enumerates(fb, b.headers)
    requires ResponseText(a, fa) == ResponseText(b, fb)
    ensures a == b && fa == fb
  {
    ResponseRoundTrip(a, fa);
    ResponseRoundTrip(b, fb);
    EnumeratedFieldsAreClean(fa, a.headers);
    EnumeratedFieldsAreClean(fb, b.headers);
    assert StatusLine(a) == StatusLine(b);
    SameStart(StatusLine(a), FieldsText(fa) + ("\r\n" + a.body), FieldsText(fb) + ("\r\n" + b.body));
    BlockUnambiguous(fa, a.body, fb, b.body);
    SameFieldsSameMap(fa, a.headers, b.headers);
  }

  lemma SameStart(a: string, x: string, y: string)
    requires a + x == a + y
    ensures x == y
  {
    assert (a + x)[|a|..] == x && (a + y)[|a|..] == y;
  }
}

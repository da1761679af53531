/** The two parsers as functions of the whole text. */
module Syntax {
  import opened Ascii
  import opened Text
  import opened Numbers
  import opened Messages
  import opened Wrappers

  /** A line is a header field when it has a colon. */
  predicate IsField(line: string) {
    Span(line, NameText) < |line|
  }

  /** Name up to the first colon, lower-cased; value without its leading white space. */
  function FieldOf(line: string): Field
    requires IsField(line)
  {
    var n := Span(line, NameText);
    Field(Lower(line[..n]), SkipSpace(line[n + 1..]))
  }

  /** The header fields at the front of `s`, in order of appearance. */
  function HeaderFields(s: string): seq<Field>
    decreases |s|
  {
    if HasNext(s) && IsField(Line(s)) then [FieldOf(Line(s))] + HeaderFields(AfterLine(s)) else []
  }

  /** What the header loop leaves: the line that ends the headers is gone too. */
  function HeaderRest(s: string): (r: string)
    ensures |r| <= |s|
    decreases |s|
  {
    if !HasNext(s) then s
    else if IsField(Line(s)) then HeaderRest(AfterLine(s))
    else AfterLine(s)
  }

  /** Repeated assignment to a map: of fields with one name the last stays. */
  function Assign(m: Headers, fields: seq<Field>): Headers
    decreases fields
  {
    if fields == [] then m else Assign(m[fields[0].name := fields[0].value], fields[1..])
  }

  function HeaderMap(s: string): Headers {
    Assign(map[], HeaderFields(s))
  }

  /** The body is the rest of the text, unless that is all white space. */
  function BodyOf(rest: string): string {
    if HasNext(rest) then rest else ""
  }

  /** What the start line of a message says, and that together with the text after the line. */
  datatype RequestStart = RequestStart(verb: Method, resource: string, version: string)
  datatype ResponseStart = ResponseStart(version: string, code: uint32, status: string)
  datatype Start<+L> = Start(line: L, rest: string)

  /** The checks on the three words of a request line, and on what follows them: `newline` is
      where the text up to the end of the third word has a newline, `s` the text after it. */
  function CheckRequestLine(name: string, resource: string, version: string, newline: int, s: string)
    : Option<Start<RequestStart>>
  {
    if newline != -1 || resource == "" || version == "" then None
    else if Text.HasNext(Line(s)) then None
    else if StringToMethod(name) == UNKNOWN then None
    else Some(Start(RequestStart(StringToMethod(name), resource, version), AfterLine(s)))
  }

  /** The part of `parseRequest` that reads the request line. */
  function ReadRequestLine(t: string): Option<Start<RequestStart>> {
    var s1 := AfterWord(t);
    var s2 := AfterWord(s1);
    var s3 := AfterWord(s2);
    CheckRequestLine(Word(t), Word(s1), Word(s2), FindNewlineBefore(t, |t| - |s3|), s3)
  }

  /** The checks on a status line: `newline` is where the `passed` characters up to the cursor
      have their first newline, and `s` starts at the reason phrase. */
  function CheckStatusLine(version: string, number: nat, newline: int, passed: int, s: string)
    : Option<Start<ResponseStart>>
  {
    if newline != passed - 1 || version == "" || Truncate32(number) == 0 || Line(s) == "" then None
    else Some(Start(ResponseStart(version, Truncate32(number), Line(s)), AfterLine(s)))
  }

  /** The part of `parseResponse` that reads the status line. */
  function ReadStatusLine(t: string): Option<Start<ResponseStart>> {
    var s1 := AfterWord(t);
    var s2 := SkipSpace(AfterWord(s1));
    var pos := LineEnd(t, s2) + 1;
    match Stoul(Word(s1))
    case None => None
    case Some(number) =>
      CheckStatusLine(Word(t), number, FindNewlineBefore(t, pos), if pos <= |t| then pos else |t|, s2)
  }

  /** The definitions once more, on named intermediate texts. */
  lemma ReadRequestLineSteps(t: string, s1: string, s2: string, s3: string)
    requires s1 == AfterWord(t) && s2 == AfterWord(s1) && s3 == AfterWord(s2)
    ensures ReadRequestLine(t)
         == CheckRequestLine(Word(t), Word(s1), Word(s2), FindNewlineBefore(t, |t| - |s3|), s3)
  {
  }

  lemma ReadStatusLineSteps(t: string, s1: string, s: string)
    requires s1 == AfterWord(t) && s == SkipSpace(AfterWord(s1)) && Stoul(Word(s1)).Some?
    ensures ReadStatusLine(t)
         == CheckStatusLine(Word(t), Stoul(Word(s1)).value, FindNewlineBefore(t, LineEnd(t, s) + 1),
                            |Passed(t, LineEnd(t, s) + 1)|, s)
  {
  }

  /** The same with the search for a newline as the parsers make it. */
  lemma RequestLineLexed(t: string, s1: string, s2: string, s3: string, pos: nat)
    requires s1 == AfterWord(t) && s2 == AfterWord(s1) && s3 == AfterWord(s2) && pos == |t| - |s3|
    ensures ReadRequestLine(t) == CheckRequestLine(Word(t), Word(s1), Word(s2), FindNewline(Passed(t, pos)), s3)
  {
    FindInPassed(t, pos);
    ReadRequestLineSteps(t, s1, s2, s3);
  }

  lemma StatusLineLexed(t: string, s1: string, s: string, pos: nat)
    requires s1 == AfterWord(t) && s == SkipSpace(AfterWord(s1)) && Stoul(Word(s1)).Some?
    requires pos == LineEnd(t, s) + 1
    ensures ReadStatusLine(t)
         == CheckStatusLine(Word(t), Stoul(Word(s1)).value, FindNewline(Passed(t, pos)), |Passed(t, pos)|, s)
  {
    FindInPassed(t, pos);
    ReadStatusLineSteps(t, s1, s);
  }

  /** `parseRequest` */
  function ParseRequest(t: string): Option<HTTPRequest> {
    match ReadRequestLine(t)
    case None => None
    case Some(Start(l, s)) =>
      Some(HTTPRequest(l.verb, l.resource, l.version, HeaderMap(s), BodyOf(HeaderRest(s))))
  }

  /** `parseResponse` */
  function ParseResponse(t: string): Option<HTTPResponse> {
    match ReadStatusLine(t)
    case None => None
    case Some(Start(l, s)) =>
      Some(HTTPResponse(l.version, l.code, l.status, HeaderMap(s), BodyOf(HeaderRest(s))))
  }
}

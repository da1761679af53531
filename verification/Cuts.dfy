/**
 A request line or a header block that was cut short somewhere: which words and which fields
 can still be read from what is left.
 */
module Cuts {
  import opened Ascii
  import opened Text
  import opened Messages
  import opened Syntax
  import opened Grammar
  import opened HeaderBlock
  import opened RoundTrip
  import opened Wrappers

  lemma PrefixOf<T>(p: seq<T>, a: seq<T>, b: seq<T>)
    requires p <= a + b
    ensures |a| <= |p| ==> p == a + p[|a|..] && p[|a|..] <= b
    ensures |p| < |a| ==> p == a[..|p|]
  {
    assert p == (a + b)[..|p|];
  }

  // ---------------------------------------------------------------- a cut request line

  lemma OneWord(u: string)
    requires AllIn(u, WordText)
    ensures Words(u) == if u == "" then [] else [u]
  {
    if u != "" {
      WordOf(u, "");
      assert u + "" == u;
      WordsStep(u, u, "");
      assert [u] + [] == [u];
    }
  }

  lemma WordsAfterBlank(q: string)
    ensures Words(" " + q) == Words(q)
  {
    SpanAppend(" ", q, Space);
    assert SkipSpace(" " + q) == SkipSpace(q);
  }

  /** A word, a blank and more, cut somewhere: inside the word, or after it. */
  lemma CutAfterWord(w: string, rest: string, p: string) returns (q: string)
    requires IsWord(w) && p <= w + (" " + rest)
    ensures |p| <= |w| ==> |Words(p)| <= 1
    ensures |p| > |w| ==> p == w + (" " + q) && q <= rest && Words(p) == [w] + Words(q)
  {
    PrefixOf(p, w, " " + rest);
    if |p| <= |w| {
      q := "";
      assert p == w[..|p|];
      OneWord(p);
    } else {
      PrefixOf(p[|w|..], " ", rest);
      q := p[|w|..][1..];
      WordOf(w, " " + q);
      WordsStep(p, w, " " + q);
      WordsAfterBlank(q);
    }
  }

  lemma CutTwoWords(w1: string, w2: string, p: string)
    requires IsWord(w1) && IsWord(w2) && p <= w1 + (" " + w2)
    ensures if |p| == |w1| + |w2| + 1 then Words(p) == [w1, w2]
            else |Words(p)| == 2 ==> Words(p)[0] == w1 && Words(p)[1] < w2
    ensures |Words(p)| <= 2
  {
    var q := CutAfterWord(w1, w2, p);
    if |p| > |w1| {
      PrefixIsWord(q, w2);
      OneWord(q);
      assert q == w2[..|q|];
      assert |q| == |w2| ==> q == w2;
    }
  }

  /** Of three words cut somewhere, a third one that is left is a prefix of the third. */
  lemma CutWords(w1: string, w2: string, w3: string, p: string)
    requires IsWord(w1) && IsWord(w2) && IsWord(w3)
    requires p <= w1 + (" " + (w2 + (" " + w3)))
    ensures if |p| == |w1| + |w2| + |w3| + 2 then Words(p) == [w1, w2, w3]
            else |Words(p)| == 3 ==> Words(p)[0] == w1 && Words(p)[1] == w2 && Words(p)[2] < w3
    ensures |Words(p)| <= 3
  {
    var q := CutAfterWord(w1, w2 + (" " + w3), p);
    if |p| > |w1| {
      CutTwoWords(w2, w3, q);
    }
  }

  lemma PrefixIsWord(u: string, w: string)
    requires u <= w && IsWord(w)
    ensures AllIn(u, WordText)
  {
    assert forall i :: 0 <= i < |u| ==> u[i] == w[i];
  }

  /** The request line up to the end of its third word. */
  function RequestWords(r: HTTPRequest): string {
    MethodToString(r.verb) + (" " + (r.resource + (" " + r.version)))
  }

  lemma WordsAndEnd(r: HTTPRequest)
    ensures RequestLine(r) == RequestWords(r) + "\r\n"
    ensures RequestLineBody(r) == RequestWords(r) + "\r"
  {
  }

  /** A request line without its newline says what it says, if the third word is complete;
      otherwise it says nothing, or names a version that is too short. */
  lemma CutRequestLine(r: HTTPRequest, p: string)
    requires r.verb != UNKNOWN && IsWord(r.resource) && IsWord(r.version)
    requires p <= RequestLine(r) && |p| < |RequestLine(r)|
    ensures AllIn(p, LineText)
    ensures |p| >= |RequestWords(r)| ==>
              RequestLineOf(p) == Some(RequestStart(r.verb, r.resource, r.version))
    ensures |p| < |RequestWords(r)| && RequestLineOf(p).Some? ==>
              var v := RequestLineOf(p).value.version;
              RequestLineOf(p) == Some(RequestStart(r.verb, r.resource, v)) && v < r.version
  {
    WordsAndEnd(r);
    RequestLineBodyIs(r);
    assert p == RequestLineBody(r)[..|p|];
    if p != RequestLineBody(r) {
      var name := MethodToString(r.verb);
      MethodTables(name, r.verb);
      PrefixOf(p, RequestWords(r), "\r\n");
      CutWords(name, r.resource, r.version, p);
    }
  }

  /** A text of one line is a request without headers and without a body, or none. */
  lemma {:induction false} OneLineRequest(p: string)
    requires AllIn(p, LineText)
    ensures ParseRequest(p)
         == match RequestLineOf(p)
            case None => None
            case Some(l) => Some(HTTPRequest(l.verb, l.resource, l.version, map[], ""))
  {
    LastLineOf(p);
    FirstNewline(p, "");
    assert p + "" == p && FirstLine(p) == p;
    RequestAccepted(p);
    NoBlock();
  }

  lemma NoBlock()
    ensures HeaderMap("") == map[] && HeaderFields("") == [] && BodyOf(HeaderRest("")) == ""
  {
  }

  // ---------------------------------------------------------------- a cut header block

  /** A text without a newline is one line at most, so nothing is left for a body. */
  lemma OneLineNoBody(h: string)
    requires AllIn(h, LineText)
    ensures BodyOf(HeaderRest(h)) == ""
  {
    LastLineOf(h);
    if HasNext(h) {
      assert HeaderRest(AfterLine(h)) == "";
    }
  }

  lemma BlockStep(fields: seq<Field>, h: string)
    requires fields != [] && (forall f <- fields :: CleanField(f)) && h <= FieldsText(fields) + "\r\n"
    ensures |h| < |FieldText(fields[0])| ==>
              var line := RawLine(Written(fields[0])); AllIn(line, LineText) && h == (line + "\n")[..|h|]
    ensures |h| >= |FieldText(fields[0])| ==>
              var h' := h[|FieldText(fields[0])|..];
              && h' <= FieldsText(fields[1..]) + "\r\n"
              && HeaderFields(h) == [LowerName(fields[0])] + HeaderFields(h') && HeaderRest(h) == HeaderRest(h')
  {
    var f := fields[0];
    assert f in fields;
    WrittenField(f);
    RawLineIsField(Written(f));
    FieldTextEnds(f);
    Assoc(FieldText(f), FieldsText(fields[1..]), "\r\n");
    PrefixOf(h, FieldText(f), FieldsText(fields[1..]) + "\r\n");
    if |h| >= |FieldText(f)| {
      FieldLine(RawLine(Written(f)), h[|FieldText(f)|..]);
    }
  }

  lemma CutLine(line: string, h: string)
    requires AllIn(line, LineText) && |h| <= |line| && h == (line + "\n")[..|h|]
    ensures AllIn(h, LineText) && h == line[..|h|]
  {
    assert h == line[..|h|];
  }

  /** A block of printed fields cut before its blank line is complete has no body. */
  lemma {:induction false} CutHeaders(fields: seq<Field>, h: string)
    requires forall f <- fields :: CleanField(f)
    requires h <= FieldsText(fields) + "\r\n" && |h| < |FieldsText(fields)| + 2
    ensures BodyOf(HeaderRest(h)) == ""
  {
    if fields == [] {
      assert h <= "\r";
      OneLineNoBody(h);
    } else {
      BlockStep(fields, h);
      if |h| < |FieldText(fields[0])| {
        CutLine(RawLine(Written(fields[0])), h);
        OneLineNoBody(h);
      } else {
        CutHeaders(fields[1..], h[|FieldText(fields[0])|..]);
      }
    }
  }

  /** How many characters may be missing from the end of a printed header block and its blank
      line without any of its fields being lost or changed: the two line ends, or a little more or
      less according to how the last value ends.  Without fields the two line ends are those of
      the request line and of the blank line. */
  function ValueSlack(v: string): nat {
    if v == "" then 5 else if v[|v| - 1] == '\r' then 3 else 4
  }

  function Slack(fields: seq<Field>): nat {
    if fields == [] then 4 else ValueSlack(fields[|fields| - 1].value)
  }

  /** The value that is read from a field cut after `t`, a part of the text behind its colon. */
  lemma CutValue(v: string, t: string)
    requires CleanValue(v) && t <= " " + v + "\r"
    ensures SkipSpace(DropCR(t)) == v <==> |v| + 5 - |t| <= ValueSlack(v)
  {
    var whole := " " + v + "\r";
    assert t == whole[..|t|];
    if t == "" {
      assert SkipSpace(DropCR(t)) == "";
    } else if |t| == |v| + 2 {
      BlankThen(v);
      assert t == " " + v + "\r";
      DropCROf(" " + v);
    } else {
      var u := v[..|t| - 1];
      assert t == " " + u;
      assert DropCR(t) == " " + DropCR(u);
      BlankThen(DropCR(u));
      assert SkipSpace(DropCR(t)) == DropCR(u);
    }
  }

  lemma BlankThen(v: string)
    requires v != "" ==> InClass(v[0], WordText)
    ensures SkipSpace(" " + v) == v
  {
    assert (" " + v)[..1] == " " && (" " + v)[1..] == v;
    SpanUnique(" " + v, Space, 1);
  }

  /** A text of one line that is a field gives that field. */
  lemma OneField(f: RawField)
    requires Writable(f)
    ensures HeaderFields(RawLine(f)) == [Read(f)]
  {
    var h := RawLine(f);
    RawLineIsField(f);
    LastLineOf(h);
    FieldHasNext(DropCR(h));
    HasNextDropCR(h);
    NoBlock();
    assert [Read(f)] + [] == [Read(f)];
  }

  lemma NoColonNoField(h: string)
    requires AllIn(h, LineText) && AllIn(h, NameText)
    ensures HeaderFields(h) == []
  {
    LastLineOf(h);
    var line := DropCR(h);
    assert line[..|line|] == line && forall i :: 0 <= i < |line| ==> line[i] == h[i];
    SpanUnique(line, NameText, |line|);
  }

  /** A cut line is no field, or a field with a wrong value, unless very little is missing. */
  lemma {:induction false} CutField(f: Field, h: string)
    requires CleanField(f) && |h| < |FieldText(f)| && h == FieldText(f)[..|h|]
    ensures if |FieldText(f)| + 2 - |h| <= ValueSlack(f.value) then HeaderFields(h) == [LowerName(f)]
            else HeaderFields(h) == [] ||
                 (&& |HeaderFields(h)| == 1 && HeaderFields(h)[0].name == Lower(f.name)
                  && HeaderFields(h)[0].value != f.value)
  {
    var line := RawLine(Written(f));
    WrittenField(f);
    RawLineIsField(Written(f));
    FieldTextEnds(f);
    CutLine(line, h);
    if |h| <= |f.name| {
      assert h == f.name[..|h|];
      NoColonNoField(h);
    } else {
      var t := h[|f.name| + 1..];
      assert Written(f).text == line[|f.name| + 1..];
      CutFieldText(f, h, t);
      CutValue(f.value, t);
    }
  }

  lemma CutFieldText(f: Field, h: string, t: string)
    requires CleanField(f) && h <= RawLine(Written(f)) && |f.name| < |h| && t == h[|f.name| + 1..]
    ensures t <= " " + f.value + "\r"
    ensures HeaderFields(h) == [Field(Lower(f.name), SkipSpace(DropCR(t)))]
  {
    var line := RawLine(Written(f));
    assert h == line[..|h|];
    assert line == f.name + ":" + Written(f).text;
    assert t == Written(f).text[..|t|];
    WrittenField(f);
    assert Writable(RawField(f.name, t));
    assert h == RawLine(RawField(f.name, t));
    OneField(RawField(f.name, t));
  }

  lemma BlankBlock(h: string)
    requires h <= "\r\n"
    ensures HeaderFields(h) == [] && HeaderRest(h) == h && BodyOf(h) == ""
  {
    assert AllIn(h, Space) && h[..|h|] == h;
    SpanUnique(h, Space, |h|);
  }

  lemma LongBlock(fields: seq<Field>)
    requires fields != []
    ensures |FieldsText(fields)| >= 4
  {
  }

  /** Some of the fields have gone, or the value of the last one is not what it was. */
  ghost predicate Damaged(read: seq<Field>, fields: seq<Field>) {
    && fields != [] && |read| <= |fields|
    && (forall i :: 0 <= i < |read| ==> read[i].name == Lower(fields[i].name))
    && (|read| == |fields| ==> read[|read| - 1].value != fields[|fields| - 1].value)
  }

  lemma DamagedMore(f: Field, read: seq<Field>, rest: seq<Field>)
    requires Damaged(read, rest)
    ensures Damaged([LowerName(f)] + read, [f] + rest)
  {
  }

  /** The fields read from a cut block: all of them if no more than the slack is missing, and
      otherwise fewer, or the last one with a wrong value. */
  lemma {:induction false} CutFields(fields: seq<Field>, h: string)
    requires forall f <- fields :: CleanField(f)
    requires h <= FieldsText(fields) + "\r\n"
    ensures if |FieldsText(fields)| + 2 - |h| <= Slack(fields) then HeaderFields(h) == LowerNames(fields)
            else Damaged(HeaderFields(h), fields)
  {
    if fields == [] {
      BlankBlock(h);
    } else {
      var f, rest := fields[0], fields[1..];
      assert f in fields && [f] + rest == fields;
      BlockStep(fields, h);
      if |h| >= |FieldText(f)| {
        var h' := h[|FieldText(f)|..];
        CutFields(rest, h');
        CutLater(f, rest, HeaderFields(h'), |FieldsText(rest)| + 2 - |h'|);
      } else {
        CutInFirst(f, rest, h);
      }
    }
  }

  lemma CutLater(f: Field, rest: seq<Field>, read: seq<Field>, missing: int)
    requires if missing <= Slack(rest) then read == LowerNames(rest) else Damaged(read, rest)
    requires rest == [] ==> missing <= 2
    ensures if missing <= Slack([f] + rest) then read == LowerNames(rest)
            else Damaged([LowerName(f)] + read, [f] + rest)
  {
    if missing > Slack(rest) {
      DamagedMore(f, read, rest);
    }
  }

  lemma CutInFirst(f: Field, rest: seq<Field>, h: string)
    requires CleanField(f) && |h| < |FieldText(f)|
    requires h <= RawLine(Written(f)) + "\n"
    ensures if |FieldText(f)| + |FieldsText(rest)| + 2 - |h| <= Slack([f] + rest)
            then HeaderFields(h) == [LowerName(f)] + LowerNames(rest)
            else Damaged(HeaderFields(h), [f] + rest)
  {
    FieldTextEnds(f);
    assert h == FieldText(f)[..|h|];
    CutField(f, h);
    if rest != [] {
      LongBlock(rest);
    } else {
      assert [LowerName(f)] + [] == [LowerName(f)];
    }
  }

  /** No two fields have the same name in different letter case. */
  ghost predicate NamesDistinct(fields: seq<Field>) {
    forall i, j :: 0 <= i < j < |fields| ==> Lower(fields[i].name) != Lower(fields[j].name)
  }

  lemma DamageShows(read: seq<Field>, fields: seq<Field>)
    requires Damaged(read, fields) && NamesDistinct(fields)
    ensures Assign(map[], read) != Arrived(fields)
  {
    LastArrives(fields);
    var last := |fields| - 1;
    var name := Lower(fields[last].name);
    if name in Assign(map[], read) {
      var i := AssignedFrom(read, name);
      assert i == last;
    }
  }

  /** A cut block gives the headers that were sent exactly when no more than the slack is missing. */
  lemma CutBlockIff(fields: seq<Field>, h: string)
    requires (forall f <- fields :: CleanField(f)) && NamesDistinct(fields)
    requires h <= FieldsText(fields) + "\r\n"
    ensures HeaderMap(h) == Arrived(fields) <==> |FieldsText(fields)| + 2 - |h| <= Slack(fields)
  {
    CutFields(fields, h);
    if Damaged(HeaderFields(h), fields) {
      DamageShows(HeaderFields(h), fields);
    }
  }

  lemma EnumeratedNamesDistinct(fields: seq<Field>, h: Headers)
    requires Enumerates(fields, h) && CaseDistinct(h)
    ensures NamesDistinct(fields)
  {
    forall i, j | 0 <= i < j < |fields| ensures Lower(fields[i].name) != Lower(fields[j].name) {
      assert fields[i] in fields && fields[j] in fields;
    }
  }
}

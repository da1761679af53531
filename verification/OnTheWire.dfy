/**
 The messages as the characters that are sent and received: which word is which method, and what
 the texts are that the constructors print.
 */
module OnTheWire {
  import opened Text
  import opened Numbers
  import opened Messages
  import opened Syntax
  import opened Grammar
  import opened RoundTrip
  import opened Cuts
  import opened Wrappers

  // ---------------------------------------------------------------- methods

  lemma Front(name: string, resource: string, version: string, end: string)
    ensures name + " " + resource + " " + version + end == name + (" " + (resource + (" " + version))) + end
  {
  }

  /** The first line of a request in characters: a method name, a resource and the version, each
      after one blank, and a carriage return or none. */
  lemma {:induction false} MethodLine(name: string, verb: Method, resource: string, version: string, end: string)
    requires Names(name, verb) && IsWord(resource) && IsWord(version) && end in {"", "\r"}
    ensures var line := name + " " + resource + " " + version + end;
            AllIn(line, LineText) && RequestLineOf(line) == Some(RequestStart(verb, resource, version))
  {
    MethodTables(name, verb);
    var r := HTTPRequest(verb, resource, version, map[], "");
    Front(name, resource, version, end);
    WordsAndEnd(r);
    assert end == "" ==> RequestWords(r) + end == RequestWords(r);
    CutRequestLine(r, RequestWords(r) + end);
  }

  /** What a text is parsed to that starts with such a line: its method is the one of that name. */
  lemma {:induction false} MethodOnText(name: string, verb: Method, resource: string, version: string, end: string,
                                        rest: string)
    requires Names(name, verb) && IsWord(resource) && IsWord(version) && end in {"", "\r"}
    requires rest == "" || rest[0] == '\n'
    ensures ParseRequest(name + " " + resource + " " + version + end + rest)
         == Some(HTTPRequest(verb, resource, version, HeaderMap(AfterNewline(rest)),
                             BodyOf(HeaderRest(AfterNewline(rest)))))
  {
    var line := name + " " + resource + " " + version + end;
    MethodLine(name, verb, resource, version, end);
    RequestLineGrammar(line, rest);
  }

  /** For one, "POST" is POST, to the reader ... */
  lemma {:induction false} PostOnText(resource: string, rest: string)
    requires IsWord(resource) && (rest == "" || rest[0] == '\n')
    ensures match ParseRequest("POST " + resource + " HTTP/1.1" + rest)
            case None => false
            case Some(r) => r.verb == POST && r.resource == resource && r.version == "HTTP/1.1"
  {
    PostFront(resource, rest);
    VersionWord("HTTP/1.1");
    MethodOnText("POST", POST, resource, "HTTP/1.1", "", rest);
  }

  lemma PostFront(resource: string, rest: string)
    ensures "POST " + resource + " HTTP/1.1" + rest == "POST" + " " + resource + " " + "HTTP/1.1" + "" + rest
  {
    assert "POST " == "POST" + " " && " HTTP/1.1" == " " + "HTTP/1.1";
  }

  lemma VersionWord(version: string)
    requires version == "HTTP/1.1"
    ensures IsWord(version)
  {
  }

  /** ... and to the writer. */
  lemma PostPrinted(r: HTTPRequest, fields: seq<Field>)
    ensures r.verb == POST <==> "POST " <= RequestText(r, fields)
  {
    var t := RequestText(r, fields);
    var name := MethodToString(r.verb);
    NamePrinted(r, fields);
    assert name + " " == t[..|name| + 1];
    if "POST " <= t {
      assert t[0] == 'P' && t[1] == 'O' && t[2] == 'S';
    }
  }

  lemma NamePrinted(r: HTTPRequest, fields: seq<Field>)
    ensures MethodToString(r.verb) + " " <= RequestText(r, fields)
    ensures r.verb != UNKNOWN ==> Names(MethodToString(r.verb), r.verb)
  {
    MethodTables(MethodToString(r.verb), r.verb);
    var rest := r.resource + " " + r.version + "\r\n" + (FieldsText(fields) + ("\r\n" + r.body));
    assert RequestText(r, fields) == MethodToString(r.verb) + " " + rest;
  }

  // ---------------------------------------------------------------- what the constructors print

  /** A map of two entries is walked in one of two orders. */
  lemma TwoOrders(fields: seq<Field>, a: string, u: string, b: string, v: string)
    requires a != b && Enumerates(fields, map[a := u, b := v])
    ensures fields == [Field(a, u), Field(b, v)] || fields == [Field(b, v), Field(a, u)]
  {
    var h := map[a := u, b := v];
    assert a in h && b in h;
    assert Field(a, h[a]) in fields && Field(b, h[b]) in fields;
    var i :| 0 <= i < |fields| && fields[i] == Field(a, u);
    var j :| 0 <= j < |fields| && fields[j] == Field(b, v);
    assert forall k :: 0 <= k < |fields| ==> fields[k] in fields;
    if |fields| > 2 {
      var k := ThirdName(fields, a, b);
      assert false;
    }
  }

  lemma ThirdName(fields: seq<Field>, a: string, b: string) returns (k: nat)
    requires |fields| > 2 && forall i, j :: 0 <= i < j < |fields| ==> fields[i].name != fields[j].name
    ensures k < |fields| && fields[k].name != a && fields[k].name != b
  {
    k := if fields[0].name != a && fields[0].name != b then 0
         else if fields[1].name != a && fields[1].name != b then 1
         else 2;
  }

  lemma TwoFieldsText(f: Field, g: Field)
    ensures FieldsText([f, g])
         == f.name + ": " + f.value + "\r\n" + (g.name + ": " + g.value + "\r\n")
  {
    assert [f, g][1..] == [g] && [g][1..] == [];
    assert FieldsText([g]) == FieldText(g) + "";
  }

  /** The two header lines of a JSON body, in one of two orders. */
  ghost predicate JsonLines(lines: string, body: string) {
    var kind, length := "Content-Type: application/json\r\n", "Content-Length: " + Decimal(|body|) + "\r\n";
    lines == kind + length || lines == length + kind
  }

  lemma TypeLine()
    ensures "Content-Type" + ": " + "application/json" + "\r\n" == "Content-Type: application/json\r\n"
  {
  }

  lemma LengthLine(n: nat)
    ensures "Content-Length" + ": " + Decimal(n) + "\r\n" == "Content-Length: " + Decimal(n) + "\r\n"
  {
    assert "Content-Length" + ": " == "Content-Length: ";
  }

  lemma {:induction false} JsonLinesPrinted(body: string, fields: seq<Field>)
    requires Enumerates(fields, JsonHeaders(body))
    ensures JsonLines(FieldsText(fields), body)
  {
    var f, g := Field("Content-Type", "application/json"), Field("Content-Length", Decimal(|body|));
    assert |f.name| != |g.name|;
    TwoOrders(fields, f.name, f.value, g.name, g.value);
    TypeLine();
    LengthLine(|body|);
    TwoFieldsText(f, g);
    TwoFieldsText(g, f);
  }

  /** A request of the JSON constructor, character by character. */
  lemma {:induction false} JsonRequestText(name: string, verb: Method, resource: string, dumped: string,
                                           fields: seq<Field>)
    requires Names(name, verb) && Enumerates(fields, JsonRequest(verb, resource, dumped).headers)
    ensures JsonLines(FieldsText(fields), dumped)
    ensures RequestText(JsonRequest(verb, resource, dumped), fields)
         == name + " " + resource + " " + "HTTP/1.1" + "\r\n" + (FieldsText(fields) + ("\r\n" + dumped))
  {
    MethodTables(name, verb);
    JsonLinesPrinted(dumped, fields);
  }

  /** The same for a reply ... */
  lemma {:induction false} JsonResponseText(code: uint32, status: string, dumped: string, fields: seq<Field>)
    requires Enumerates(fields, JsonResponse(code, status, dumped).headers)
    ensures JsonLines(FieldsText(fields), dumped)
    ensures ResponseText(JsonResponse(code, status, dumped), fields)
         == "HTTP/1.1" + " " + Decimal(code) + " " + status + "\r\n" + (FieldsText(fields) + ("\r\n" + dumped))
  {
    JsonLinesPrinted(dumped, fields);
  }

  /** ... and for one without a body. */
  lemma PlainResponseText(code: uint32, status: string, fields: seq<Field>)
    requires Enumerates(fields, PlainResponse(code, status).headers)
    ensures ResponseText(PlainResponse(code, status), fields)
         == "HTTP/1.1" + " " + Decimal(code) + " " + status + "\r\n" + "\r\n"
  {
    if fields != [] {
      SomeField(fields, PlainResponse(code, status).headers);
    }
    assert "\r\n" + "" == "\r\n";
  }
}

/** The message types, their constructors, and the text that `to_string` makes of them. */
module Messages {
  import opened Text
  import opened Numbers
  import opened Wrappers

  datatype Method = GET | HEAD | POST | PUT | DELETE | CONNECT | OPTIONS | TRACE | PATCH | UNKNOWN

  function MethodToString(m: Method): string {
    match m
    case GET => "GET"
    case HEAD => "HEAD"
    case POST => "POST"
    case PUT => "PUT"
    case DELETE => "DELETE"
    case CONNECT => "CONNECT"
    case OPTIONS => "OPTIONS"
    case TRACE => "TRACE"
    case PATCH => "PATCH"
    case UNKNOWN => "<UNKNOWN>"
  }

  function StringToMethod(s: string): Method {
    if s == "GET" then GET
    else if s == "HEAD" then HEAD
    else if s == "POST" then POST
    else if s == "PUT" then PUT
    else if s == "DELETE" then DELETE
    else if s == "CONNECT" then CONNECT
    else if s == "OPTIONS" then OPTIONS
    else if s == "TRACE" then TRACE
    else if s == "PATCH" then PATCH
    else UNKNOWN
  }

  /** The names of the nine methods. */
  predicate Names(name: string, verb: Method) {
    match verb
    case GET => name == "GET"
    case HEAD => name == "HEAD"
    case POST => name == "POST"
    case PUT => name == "PUT"
    case DELETE => name == "DELETE"
    case CONNECT => name == "CONNECT"
    case OPTIONS => name == "OPTIONS"
    case TRACE => name == "TRACE"
    case PATCH => name == "PATCH"
    case UNKNOWN => false
  }

  /** Both tables are that list: a name stands for its method, every other word for none. */
  lemma MethodTables(s: string, m: Method)
    ensures m != UNKNOWN ==> (StringToMethod(s) == m <==> Names(s, m))
    ensures m != UNKNOWN ==> Names(MethodToString(m), m)
    ensures StringToMethod(MethodToString(m)) == m
    ensures MethodToString(m) != "" && AllIn(MethodToString(m), WordText)
  {
  }

  type Headers = map<string, string>

  /** One header field, and a list of them in the order in which they are written. */
  datatype Field = Field(name: string, value: string)

  datatype HTTPRequest = HTTPRequest(
    verb: Method, resource: string, version: string, headers: Headers, body: string)

  datatype HTTPResponse = HTTPResponse(
    version: string, code: uint32, status: string, headers: Headers, body: string)

  const HTTP_VERSION := "HTTP/1.1"

  /** The headers that both JSON constructors set. */
  function JsonHeaders(body: string): Headers {
    map["Content-Type" := "application/json", "Content-Length" := Decimal(|body|)]
  }

  /** The request constructor with a JSON body, `dumped` being the text of that body. */
  function JsonRequest(verb: Method, resource: string, dumped: string): HTTPRequest {
    HTTPRequest(verb, resource, HTTP_VERSION, JsonHeaders(dumped), dumped)
  }

  /** The two response constructors. */
  function PlainResponse(code: uint32, status: string): HTTPResponse {
    HTTPResponse(HTTP_VERSION, code, status, map[], "")
  }

  function JsonResponse(code: uint32, status: string, dumped: string): HTTPResponse {
    HTTPResponse(HTTP_VERSION, code, status, JsonHeaders(dumped), dumped)
  }

  /** `fields` lists the entries of the unordered map `m`, each once, in some order. */
  ghost predicate Enumerates(fields: seq<Field>, m: Headers) {
    && (forall f <- fields :: f.name in m && m[f.name] == f.value)
    && (forall n <- m :: Field(n, m[n]) in fields)
    && (forall i, j :: 0 <= i < j < |fields| ==> fields[i].name != fields[j].name)
  }

  function FieldText(f: Field): string {
    f.name + ": " + f.value + "\r\n"
  }

  function FieldsText(fields: seq<Field>): string {
    if fields == [] then "" else FieldText(fields[0]) + FieldsText(fields[1..])
  }

  function RequestLine(r: HTTPRequest): string {
    MethodToString(r.verb) + " " + r.resource + " " + r.version + "\r\n"
  }

  function StatusLine(r: HTTPResponse): string {
    r.version + " " + Decimal(r.code) + " " + r.status + "\r\n"
  }

  /** `to_string` of a request whose headers are enumerated as `fields`. */
  function RequestText(r: HTTPRequest, fields: seq<Field>): string {
    RequestLine(r) + (FieldsText(fields) + ("\r\n" + r.body))
  }

  /** `to_string` of a response whose headers are enumerated as `fields`. */
  function ResponseText(r: HTTPResponse, fields: seq<Field>): string {
    StatusLine(r) + (FieldsText(fields) + ("\r\n" + r.body))
  }
}

/**
 The header block: how it is cut into lines, what map it becomes, and what does not matter
 in it.
 */
module HeaderBlock {
  import opened Ascii
  import opened Text
  import opened Messages
  import opened Syntax
  import opened Wrappers

  // ---------------------------------------------------------------- one line

  lemma FieldHasNext(line: string)
    requires IsField(line)
    ensures HasNext(line)
  {
    SpanIs(line, NameText);
    HasNextIff(line);
  }

  lemma DropCROf(l: string)
    ensures DropCR(l) <= l
    ensures DropCR(l + "\r") == l
  {
  }

  /** A whole line with a colon contributes one field and is otherwise forgotten. */
  lemma FieldLine(l: string, rest: string)
    requires AllIn(l, LineText) && IsField(DropCR(l))
    ensures HeaderFields(l + "\n" + rest) == [FieldOf(DropCR(l))] + HeaderFields(rest)
    ensures HeaderRest(l + "\n" + rest) == HeaderRest(rest)
  {
    var s := l + "\n" + rest;
    LineOf(l, rest);
    FieldHasNext(DropCR(l));
    DropCROf(l);
    assert s == DropCR(l) + s[|DropCR(l)|..];
    HasNextAppend(DropCR(l), s[|DropCR(l)|..]);
  }

  /** A whole line without one ends the block, if anything but white space is left. */
  lemma EndLine(l: string, rest: string)
    requires AllIn(l, LineText) && !IsField(DropCR(l))
    ensures HeaderFields(l + "\n" + rest) == []
    ensures BodyOf(HeaderRest(l + "\n" + rest)) == BodyOf(rest)
  {
    LineOf(l, rest);
    HasNextAppend(l + "\n", rest);
  }

  /** Whatever a line says, its name is lower case with no colon and no newline, and its value
      has no newline and does not start with white space. */
  ghost predicate CleanField(f: Field) {
    && AllIn(f.name, NameText) && AllIn(f.name, LineText)
    && CleanValue(f.value)
  }

  ghost predicate CleanValue(v: string) {
    AllIn(v, LineText) && (v != "" ==> !IsSpace(v[0]))
  }

  ghost predicate IsLower(s: string) {
    forall i :: 0 <= i < |s| ==> !IsUpper(s[i])
  }

  lemma LowerKeepsClass(s: string)
    ensures AllIn(Lower(s), NameText) <==> AllIn(s, NameText)
    ensures AllIn(Lower(s), LineText) <==> AllIn(s, LineText)
    ensures IsLower(Lower(s))
  {
    var l := Lower(s);
    assert forall i :: 0 <= i < |s| ==> (InClass(l[i], NameText) <==> InClass(s[i], NameText));
    assert forall i :: 0 <= i < |s| ==> (InClass(l[i], LineText) <==> InClass(s[i], LineText));
  }

  lemma FieldIsClean(line: string)
    requires AllIn(line, LineText) && IsField(line)
    ensures CleanField(FieldOf(line)) && IsLower(FieldOf(line).name)
  {
    var n := Span(line, NameText);
    SpanIs(line, NameText);
    LowerKeepsClass(line[..n]);
    var raw := line[n + 1..];
    SpanIs(raw, Space);
    var v := SkipSpace(raw);
    assert forall i :: 0 <= i < |v| ==> v[i] == line[n + 1 + Span(raw, Space) + i];
  }

  lemma {:induction false} HeaderFieldsAreClean(s: string)
    ensures forall f <- HeaderFields(s) :: CleanField(f) && IsLower(f.name)
    decreases |s|
  {
    if HasNext(s) && IsField(Line(s)) {
      LineIs(s);
      FieldIsClean(Line(s));
      HeaderFieldsAreClean(AfterLine(s));
    }
  }

  // ---------------------------------------------------------------- the map

  /** Of several fields with one name the last one counts, and nothing else gets in. */
  lemma {:induction false} AssignLastWins(m: Headers, fields: seq<Field>, name: string)
    ensures name in Assign(m, fields) <==> name in m || exists i :: 0 <= i < |fields| && fields[i].name == name
    ensures forall i :: 0 <= i < |fields| && fields[i].name == name
                     && (forall j :: i < j < |fields| ==> fields[j].name != name)
              ==> name in Assign(m, fields) && Assign(m, fields)[name] == fields[i].value
    ensures name in m && (forall j :: 0 <= j < |fields| ==> fields[j].name != name) ==>
              name in Assign(m, fields) && Assign(m, fields)[name] == m[name]
    decreases fields
  {
    if fields != [] {
      var m', rest := m[fields[0].name := fields[0].value], fields[1..];
      AssignLastWins(m', rest, name);
      assert forall i :: 0 < i < |fields| ==> fields[i] == rest[i - 1];
      assert forall i :: 0 <= i < |rest| ==> rest[i] == fields[i + 1];
    }
  }

  /** The two halves of this for a map that starts out empty. */
  lemma LastAssigned(fields: seq<Field>, i: nat)
    requires i < |fields| && forall j :: i < j < |fields| ==> fields[j].name != fields[i].name
    ensures fields[i].name in Assign(map[], fields) && Assign(map[], fields)[fields[i].name] == fields[i].value
  {
    AssignLastWins(map[], fields, fields[i].name);
  }

  lemma AssignedFrom(fields: seq<Field>, name: string) returns (i: nat)
    requires name in Assign(map[], fields)
    ensures i < |fields| && fields[i].name == name && Assign(map[], fields)[name] == fields[i].value
  {
    AssignLastWins(map[], fields, name);
    var some :| 0 <= some < |fields| && fields[some].name == name;
    i := LastOf(fields, some);
    LastAssigned(fields, i);
  }

  /** The last field with the name of a given one. */
  lemma LastOf(fields: seq<Field>, some: nat) returns (i: nat)
    requires some < |fields|
    ensures some <= i < |fields| && fields[i].name == fields[some].name
    ensures forall j :: i < j < |fields| ==> fields[j].name != fields[i].name
  {
    i := |fields| - 1;
    while fields[i].name != fields[some].name
      invariant some <= i < |fields|
      invariant forall j :: i < j < |fields| ==> fields[j].name != fields[some].name
      decreases i
    {
      i := i - 1;
    }
  }

  lemma NameAssigned(fields: seq<Field>, some: nat)
    requires some < |fields|
    ensures fields[some].name in Assign(map[], fields)
  {
    var i := LastOf(fields, some);
    LastAssigned(fields, i);
  }

  /** A property of all fields is a property of all entries of the map they make. */
  lemma {:induction false} AssignKeeps(m: Headers, fields: seq<Field>)
    requires forall n <- m :: CleanField(Field(n, m[n])) && IsLower(n)
    requires forall f <- fields :: CleanField(f) && IsLower(f.name)
    ensures var h := Assign(m, fields); forall n <- h :: CleanField(Field(n, h[n])) && IsLower(n)
    decreases fields
  {
    if fields != [] {
      assert fields[0] in fields;
      AssignKeeps(m[fields[0].name := fields[0].value], fields[1..]);
    }
  }

  /** Every entry of a parsed header map is clean and lower case. */
  lemma HeaderMapIsClean(s: string)
    ensures var h := HeaderMap(s); forall n <- h :: CleanField(Field(n, h[n])) && IsLower(n)
  {
    HeaderFieldsAreClean(s);
    AssignKeeps(map[], HeaderFields(s));
  }

  // ---------------------------------------------------------------- whole blocks

  /** A header line as it may be written: name, colon, and any text without a newline. */
  datatype RawField = RawField(name: string, text: string)

  ghost predicate Writable(f: RawField) {
    AllIn(f.name, NameText) && AllIn(f.name, LineText) && AllIn(f.text, LineText)
  }

  function RawLine(f: RawField): string {
    f.name + ":" + f.text
  }

  function RawBlock(fields: seq<RawField>): string {
    if fields == [] then "" else RawLine(fields[0]) + "\n" + RawBlock(fields[1..])
  }

  /** What a written line comes to. */
  function Read(f: RawField): Field {
    Field(Lower(f.name), SkipSpace(DropCR(f.text)))
  }

  function ReadAll(fields: seq<RawField>): seq<Field> {
    if fields == [] then [] else [Read(fields[0])] + ReadAll(fields[1..])
  }

  lemma RawLineIsField(f: RawField)
    requires Writable(f)
    ensures AllIn(RawLine(f), LineText)
    ensures IsField(DropCR(RawLine(f))) && FieldOf(DropCR(RawLine(f))) == Read(f)
  {
    var line := DropCR(RawLine(f));
    assert line == f.name + ":" + DropCR(f.text);
    assert line[..|f.name|] == f.name;
    SpanUnique(line, NameText, |f.name|);
    assert line[|f.name| + 1..] == DropCR(f.text);
  }

  /** Header lines in front of any text are read one by one, and the text after them is read
      as if they were not there. */
  lemma {:induction false} RawBlockRead(fields: seq<RawField>, tail: string)
    requires forall f <- fields :: Writable(f)
    ensures HeaderFields(RawBlock(fields) + tail) == ReadAll(fields) + HeaderFields(tail)
    ensures HeaderRest(RawBlock(fields) + tail) == HeaderRest(tail)
  {
    if fields == [] {
      assert RawBlock(fields) + tail == tail;
    } else {
      var f := fields[0];
      var rest := RawBlock(fields[1..]) + tail;
      RawLineIsField(f);
      RawBlockRead(fields[1..], tail);
      Assoc(RawLine(f) + "\n", RawBlock(fields[1..]), tail);
      FieldLine(RawLine(f), rest);
      Assoc([Read(f)], ReadAll(fields[1..]), HeaderFields(tail));
    }
  }

  /** Two blocks that differ only in the letter case of their names. */
  ghost predicate SameUpToCase(a: seq<RawField>, b: seq<RawField>) {
    && |a| == |b|
    && forall i :: 0 <= i < |a| ==> Lower(a[i].name) == Lower(b[i].name) && a[i].text == b[i].text
  }

  lemma {:induction false} ReadAllIgnoresCase(a: seq<RawField>, b: seq<RawField>)
    requires SameUpToCase(a, b)
    ensures ReadAll(a) == ReadAll(b)
  {
    if a != [] {
      ReadAllIgnoresCase(a[1..], b[1..]);
    }
  }

  // ---------------------------------------------------------------- conservation

  /** The line at the front of `s` with its newline, if it has one. */
  function FrontLine(s: string): string {
    s[..|s| - |AfterLine(s)|]
  }

  /** The raw lines that the header loop turns into fields. */
  function FieldLines(s: string): seq<string>
    decreases |s|
  {
    if HasNext(s) && IsField(Line(s)) then [FrontLine(s)] + FieldLines(AfterLine(s)) else []
  }

  /** The raw line that ends it, or nothing when only white space was left. */
  function TerminatorLine(s: string): string
    decreases |s|
  {
    if !HasNext(s) then ""
    else if IsField(Line(s)) then TerminatorLine(AfterLine(s))
    else FrontLine(s)
  }

  function Flatten(lines: seq<string>): string {
    if lines == [] then "" else lines[0] + Flatten(lines[1..])
  }

  lemma FrontLineIs(s: string)
    ensures s == FrontLine(s) + AfterLine(s)
    ensures Line(FrontLine(s)) == Line(s)
  {
    var n := Span(s, LineText);
    SpanIs(s, LineText);
    assert FrontLine(s)[..n] == s[..n];
    SpanUnique(FrontLine(s), LineText, n);
    if n < |s| {
      assert s == s[..n + 1] + s[n + 1..];
    }
  }

  /** No byte of the block is lost or moved: it is its field lines, then the line that ended
      it, then the rest.  The rest is white space if no line ended it. */
  lemma {:induction false} BlockConserved(s: string)
    ensures s == Flatten(FieldLines(s)) + (TerminatorLine(s) + HeaderRest(s))
    ensures if TerminatorLine(s) == "" then !HasNext(HeaderRest(s)) else !IsField(Line(TerminatorLine(s)))
    decreases |s|
  {
    FrontLineIs(s);
    if HasNext(s) && IsField(Line(s)) {
      var rest := AfterLine(s);
      BlockConserved(rest);
      Assoc(FrontLine(s), Flatten(FieldLines(rest)), TerminatorLine(rest) + HeaderRest(rest));
    } else {
      assert Flatten([]) == "";
    }
  }

  /** Each consumed line has a colon and gives the field at its own position. */
  lemma {:induction false} FieldLinesGiveFields(s: string)
    ensures |FieldLines(s)| == |HeaderFields(s)|
    ensures forall i :: 0 <= i < |FieldLines(s)| ==>
              IsField(Line(FieldLines(s)[i])) && HeaderFields(s)[i] == FieldOf(Line(FieldLines(s)[i]))
    decreases |s|
  {
    if HasNext(s) && IsField(Line(s)) {
      FrontLineIs(s);
      FieldLinesGiveFields(AfterLine(s));
    }
  }
}

/**
 The lexer as a pure function of the text still to be read.  Each function says what one
 `SocketStream` call yields, or leaves behind, when the whole text is already at hand.
 */
module Text {
  import opened Ascii

  /** The character sets that the scanning loops run through. */
  datatype CharClass = Space | WordText | LineText | NameText | Digits

  predicate InClass(c: char, k: CharClass) {
    match k
    case Space => IsSpace(c)
    case WordText => !IsSpace(c)
    case LineText => c != '\n'
    case NameText => c != ':'
    case Digits => IsDigit(c)
  }

  ghost predicate AllIn(s: string, k: CharClass) {
    forall i :: 0 <= i < |s| ==> InClass(s[i], k)
  }

  /** Offset of the first character at or after `i` that is outside class `k`. */
  function Scan(s: string, k: CharClass, i: nat): (n: nat)
    requires i <= |s|
    ensures i <= n <= |s|
    decreases |s| - i
  {
    if i < |s| && InClass(s[i], k) then Scan(s, k, i + 1) else i
  }

  /** Length of the longest prefix of `s` inside class `k`. */
  function Span(s: string, k: CharClass): (n: nat)
    ensures n <= |s|
  {
    Scan(s, k, 0)
  }

  lemma {:induction false} ScanIs(s: string, k: CharClass, i: nat)
    requires i <= |s|
    ensures forall j :: i <= j < Scan(s, k, i) ==> InClass(s[j], k)
    ensures Scan(s, k, i) < |s| ==> !InClass(s[Scan(s, k, i)], k)
    decreases |s| - i
  {
    if i < |s| && InClass(s[i], k) {
      ScanIs(s, k, i + 1);
    }
  }

  /** `Span` stops at the first character outside the class, and nowhere else. */
  lemma SpanIs(s: string, k: CharClass)
    ensures AllIn(s[..Span(s, k)], k)
    ensures Span(s, k) < |s| ==> !InClass(s[Span(s, k)], k)
  {
    ScanIs(s, k, 0);
  }

  /** Those two facts determine it. */
  lemma SpanUnique(s: string, k: CharClass, n: nat)
    requires n <= |s| && AllIn(s[..n], k)
    requires n < |s| ==> !InClass(s[n], k)
    ensures Span(s, k) == n
  {
    SpanIs(s, k);
    var m := Span(s, k);
    var long, found := s[..n], s[..m];
    assert forall i :: 0 <= i < n ==> long[i] == s[i];
    assert forall i :: 0 <= i < m ==> found[i] == s[i];
  }

  lemma SpanAppend(a: string, b: string, k: CharClass)
    ensures Span(a + b, k) == if Span(a, k) < |a| then Span(a, k) else |a| + Span(b, k)
  {
    var n := Span(a, k);
    SpanIs(a, k);
    SpanIs(b, k);
    if n < |a| {
      assert (a + b)[..n] == a[..n];
      SpanUnique(a + b, k, n);
    } else {
      var m := Span(b, k);
      assert a[..n] == a && (a + b)[..|a| + m] == a + b[..m];
      SpanUnique(a + b, k, |a| + m);
    }
  }

  /** One step of a scanning loop that stands at offset `p` of `t`. */
  lemma SpanStep(t: string, p: nat, k: CharClass)
    requires p < |t| && InClass(t[p], k)
    ensures Span(t[p..], k) == 1 + Span(t[p + 1..], k)
  {
    assert t[p..] == [t[p]] + t[p + 1..];
    assert [t[p]][..1] == [t[p]];
    SpanUnique([t[p]], k, 1);
    SpanAppend([t[p]], t[p + 1..], k);
  }

  /** `hasNext` */
  predicate HasNext(s: string) {
    Span(s, Space) < |s|
  }

  function SkipSpace(s: string): (r: string)
    ensures |r| <= |s|
  {
    s[Span(s, Space)..]
  }

  /** `nextWord` */
  function Word(s: string): string {
    SkipSpace(s)[..Span(SkipSpace(s), WordText)]
  }

  function AfterWord(s: string): (r: string)
    ensures |r| <= |s|
  {
    SkipSpace(s)[Span(SkipSpace(s), WordText)..]
  }

  /** Where `nextLine` starts its line, with or without skipping white space first. */
  function LineStart(s: string, skipWhitespace: bool): string {
    if skipWhitespace then SkipSpace(s) else s
  }

  /** Offset in `t` at which the line that starts the suffix `from` ends. */
  function LineEnd(t: string, from: string): nat
    requires |from| <= |t|
  {
    |t| - |from| + Span(from, LineText)
  }

  /** `passedBuffer`: what lies before a cursor at offset `pos`, which may be past the end. */
  function Passed(t: string, pos: nat): string {
    if pos <= |t| then t[..pos] else t
  }

  /** `std::string::find` of a newline, with `npos` as -1. */
  function FindNewline(s: string): int {
    if Span(s, LineText) < |s| then Span(s, LineText) else -1
  }

  /** The same search, confined to the first `pos` characters of `t`. */
  function FindNewlineBefore(t: string, pos: int): int {
    if Span(t, LineText) < pos && Span(t, LineText) < |t| then Span(t, LineText) else -1
  }

  /** Exactly one trailing carriage return is dropped. */
  function DropCR(line: string): string {
    if line != "" && line[|line| - 1] == '\r' then line[..|line| - 1] else line
  }

  /** `nextLine` */
  function Line(s: string): string {
    DropCR(s[..Span(s, LineText)])
  }

  function AfterLine(s: string): (r: string)
    ensures |r| <= |s|
    ensures s != "" ==> |r| < |s|
  {
    var n := Span(s, LineText);
    if n < |s| then s[n + 1..] else ""
  }

  /** Searching what was passed is searching the text up to the cursor. */
  lemma FindInPassed(t: string, pos: nat)
    ensures FindNewline(Passed(t, pos)) == FindNewlineBefore(t, pos)
  {
    if pos < |t| {
      assert t == t[..pos] + t[pos..];
      SpanAppend(t[..pos], t[pos..], LineText);
    } else {
      assert t[..|t|] == t;
    }
  }

  /** `hasNext` is true exactly when some character that is not white space lies ahead. */
  lemma HasNextIff(s: string)
    ensures HasNext(s) <==> exists i :: 0 <= i < |s| && !IsSpace(s[i])
  {
    var n := Span(s, Space);
    SpanIs(s, Space);
    assert forall i :: 0 <= i < n ==> s[i] == s[..n][i];
  }

  lemma HasNextAppend(a: string, b: string)
    ensures HasNext(a + b) <==> HasNext(a) || HasNext(b)
  {
    SpanAppend(a, b, Space);
  }

  /** A word has no white space in it, and white space or nothing after it. */
  lemma WordIs(s: string)
    ensures AllIn(Word(s), WordText)
    ensures AfterWord(s) != "" ==> IsSpace(AfterWord(s)[0])
  {
    SpanIs(SkipSpace(s), WordText);
  }

  /** A line has no newline in it. */
  lemma LineIs(s: string)
    ensures AllIn(Line(s), LineText)
  {
    SpanIs(s, LineText);
  }

  /** A word is non-empty exactly when there is one. */
  lemma WordIff(s: string)
    ensures Word(s) != "" <==> HasNext(s)
  {
    SpanIs(s, Space);
    var r := SkipSpace(s);
    if HasNext(s) {
      assert r[0] == s[Span(s, Space)];
    }
  }

  lemma SkipSpaceAppend(a: string, b: string)
    requires HasNext(a)
    ensures SkipSpace(a + b) == SkipSpace(a) + b
  {
    SpanAppend(a, b, Space);
  }

  /** A word lies entirely inside the text it was found in, whatever follows that text. */
  lemma WordAppend(a: string, b: string)
    requires HasNext(a)
    requires b == "" || IsSpace(b[0])
    ensures Word(a + b) == Word(a)
    ensures AfterWord(a + b) == AfterWord(a) + b
  {
    SkipSpaceAppend(a, b);
    var r := SkipSpace(a);
    SpanAppend(r, b, WordText);
    SpanUnique(b, WordText, 0);
    var n := Span(r, WordText);
    assert Span(r + b, WordText) == n;
    assert (r + b)[..n] == r[..n];
    assert (r + b)[n..] == r[n..] + b;
  }

  /** A word written out in full and followed by white space is read back. */
  lemma WordOf(w: string, b: string)
    requires w != "" && AllIn(w, WordText)
    requires b == "" || IsSpace(b[0])
    ensures Word(w + b) == w && AfterWord(w + b) == b
  {
    SpanUnique(w, Space, 0);
    assert w[..|w|] == w;
    SpanUnique(w, WordText, |w|);
    assert SkipSpace(w) == w;
    WordAppend(w, b);
  }

  lemma WordOfSpaced(w: string, b: string)
    requires w != "" && AllIn(w, WordText)
    requires b == "" || IsSpace(b[0])
    ensures Word(" " + w + b) == w && AfterWord(" " + w + b) == b
  {
    WordOf(w, b);
    SpanAppend(" ", w + b, Space);
    assert SkipSpace(" " + (w + b)) == SkipSpace(w + b);
    assert " " + w + b == " " + (w + b);
  }

  /** A line written out in full is read back, and the text after it is left. */
  lemma LineOf(l: string, b: string)
    requires AllIn(l, LineText)
    ensures Line(l + "\n" + b) == DropCR(l) && AfterLine(l + "\n" + b) == b
  {
    var s := l + "\n" + b;
    assert s[..|l|] == l;
    SpanUnique(s, LineText, |l|);
  }

  /** In particular one that is ended by both characters, or by the newline alone. */
  lemma LineEnded(l: string, b: string)
    requires AllIn(l, LineText)
    ensures Line(l + "\r\n" + b) == l && AfterLine(l + "\r\n" + b) == b
    ensures (l == "" || l[|l| - 1] != '\r') ==> Line(l + "\n" + b) == l && AfterLine(l + "\n" + b) == b
  {
    var text := l + "\r";
    assert text + "\n" + b == l + "\r\n" + b && text[..|l|] == l;
    LineOf(text, b);
    LineOf(l, b);
  }

  lemma LastLineOf(l: string)
    requires AllIn(l, LineText)
    ensures Line(l) == DropCR(l) && AfterLine(l) == ""
  {
    assert l[..|l|] == l;
    SpanUnique(l, LineText, |l|);
  }
}

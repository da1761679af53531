/**
 Which texts the parsers accept, and where each byte of an accepted text goes, stated on the
 lines of the text rather than on the cursor movements of the lexer.
 */
module Grammar {
  import opened Ascii
  import opened Text
  import opened Numbers
  import opened Messages
  import opened Syntax
  import opened Wrappers

  // ---------------------------------------------------------------- start lines

  /** The words of a line. */
  function Words(s: string): seq<string>
    decreases |s|
  {
    if HasNext(s) then
      WordShrinks(s);
      [Word(s)] + Words(AfterWord(s))
    else []
  }

  lemma WordShrinks(s: string)
    requires HasNext(s)
    ensures |AfterWord(s)| < |s|
  {
    WordIff(s);
    assert |SkipSpace(s)| <= |s|;
  }

  lemma WordsStep(s: string, w: string, r: string)
    requires w != "" && Word(s) == w && AfterWord(s) == r
    ensures Words(s) == [w] + Words(r)
  {
    WordIff(s);
  }

  lemma TwoInFront<T>(a: T, b: T, rest: seq<T>)
    ensures [a] + ([b] + rest) == [a, b] + rest
  {
  }

  lemma ThreeInFront<T>(a: T, b: T, c: T, rest: seq<T>)
    ensures [a] + ([b] + ([c] + rest)) == [a, b, c] + rest
    ensures ([a, b, c] + rest)[..3] == [a, b, c]
  {
  }

  /** `s` is a whole line of a text: `tail` is empty, or a newline and what follows it. */
  ghost predicate LineEndsWith(s: string, tail: string) {
    AllIn(s, LineText) && (tail == "" || tail[0] == '\n')
  }

  function AfterNewline(tail: string): string {
    if tail == "" then "" else tail[1..]
  }

  /** Asking for a word when the line has none left moves the cursor past the line's end. */
  lemma WordBeyond(a: string, tail: string)
    requires !HasNext(a) && (tail == "" || tail[0] == '\n')
    ensures |AfterWord(a + tail)| <= |SkipSpace(a + tail)| <= |AfterNewline(tail)|
    ensures tail == "" ==> Word(a + tail) == ""
  {
    SpanAppend(a, tail, Space);
    if tail != "" {
      SpanStep(tail, 0, Space);
      assert tail[0..] == tail;
    }
  }

  /** The first newline of the text is the one that ends its first line. */
  lemma FirstNewline(s: string, tail: string)
    requires LineEndsWith(s, tail)
    ensures Span(s + tail, LineText) == |s|
  {
    assert (s + tail)[..|s|] == s;
    SpanUnique(s + tail, LineText, |s|);
  }

  lemma HasNextDropCR(l: string)
    ensures HasNext(DropCR(l)) == HasNext(l)
  {
    if l != "" && l[|l| - 1] == '\r' {
      var k := |l| - 1;
      assert l == l[..k] + "\r";
      HasNextAppend(l[..k], "\r");
    }
  }

  /** What a request line says: three words, the first of them a method. */
  function RequestLineOf(s: string): Option<RequestStart> {
    var w := Words(s);
    if |w| == 3 && StringToMethod(w[0]) != UNKNOWN then Some(RequestStart(StringToMethod(w[0]), w[1], w[2]))
    else None
  }

  lemma NoMoreWords(s: string)
    ensures s == "" ==> Word(s) == "" && AfterWord(s) == ""
  {
  }

  /** The next word after the cursor has left the line, or found the text empty, is no better. */
  lemma StillBeyond(t: string, bound: nat)
    requires |t| <= bound
    ensures |AfterWord(t)| <= bound && (t == "" ==> Word(t) == "" && AfterWord(t) == "")
  {
    NoMoreWords(t);
  }

  /** The lexer stays on the first line when that line has all three words ... */
  lemma ThreeWordsWithin(s: string, tail: string)
    requires LineEndsWith(s, tail)
    requires HasNext(s) && HasNext(AfterWord(s)) && HasNext(AfterWord(AfterWord(s)))
    ensures var s1 := AfterWord(s); var s2 := AfterWord(s1);
            var t1 := AfterWord(s + tail); var t2 := AfterWord(t1);
            && Word(s + tail) == Word(s) && Word(t1) == Word(s1) && Word(t2) == Word(s2)
            && AfterWord(t2) == AfterWord(s2) + tail
  {
    WordAppend(s, tail);
    WordAppend(AfterWord(s), tail);
    WordAppend(AfterWord(AfterWord(s)), tail);
  }

  /** ... and otherwise leaves it, or comes back with nothing at the end of the text. */
  lemma ThreeWordsBeyond(s: string, tail: string)
    requires LineEndsWith(s, tail)
    requires !(HasNext(s) && HasNext(AfterWord(s)) && HasNext(AfterWord(AfterWord(s))))
    ensures var t2 := AfterWord(AfterWord(s + tail));
            |AfterWord(t2)| <= |AfterNewline(tail)| && (tail == "" ==> Word(t2) == "")
  {
    var bound := |AfterNewline(tail)|;
    var s1 := AfterWord(s);
    var t1 := AfterWord(s + tail);
    var t2 := AfterWord(t1);
    if !HasNext(s) {
      WordBeyond(s, tail);
      StillBeyond(t1, bound);
      StillBeyond(t2, bound);
    } else {
      WordAppend(s, tail);
      if !HasNext(s1) {
        WordBeyond(s1, tail);
        StillBeyond(t2, bound);
      } else {
        WordAppend(s1, tail);
        WordBeyond(AfterWord(s1), tail);
      }
    }
  }

  lemma FirstThreeWords(s: string)
    ensures var s1 := AfterWord(s); var s2 := AfterWord(s1); var w := Words(s);
            if HasNext(s) && HasNext(s1) && HasNext(s2)
            then |w| >= 3 && w[..3] == [Word(s), Word(s1), Word(s2)]
              && (|w| == 3 <==> !HasNext(AfterWord(s2)))
            else |w| < 3
  {
    var s1 := AfterWord(s);
    var s2 := AfterWord(s1);
    if HasNext(s) && HasNext(s1) && HasNext(s2) {
      WordIff(s);
      WordIff(s1);
      WordIff(s2);
      WordsStep(s, Word(s), s1);
      WordsStep(s1, Word(s1), s2);
      WordsStep(s2, Word(s2), AfterWord(s2));
      ThreeInFront(Word(s), Word(s1), Word(s2), Words(AfterWord(s2)));
    }
  }

  /** On a line with three words the checks see that line only. */
  lemma RequestLineWithin(s: string, tail: string)
    requires LineEndsWith(s, tail)
    requires HasNext(s) && HasNext(AfterWord(s)) && HasNext(AfterWord(AfterWord(s)))
    ensures var s1 := AfterWord(s); var s2 := AfterWord(s1);
            ReadRequestLine(s + tail) ==
              if HasNext(AfterWord(s2)) || StringToMethod(Word(s)) == UNKNOWN then None
              else Some(Start(RequestStart(StringToMethod(Word(s)), Word(s1), Word(s2)), AfterNewline(tail)))
  {
    var t := s + tail;
    var s1 := AfterWord(s);
    var s2 := AfterWord(s1);
    var s3 := AfterWord(s2);
    var t1 := AfterWord(t);
    var t2 := AfterWord(t1);
    ReadRequestLineSteps(t, t1, t2, AfterWord(t2));
    ThreeWordsWithin(s, tail);
    FirstNewline(s, tail);
    WordIff(s1);
    WordIff(s2);
    SuffixOfLine(s);
    SuffixOfLine(s1);
    SuffixOfLine(s2);
    RestOfLine(s3, tail);
    assert FindNewlineBefore(t, |t| - |s3 + tail|) == -1;
  }

  /** A word that was found beyond the first newline, or not at all, is never accepted. */
  lemma RequestLineBeyond(s: string, tail: string)
    requires LineEndsWith(s, tail)
    requires !(HasNext(s) && HasNext(AfterWord(s)) && HasNext(AfterWord(AfterWord(s))))
    ensures ReadRequestLine(s + tail) == None
  {
    var t := s + tail;
    var t1 := AfterWord(t);
    var t2 := AfterWord(t1);
    var t3 := AfterWord(t2);
    ReadRequestLineSteps(t, t1, t2, t3);
    ThreeWordsBeyond(s, tail);
    FirstNewline(s, tail);
    if tail != "" {
      assert FindNewlineBefore(t, |t| - |t3|) != -1;
    }
  }

  /** The request line is accepted, and read as it is, exactly when its first line has three
      words of which the first is a method; the rest of the text is then left. */
  lemma {:induction false} RequestLineGrammar(s: string, tail: string)
    requires LineEndsWith(s, tail)
    ensures ReadRequestLine(s + tail)
         == match RequestLineOf(s)
            case None => None
            case Some(l) => Some(Start(l, AfterNewline(tail)))
  {
    FirstThreeWords(s);
    var s1 := AfterWord(s);
    if HasNext(s) && HasNext(s1) && HasNext(AfterWord(s1)) {
      RequestLineWithin(s, tail);
      var w := Words(s);
      assert w[0] == w[..3][0] && w[1] == w[..3][1] && w[2] == w[..3][2];
    } else {
      RequestLineBeyond(s, tail);
    }
  }

  lemma SuffixOfLine(s: string)
    requires AllIn(s, LineText)
    ensures AllIn(AfterWord(s), LineText) && AllIn(SkipSpace(s), LineText)
  {
    assert forall i :: 0 <= i < |SkipSpace(s)| ==> SkipSpace(s)[i] == s[Span(s, Space) + i];
  }

  /** Reading to the end of a line that has been entered. */
  lemma RestOfLine(s: string, tail: string)
    requires LineEndsWith(s, tail)
    ensures Line(s + tail) == DropCR(s) && AfterLine(s + tail) == AfterNewline(tail)
    ensures HasNext(Line(s + tail)) == HasNext(s)
  {
    FirstNewline(s, tail);
    assert (s + tail)[..|s|] == s;
    HasNextDropCR(s);
  }

  /** The third word of a status line and all that follows it. */
  function ReasonPhrase(s: string): string {
    DropCR(SkipSpace(AfterWord(AfterWord(s))))
  }

  function StatusOf(version: string, number: Option<nat>, reason: string): Option<ResponseStart> {
    match number
    case None => None
    case Some(n) => if Truncate32(n) == 0 then None else Some(ResponseStart(version, Truncate32(n), reason))
  }

  /** What a status line says: a version, a number with non-zero low 32 bits, a reason. */
  function StatusLineOf(s: string): Option<ResponseStart> {
    var w := Words(s);
    if |w| < 3 then None else StatusOf(w[0], Stoul(w[1]), ReasonPhrase(s))
  }

  lemma ReasonWithin(s: string, tail: string)
    requires LineEndsWith(s, tail)
    requires HasNext(s) && HasNext(AfterWord(s)) && HasNext(AfterWord(AfterWord(s)))
    ensures var s1 := AfterWord(s); var t1 := AfterWord(s + tail);
            && Word(s + tail) == Word(s) && Word(t1) == Word(s1)
            && SkipSpace(AfterWord(t1)) == SkipSpace(AfterWord(s1)) + tail
  {
    WordAppend(s, tail);
    WordAppend(AfterWord(s), tail);
    SkipSpaceAppend(AfterWord(AfterWord(s)), tail);
  }

  lemma ReasonBeyond(s: string, tail: string)
    requires LineEndsWith(s, tail)
    requires !(HasNext(s) && HasNext(AfterWord(s)) && HasNext(AfterWord(AfterWord(s))))
    ensures |SkipSpace(AfterWord(AfterWord(s + tail)))| <= |AfterNewline(tail)|
  {
    var bound := |AfterNewline(tail)|;
    var s1 := AfterWord(s);
    if !HasNext(s) {
      WordBeyond(s, tail);
      StillBeyond(AfterWord(s + tail), bound);
    } else {
      WordAppend(s, tail);
      if !HasNext(s1) {
        WordBeyond(s1, tail);
      } else {
        WordAppend(s1, tail);
        WordBeyond(AfterWord(s1), tail);
      }
    }
  }

  lemma ReasonIs(s2: string)
    requires HasNext(s2)
    ensures SkipSpace(s2) != "" && !IsSpace(SkipSpace(s2)[0]) && DropCR(SkipSpace(s2)) != ""
  {
    SpanIs(s2, Space);
    assert SkipSpace(s2)[0] == s2[Span(s2, Space)];
  }

  /** On a line with three words the checks see that line only. */
  lemma {:induction false} StatusLineWithin(s: string, tail: string)
    requires LineEndsWith(s, tail)
    requires HasNext(s) && HasNext(AfterWord(s)) && HasNext(AfterWord(AfterWord(s)))
    ensures ReadStatusLine(s + tail)
         == if tail == "" then None else
            match StatusOf(Word(s), Stoul(Word(AfterWord(s))), ReasonPhrase(s))
            case None => None
            case Some(l) => Some(Start(l, AfterNewline(tail)))
  {
    var t := s + tail;
    var s1 := AfterWord(s);
    var s2 := AfterWord(s1);
    var t1 := AfterWord(t);
    var f := SkipSpace(AfterWord(t1));
    ReasonWithin(s, tail);
    WordIff(s);
    ReasonIs(s2);
    SuffixOfLine(s);
    SuffixOfLine(s1);
    SuffixOfLine(s2);
    RestOfLine(SkipSpace(s2), tail);
    FirstNewline(s, tail);
    FirstNewline(SkipSpace(s2), tail);
    assert LineEnd(t, f) == |s|;
    if Stoul(Word(t1)).Some? {
      ReadStatusLineSteps(t, t1, f);
    }
  }

  /** The status line is accepted, and read as it is, exactly when the text has a newline and
      its first line says a version, a non-zero code and a reason; the rest is then left. */
  lemma StatusLineGrammar(s: string, tail: string)
    requires LineEndsWith(s, tail)
    ensures ReadStatusLine(s + tail)
         == if tail == "" then None else
            match StatusLineOf(s)
            case None => None
            case Some(l) => Some(Start(l, AfterNewline(tail)))
  {
    FirstThreeWords(s);
    var s1 := AfterWord(s);
    if HasNext(s) && HasNext(s1) && HasNext(AfterWord(s1)) {
      StatusLineWithin(s, tail);
      var w := Words(s);
      assert w[0] == w[..3][0] && w[1] == w[..3][1];
    } else {
      ReasonBeyond(s, tail);
      StatusLineBeyond(s, tail);
    }
  }

  /** A status that was found beyond the first newline is never accepted. */
  lemma StatusLineBeyond(s: string, tail: string)
    requires LineEndsWith(s, tail)
    requires |SkipSpace(AfterWord(AfterWord(s + tail)))| <= |AfterNewline(tail)|
    ensures ReadStatusLine(s + tail) == None
  {
    var t := s + tail;
    var t1 := AfterWord(t);
    var f := SkipSpace(AfterWord(t1));
    FirstNewline(s, tail);
    if Stoul(Word(t1)).Some? {
      ReadStatusLineSteps(t, t1, f);
      if f == "" {
        assert Line(f) == "";
      } else {
        assert LineEnd(t, f) > |s|;
      }
    }
  }
}

/**
 Any sequence of calls on a stream.  What the calls return, where they leave the cursor, and
 which of them throw, is decided by the whole text alone: how it was cut into chunks, and
 when the chunks were read, cannot be seen.
 */
module LexerRuns {
  import opened Text
  import opened Transport
  import opened Wrappers

  datatype Call = AskHasNext | AskNextWord | AskNextLine(skipWhitespace: bool) | AskRemaining | AskPassedBuffer

  /** `OutOfRange` is what `substr` throws when the cursor is past the end. */
  datatype Answer = Flag(b: bool) | Piece(text: string) | OutOfRange

  function PieceOrThrow(text: Option<string>): Answer {
    if text.Some? then Piece(text.value) else OutOfRange
  }

  function RestAt(full: string, pos: nat): string {
    if pos <= |full| then full[pos..] else ""
  }

  function AnswerAt(full: string, pos: nat, call: Call): Answer {
    var rest := RestAt(full, pos);
    match call
    case AskHasNext => Flag(HasNext(rest))
    case AskPassedBuffer => Piece(Passed(full, pos))
    case AskNextWord => if pos > |full| then OutOfRange else Piece(Word(rest))
    case AskNextLine(skip) => if pos > |full| then OutOfRange else Piece(Line(LineStart(rest, skip)))
    case AskRemaining => if pos > |full| then OutOfRange else Piece(rest)
  }

  /** Of the calls that throw, `nextLine` moves the cursor all the same. */
  function CursorAfter(full: string, pos: uint32, call: Call): uint32
    requires Receivable(full)
  {
    var rest := RestAt(full, pos);
    match call
    case AskHasNext => pos
    case AskPassedBuffer => pos
    case AskNextWord => if pos > |full| then pos else |full| - |AfterWord(rest)|
    case AskNextLine(skip) => if pos > |full| then Increment32(pos) else LineEnd(full, LineStart(rest, skip)) + 1
    case AskRemaining => if pos > |full| then pos else |full|
  }

  /** The answers to a sequence of calls of which each is made whatever became of those before. */
  function Answers(full: string, pos: uint32, calls: seq<Call>): seq<Answer>
    requires Receivable(full)
    decreases calls
  {
    if calls == [] then []
    else [AnswerAt(full, pos, calls[0])] + Answers(full, CursorAfter(full, pos, calls[0]), calls[1..])
  }

  function CursorAfterAll(full: string, pos: uint32, calls: seq<Call>): uint32
    requires Receivable(full)
    decreases calls
  {
    if calls == [] then pos else CursorAfterAll(full, CursorAfter(full, pos, calls[0]), calls[1..])
  }

  /** A cursor on the text, or one past its end, stays there, except that a `nextLine` one past
      the end takes it further (if it does not wrap around). */
  lemma CursorBound(full: string, pos: uint32, call: Call)
    requires Receivable(full) && pos <= |full| + 1
    ensures CursorAfter(full, pos, call) <= |full| + 1
       <==> !(call.AskNextLine? && pos == |full| + 1 && |full| + 2 < TWO_TO_THE_32)
  {
    var past: nat := |full| + 1;
    if pos == past {
      Increment32Is(pos);
    }
  }

  function LinesAsked(calls: seq<Call>): nat {
    if calls == [] then 0 else (if calls[0].AskNextLine? then 1 else 0) + LinesAsked(calls[1..])
  }

  /** What a call past the end of the text gives. */
  function AnswerPast(full: string, call: Call): Answer {
    match call
    case AskHasNext => Flag(false)
    case AskPassedBuffer => Piece(full)
    case _ => OutOfRange
  }

  /** A cursor past the end never comes back: every call that reads throws, and each `nextLine`
      takes the cursor one further. */
  lemma {:induction false} PastTheEnd(full: string, pos: uint32, calls: seq<Call>)
    requires Receivable(full) && pos > |full| && pos + LinesAsked(calls) < TWO_TO_THE_32
    ensures CursorAfterAll(full, pos, calls) == pos + LinesAsked(calls)
    ensures |Answers(full, pos, calls)| == |calls|
    ensures forall i :: 0 <= i < |calls| ==> Answers(full, pos, calls)[i] == AnswerPast(full, calls[i])
    decreases calls
  {
    if calls != [] {
      Increment32Is(pos);
      NothingAhead();
      var next := CursorAfter(full, pos, calls[0]);
      PastTheEnd(full, next, calls[1..]);
      assert AnswerAt(full, pos, calls[0]) == AnswerPast(full, calls[0]);
    }
  }

  lemma NothingAhead()
    ensures !HasNext("")
  {
  }

  method Ask(ss: SocketStream, call: Call) returns (a: Answer)
    requires ss.Valid()
    modifies ss`buffer, ss`timedOut, ss`pos, ss.socket`inbound
    ensures ss.Valid() && ss.Full() == old(ss.Full())
    ensures a == AnswerAt(ss.Full(), old(ss.pos), call) && ss.pos == CursorAfter(ss.Full(), old(ss.pos), call)
  {
    assert ss.Rest() == RestAt(ss.Full(), ss.pos);
    var text: Option<string>;
    match call {
    case AskHasNext =>
      var b := ss.HasNext();
      return Flag(b);
    case AskPassedBuffer =>
      var passed := ss.PassedBuffer();
      return Piece(passed);
    case AskNextWord =>
      text := ss.NextWord();
    case AskNextLine(skip) =>
      text := ss.NextLine(skip);
    case AskRemaining =>
      text := ss.Remaining();
    }
    a := PieceOrThrow(text);
  }

  method AskAll(ss: SocketStream, calls: seq<Call>) returns (answers: seq<Answer>)
    requires ss.Valid()
    modifies ss`buffer, ss`timedOut, ss`pos, ss.socket`inbound
    ensures ss.Valid() && ss.Full() == old(ss.Full())
    ensures answers == Answers(ss.Full(), old(ss.pos), calls)
    ensures ss.pos == CursorAfterAll(ss.Full(), old(ss.pos), calls)
  {
    answers := [];
    ghost var full := ss.Full();
    ghost var due := Answers(full, ss.pos, calls);
    var i := 0;
    assert calls[0..] == calls && [] + due == due;
    while i < |calls|
      invariant 0 <= i <= |calls| && ss.Valid() && ss.Full() == full
      invariant answers + Answers(full, ss.pos, calls[i..]) == due
      invariant CursorAfterAll(full, ss.pos, calls[i..]) == CursorAfterAll(full, old(ss.pos), calls)
    {
      ghost var rest := calls[i..];
      assert rest[0] == calls[i] && rest[1..] == calls[i + 1..];
      ghost var from := ss.pos;
      var a := Ask(ss, calls[i]);
      ghost var after := Answers(full, ss.pos, calls[i + 1..]);
      assert Answers(full, from, rest) == [a] + after;
      Assoc(answers, [a], after);
      answers := answers + [a];
      i := i + 1;
    }
    assert calls[i..] == [] && answers + [] == answers;
  }
}

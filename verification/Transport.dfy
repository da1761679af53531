/**
 A connected socket seen through `send` and `recv`, and the incremental lexer that reads
 from it.  What the kernel does is left open: `inbound` scripts the results of the `recv`
 calls still to come, and `KernelSend` writes any positive part of what it is given, or fails.
 */
module Transport {
  import opened Text
  import opened Wrappers

  /** Short enough for an `unsigned int` cursor to move one past the end of the text. */
  predicate Receivable(t: string) {
    |t| + 1 < TWO_TO_THE_32
  }

  /** What a reader can still see: the chunks up to the first empty one. */
  ghost function Deliverable(chunks: seq<string>): string {
    if chunks == [] || chunks[0] == "" then "" else chunks[0] + Deliverable(chunks[1..])
  }

  ghost function Concat(chunks: seq<string>): string {
    if chunks == [] then "" else chunks[0] + Concat(chunks[1..])
  }

  /** However a text was cut into non-empty chunks, and whatever follows the first empty
      one, exactly that text is delivered. */
  lemma {:induction false} DeliverableOfSplit(chunks: seq<string>, later: seq<string>)
    requires "" !in chunks
    ensures Deliverable(chunks + [""] + later) == Concat(chunks)
    ensures Deliverable(chunks) == Concat(chunks)
  {
    if chunks == [] {
      assert [] + [""] + later == [""] + later;
    } else {
      assert chunks[0] in chunks;
      DeliverableOfSplit(chunks[1..], later);
      assert (chunks + [""] + later)[1..] == chunks[1..] + [""] + later;
    }
  }

  /** `::send` of `size` bytes fails, or accepts a positive part (nothing only of nothing). */
  predicate KernelMayReturn(n: int, size: nat) {
    n == -1 || (if size == 0 then n == 0 else 0 < n <= size)
  }

  lemma SliceOfPrefix(b: string, t: string, i: nat, j: nat)
    requires b <= t && i <= j <= |b|
    ensures b[i..j] == t[i..j]
  {
    assert b == t[..|b|];
  }

  /** The offsets `i` and `j` between which `nextWord` found its word, read back as that word. */
  lemma WordAt(t: string, from: string, i: nat, j: nat)
    requires i <= |t| && from == t[i..] && j == i + Span(from, WordText)
    ensures t[i..j] == from[..Span(from, WordText)]
    ensures t[j..] == from[Span(from, WordText)..]
  {
  }

  /** The scanning offsets of `nextLine`, read back as a line. */
  lemma LineAt(t: string, from: string, i: nat, j: nat) returns (after: string)
    requires i <= |t| && from == t[i..] && j == i + Span(from, LineText)
    ensures j <= |t| && DropCR(t[i..j]) == Line(from)
    ensures after == AfterLine(from)
    ensures if j < |t| then t[j + 1..] == after else after == ""
  {
    assert t[i..j] == from[..j - i];
    after := AfterLine(from);
    if j < |t| {
      assert t[j + 1..] == from[j - i + 1..];
    }
  }

  class Connection {
    const open: bool           // m_socket != -1
    var inbound: seq<string>   // results of the recv calls to come
    var wire: string           // bytes accepted by the kernel
    ghost var calls: nat       // calls of ::send so far
    ghost var failures: nat    // and how many of them returned -1

    constructor (open: bool, chunks: seq<string>)
      ensures this.open == open && inbound == chunks && wire == ""
      ensures calls == failures == 0
    {
      this.open, inbound, wire := open, chunks, "";
      calls, failures := 0, 0;
    }

    /** The text that a reader of this socket can still see. */
    ghost function Incoming(): string
      reads this`inbound
    {
      if open then Deliverable(inbound) else ""
    }

    /** `::send`: a failure, or a positive part of the data (nothing only of nothing). */
    method KernelSend(data: string) returns (n: int)
      modifies this`wire, this`calls, this`failures
      ensures n == -1 || 0 <= n <= |data|
      ensures n == 0 ==> data == ""
      ensures wire == old(wire) + data[..if n == -1 then 0 else n]
      ensures calls == old(calls) + 1
      ensures failures == old(failures) + if n == -1 then 1 else 0
    {
      assert KernelMayReturn(-1, |data|);
      var outcome :| KernelMayReturn(outcome, |data|);
      n := outcome;
      assert KernelMayReturn(n, |data|);
      calls := calls + 1;
      if n == -1 {
        failures := failures + 1;
        assert data[..0] == "";
      } else {
        wire := wire + data[..n];
      }
    }

    /** `TCPSocket::send`.  The wire always gains a prefix of the message, the whole of it
        exactly when the call returns true; a full send gives up only on a kernel error.  Only
        on an empty message can a true result hide one: that is always "sent". */
    method Send(msg: string, fullMsg: bool) returns (ok: bool, ghost sent: nat)
      requires |msg| < TWO_TO_THE_32
      modifies this`wire, this`calls, this`failures
      ensures sent <= |msg| && wire == old(wire) + msg[..sent]
      ensures ok <==> open && sent == |msg|
      ensures !open ==> sent == 0 && calls == old(calls) && failures == old(failures)
      ensures ok && msg != "" ==> failures == old(failures)
      ensures open && msg == "" ==> ok
      ensures open && fullMsg && !ok ==> failures == old(failures) + 1
      ensures open && !fullMsg ==> calls == old(calls) + 1
      ensures open && !fullMsg && failures == old(failures) && msg != "" ==> sent > 0
    {
      if !open {
        assert msg[..0] == "";
        return false, 0;
      }
      var count: uint32 := 0;
      var more := true;
      while more
        invariant count <= |msg| && wire == old(wire) + msg[..count]
        invariant more || count == |msg| != 0 ==> failures == old(failures)
        invariant more && count == |msg| ==> msg == ""
        invariant !more && fullMsg && count < |msg| ==> failures == old(failures) + 1
        invariant !fullMsg ==> calls == old(calls) + if more then 0 else 1
        invariant !more && failures == old(failures) && msg != "" ==> count > 0
        decreases |msg| - count, more
      {
        var n := KernelSend(msg[count..]);
        if n == -1 {
          break;
        }
        assert msg[..count] + msg[count..][..n] == msg[..count + n];
        count := count + n;
        more := count < |msg| && fullMsg;
      }
      ok, sent := count == |msg|, count;
    }

    /** `TCPSocket::recv`: the next chunk, empty on a closed socket, a failure, a timeout or
        an orderly shutdown. */
    method Recv() returns (chunk: string)
      modifies this`inbound
      ensures old(Incoming()) == chunk + (if chunk == "" then "" else Incoming())
      ensures |inbound| <= |old(inbound)|
      ensures open && old(inbound) != [] ==> chunk == old(inbound)[0] && inbound == old(inbound)[1..]
    {
      if !open || inbound == [] {
        return "";
      }
      chunk, inbound := inbound[0], inbound[1..];
    }
  }

  class SocketStream {
    const socket: Connection
    var buffer: string
    var pos: uint32
    var timedOut: bool

    /** The whole text: what has been read, then what the socket will still deliver. */
    ghost function Full(): (t: string)
      reads this`buffer, this`timedOut, socket`inbound
      ensures buffer <= t
    {
      if timedOut then buffer else buffer + socket.Incoming()
    }

    /** The cursor may pass the buffer, but only when the stream has ended. */
    ghost predicate Valid()
      reads this`buffer, this`pos, this`timedOut, socket`inbound
    {
      && Receivable(Full())
      && (pos > |buffer| ==> timedOut)
    }

    /** The text from the cursor on. */
    ghost function Rest(): string
      reads this`buffer, this`pos, this`timedOut, socket`inbound
      requires Valid()
    {
      if pos <= |Full()| then Full()[pos..] else ""
    }

    constructor (socket: Connection)
      requires Receivable(socket.Incoming())
      ensures this.socket == socket && Valid()
      ensures pos == 0 && Full() == Rest() == socket.Incoming()
    {
      this.socket := socket;
      buffer, pos, timedOut := "", 0, false;
    }

    method Grab()
      requires !timedOut
      modifies this`buffer, this`timedOut, socket`inbound
      ensures old(buffer) <= buffer && Full() == old(Full())
      ensures |buffer| > |old(buffer)| || timedOut
    {
      var next := socket.Recv();
      buffer := buffer + next;
      timedOut := timedOut || next == "";
    }

    /** After this, offset `p` is inside the buffer, or the stream has ended at or before it. */
    method GrabIfNeeded(p: uint32)
      requires Valid()
      requires p <= |buffer| || timedOut
      modifies this`buffer, this`timedOut, socket`inbound
      ensures Valid() && Full() == old(Full()) && old(buffer) <= buffer
      ensures p < |buffer| || (timedOut && buffer == Full())
    {
      if p == |buffer| && !timedOut {
        Grab();
      }
    }

    /** The loop that steps an offset through the buffer, reading on at its end, while a test
        holds of the character there; `hasNext`, `nextWord` and `nextLine` run it with different
        tests. */
    method Scan(from: uint32, k: CharClass) returns (p: uint32)
      requires Valid() && (from <= |buffer| || timedOut)
      modifies this`buffer, this`timedOut, socket`inbound
      ensures Valid() && Full() == old(Full()) && old(buffer) <= buffer
      ensures p < |buffer| || (timedOut && buffer == Full())
      ensures from <= |Full()| ==> p <= |buffer| && p == from + Span(Full()[from..], k)
      ensures from > |Full()| ==> p == from
    {
      ghost var full := Full();
      p := from;
      GrabIfNeeded(p);
      while p < |buffer| && InClass(buffer[p], k)
        invariant Valid() && Full() == full && old(buffer) <= buffer
        invariant from <= p && (p <= |buffer| || p == from)
        invariant p < |buffer| || (timedOut && buffer == full)
        invariant from <= |full| ==> p <= |full| && p - from + Span(full[p..], k) == Span(full[from..], k)
        decreases |full| - p
      {
        SpanStep(full, p, k);
        p := p + 1;
        GrabIfNeeded(p);
      }
    }

    /** `hasNext` looks ahead without moving the cursor. */
    method HasNext() returns (b: bool)
      requires Valid()
      modifies this`buffer, this`timedOut, socket`inbound
      ensures Valid() && Full() == old(Full())
      ensures b == Text.HasNext(Rest())
    {
      var p := Scan(pos, Space);
      b := p < |buffer|;
    }

    /** The loop that skips white space, idle past the end. */
    method SkipWhitespace()
      requires Valid()
      modifies this`buffer, this`timedOut, this`pos, socket`inbound
      ensures Valid() && Full() == old(Full()) && Rest() == SkipSpace(old(Rest()))
      ensures old(pos) <= |Full()| ==> old(pos) <= pos <= |Full()|
      ensures old(pos) > |Full()| ==> pos == old(pos)
    {
      pos := Scan(pos, Space);
    }

    /** The part of `nextWord` after white space has been skipped. */
    method TakeWord() returns (word: Option<string>)
      requires Valid()
      modifies this`buffer, this`timedOut, this`pos, socket`inbound
      ensures Valid() && Full() == old(Full())
      ensures old(pos) <= |Full()| ==>
                && word == Some(old(Rest())[..Span(old(Rest()), WordText)])
                && Rest() == old(Rest())[Span(old(Rest()), WordText)..]
                && old(pos) <= pos <= |Full()|
      ensures old(pos) > |Full()| ==> word == None && pos == old(pos)
    {
      ghost var full, rest := Full(), Rest();
      var start := pos;
      pos := Scan(pos, WordText);
      if start > |buffer| {
        return None;
      }
      SliceOfPrefix(buffer, full, start, pos);
      WordAt(full, rest, start, pos);
      word := Some(buffer[start..pos]);
    }

    /** `nextWord`, or `None` where `substr` throws: exactly when the cursor is past the end. */
    method NextWord() returns (word: Option<string>)
      requires Valid()
      modifies this`buffer, this`timedOut, this`pos, socket`inbound
      ensures Valid() && Full() == old(Full())
      ensures old(pos) <= |Full()| ==>
                && word == Some(Word(old(Rest()))) && Rest() == AfterWord(old(Rest()))
                && old(pos) <= pos <= |Full()|
      ensures old(pos) > |Full()| ==> word == None && pos == old(pos)
    {
      SkipWhitespace();
      word := TakeWord();
    }

    /** The part of `nextLine` after white space has been skipped.  The cursor is incremented as
        an argument of `substr`, so before that throws. */
    method TakeLine() returns (line: Option<string>)
      requires Valid()
      modifies this`buffer, this`timedOut, this`pos, socket`inbound
      ensures Valid() && Full() == old(Full())
      ensures old(pos) <= |Full()| ==>
                && line == Some(Line(old(Rest()))) && Rest() == AfterLine(old(Rest()))
                && pos == LineEnd(Full(), old(Rest())) + 1
      ensures old(pos) > |Full()| ==> line == None && pos == Increment32(old(pos))
    {
      ghost var full, rest := Full(), Rest();
      var start := pos;
      pos := Scan(pos, LineText);
      var end := pos;
      pos := Increment32(pos);
      if start > |buffer| {
        return None;
      }
      SliceOfPrefix(buffer, full, start, end);
      ghost var after := LineAt(full, rest, start, end);
      var text := buffer[start..end];
      if text != "" && text[|text| - 1] == '\r' {
        text := text[..|text| - 1];
      }
      line := Some(text);
    }

    /** `nextLine`, or `None` where `substr` throws.  Reading the last, unterminated line moves
        the cursor one past the end; a call that throws has moved it one further. */
    method NextLine(skipWhitespace: bool) returns (line: Option<string>)
      requires Valid()
      modifies this`buffer, this`timedOut, this`pos, socket`inbound
      ensures Valid() && Full() == old(Full())
      ensures old(pos) <= |Full()| ==>
                && line == Some(Line(LineStart(old(Rest()), skipWhitespace)))
                && Rest() == AfterLine(LineStart(old(Rest()), skipWhitespace))
                && pos == LineEnd(Full(), LineStart(old(Rest()), skipWhitespace)) + 1
      ensures old(pos) > |Full()| ==> line == None && pos == Increment32(old(pos))
    {
      GrabIfNeeded(pos);
      if skipWhitespace {
        SkipWhitespace();
      }
      line := TakeLine();
    }

    /** `remaining` reads everything up to the end of the stream; `None` where `substr` throws. */
    method Remaining() returns (text: Option<string>)
      requires Valid()
      modifies this`buffer, this`timedOut, this`pos, socket`inbound
      ensures Valid() && Full() == old(Full())
      ensures old(pos) <= |Full()| ==> text == Some(old(Rest())) && pos == |Full()|
      ensures old(pos) > |Full()| ==> text == None && pos == old(pos)
    {
      ghost var full := Full();
      GrabIfNeeded(pos);
      var start := pos;
      while pos < |buffer|
        invariant Valid() && Full() == full && start <= pos && (start <= |full| ==> pos <= |buffer|)
        invariant start > |full| ==> pos == start
        invariant pos < |buffer| || (timedOut && buffer == full)
        decreases |full| - pos
      {
        pos := |buffer|;
        GrabIfNeeded(pos);
      }
      text := if start > |buffer| then None else Some(buffer[start..]);
    }

    /** `passedBuffer`: everything before the cursor. */
    method PassedBuffer() returns (text: string)
      requires Valid()
      ensures text == Passed(Full(), pos)
    {
      text := if pos <= |buffer| then buffer[..pos] else buffer;
      if pos <= |buffer| {
        assert buffer[..pos] == Full()[..pos];
      }
    }
  }
}

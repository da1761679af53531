/** The multi-line log format, and the registry of log sinks. */
module Logger {
  import opened Text
  import opened Wrappers

  datatype LogLevel = CRITICAL | ERROR | WARN | INFO | DEBUG | TRACE

  function Rank(l: LogLevel): nat {
    match l
    case CRITICAL => 0
    case ERROR => 1
    case WARN => 2
    case INFO => 3
    case DEBUG => 4
    case TRACE => 5
  }

  /** From the least to the most verbose level. */
  lemma Verbosity()
    ensures Rank(CRITICAL) < Rank(ERROR) < Rank(WARN) < Rank(INFO) < Rank(DEBUG) < Rank(TRACE)
  {
  }

  // ---------------------------------------------------------------- the format

  const LEVEL_FMT_WIDTH: nat := 8
  const TIME_FMT_WIDTH: nat := 25

  /** What a continuation line starts with. */
  function Margin(): (m: string)
    ensures |m| == 39
  {
    seq(TIME_FMT_WIDTH + LEVEL_FMT_WIDTH + 3, _ => ' ') + "-> "
  }

  /** It is 36 blanks and an arrow. */
  lemma MarginIs(i: nat)
    requires i < 39
    ensures Margin()[i] == if i < 36 then ' ' else if i == 36 then '-' else if i == 37 then '>' else ' '
  {
  }

  /** A message with the margin put after each of its newlines. */
  function Indent(m: string): string {
    if m == "" then ""
    else if m[0] == '\n' then ['\n'] + Margin() + Indent(m[1..])
    else [m[0]] + Indent(m[1..])
  }

  /** Takes away the 39 characters after each newline. */
  function Unindent(s: string): string {
    if s == "" then ""
    else if s[0] == '\n' then ['\n'] + (if |s| <= 40 then "" else Unindent(s[40..]))
    else [s[0]] + Unindent(s[1..])
  }

  /** Without its trailing newlines. */
  function Stripped(m: string): string {
    if m != "" && m[|m| - 1] == '\n' then Stripped(m[..|m| - 1]) else m
  }

  ghost predicate HasText(m: string) {
    exists i :: 0 <= i < |m| && m[i] != '\n'
  }

  /** The margin can be taken away again, whatever the message. */
  lemma {:induction false} UnindentIndent(m: string)
    ensures Unindent(Indent(m)) == m
  {
    if m != "" {
      var rest := Indent(m[1..]);
      UnindentIndent(m[1..]);
      if m[0] == '\n' {
        var s := ['\n'] + Margin() + rest;
        assert s[40..] == rest;
        assert m == ['\n'] + m[1..];
      } else {
        assert ([m[0]] + rest)[1..] == rest;
      }
    }
  }

  lemma {:induction false} StrippedIs(m: string)
    ensures Stripped(m) <= m
    ensures forall i :: |Stripped(m)| <= i < |m| ==> m[i] == '\n'
    ensures Stripped(m) != "" ==> Stripped(m)[|Stripped(m)| - 1] != '\n'
    ensures HasText(m) <==> Stripped(m) != ""
  {
    if m != "" && m[|m| - 1] == '\n' {
      var k := |m| - 1;
      StrippedIs(m[..k]);
      assert HasText(m) ==> HasText(m[..k]) by {
        if HasText(m) {
          var i :| 0 <= i < |m| && m[i] != '\n';
          assert m[..k][i] == m[i];
        }
      }
    }
  }

  /** What is emitted for a message gives it back exactly when it does not end in a newline;
      otherwise its trailing newlines, and nothing else, are gone. */
  lemma {:induction false} FormatLossless(m: string)
    ensures Unindent(Indent(Stripped(m))) == Stripped(m)
    ensures Unindent(Indent(Stripped(m))) == m <==> m == "" || m[|m| - 1] != '\n'
  {
    UnindentIndent(Stripped(m));
    StrippedIs(m);
  }

  lemma {:induction false} IndentLine(line: string, rest: string)
    requires AllIn(line, LineText)
    ensures Indent(line) == line
    ensures Indent(line + ['\n'] + rest) == line + ['\n'] + Margin() + Indent(rest)
  {
    if line == "" {
      assert line + ['\n'] + rest == ['\n'] + rest;
      assert (['\n'] + rest)[1..] == rest;
    } else {
      var tail := line[1..];
      IndentLine(tail, rest);
      assert (line + ['\n'] + rest)[1..] == tail + ['\n'] + rest;
      assert [line[0]] + tail == line;
      assert [line[0]] + (tail + ['\n'] + Margin() + Indent(rest)) == line + ['\n'] + Margin() + Indent(rest);
    }
  }

  /** Trailing newlines are dropped one by one; looking at the last character needs one to look at. */
  method Strip(msg: string) returns (m: string)
    requires HasText(msg)
    ensures m == Stripped(msg) && m != ""
  {
    m := msg;
    StrippedIs(msg);
    while m[|m| - 1] == '\n'
      invariant m != "" && Stripped(m) == Stripped(msg)
      decreases |m|
    {
      m := m[..|m| - 1];
      StrippedIs(m);
    }
  }

  /** The part of the text from `start` on when the lines before it have been written. */
  function Pending(m: string, start: nat): string {
    if start == 0 then Indent(m)
    else if start < |m| then Margin() + Indent(m[start..])
    else ""
  }

  lemma LineEnds(m: string, start: nat, end: nat)
    requires m != "" && m[|m| - 1] != '\n' && start < |m|
    requires end == start + Span(m[start..], LineText)
    ensures start <= end <= |m| && AllIn(m[start..end], LineText)
    ensures end < |m| ==> m[end] == '\n' && end + 1 < |m|
  {
    SpanIs(m[start..], LineText);
    assert m[start..end] == m[start..][..end - start];
    assert end < |m| ==> m[start..][end - start] == m[end];
  }

  lemma PendingLine(m: string, start: nat, end: nat)
    requires m != "" && m[|m| - 1] != '\n' && start < |m|
    requires end == start + Span(m[start..], LineText)
    ensures start <= end <= |m|
    ensures Indent(m[start..]) == m[start..if end < |m| then end + 1 else |m|] + Pending(m, end + 1)
  {
    LineEnds(m, start, end);
    var line := m[start..end];
    if end < |m| {
      var rest := m[end + 1..];
      assert m[start..] == line + ['\n'] + rest;
      assert m[start..end + 1] == line + ['\n'];
      IndentLine(line, rest);
    } else {
      assert m[start..] == line;
      IndentLine(line, "");
    }
  }

  lemma {:induction false} FormatStep(m: string, start: nat, end: nat, out: string)
    requires m != "" && m[|m| - 1] != '\n' && start < |m|
    requires end == start + Span(m[start..], LineText)
    requires out + Pending(m, start) == Indent(m)
    ensures end <= |m|
    ensures var segment := m[start..if end < |m| then end + 1 else |m|];
            out + (if start > 0 then Margin() else "") + segment + Pending(m, end + 1) == Indent(m)
  {
    PendingLine(m, start, end);
    assert m[0..] == m;
    var margin := if start > 0 then Margin() else "";
    var segment := m[start..if end < |m| then end + 1 else |m|];
    var rest := Pending(m, end + 1);
    assert start == 0 ==> margin + (segment + rest) == segment + rest;
    assert Pending(m, start) == margin + (segment + rest);
    Assoc(out, margin, segment + rest);
    Assoc(out + margin, segment, rest);
  }

  /** The loop of `Worker::log` that writes the message line by line. */
  method Format(msg: string) returns (out: string)
    requires HasText(msg)
    ensures out == Indent(Stripped(msg))
  {
    var m := Strip(msg);
    StrippedIs(msg);
    out := "";
    var start := 0;
    while start < |m|
      invariant start <= |m| + 1 && out + Pending(m, start) == Indent(m)
    {
      var end := start + Span(m[start..], LineText);
      FormatStep(m, start, end, out);
      if start > 0 {
        out := out + Margin();
      } else {
        assert out + "" == out;
      }
      out := out + m[start..if end < |m| then end + 1 else |m|];
      start := end + 1;
    }
  }

  // ---------------------------------------------------------------- the sinks

  /** What a sink receives, leaving out times and colours. */
  datatype Entry = Opened(level: LogLevel) | Changed(was: LogLevel, now: LogLevel)
                 | Logged(level: LogLevel, text: string)

  datatype Op = Add(path: string, level: LogLevel) | SetLevel(path: string, level: LogLevel) | Remove(path: string)
              | Log(level: LogLevel, msg: string)

  /** How an operation changes the level at which a path is registered. */
  function LevelBy(op: Op, path: string, before: Option<LogLevel>): Option<LogLevel> {
    match op
    case Add(p, l) => if p == path && before == None then Some(l) else before
    case SetLevel(p, l) => if p == path && before.Some? then Some(l) else before
    case Remove(p) => if p == path then None else before
    case Log(_, _) => before
  }

  /** The level after some operations, if the path is registered then. */
  function LevelAfter(h: seq<Op>, path: string): Option<LogLevel> {
    if h == [] then None else LevelBy(h[|h| - 1], path, LevelAfter(h[..|h| - 1], path))
  }

  /** What one operation adds to a sink that is registered at `level`.  An `Add` opens the sink
      and greets it even if the path is already registered, as the worker is constructed before
      the registry is asked. */
  function Added(op: Op, path: string, level: Option<LogLevel>): seq<Entry> {
    match op
    case Add(p, l) => if p == path then [Opened(l)] else []
    case SetLevel(p, l) => if p == path && level.Some? then [Changed(level.value, l)] else []
    case Remove(_) => []
    case Log(l, msg) => TakenAt(l, Indent(Stripped(msg)), level)
  }

  /** A worker takes the messages up to its own level. */
  function Taken(level: LogLevel, text: string, own: LogLevel): seq<Entry> {
    if Rank(level) <= Rank(own) then [Logged(level, text)] else []
  }

  function TakenAt(level: LogLevel, text: string, own: Option<LogLevel>): seq<Entry> {
    if own.Some? then Taken(level, text, own.value) else []
  }

  /** The history of a sink: what each operation adds, at the level of its time. */
  function Received(h: seq<Op>, path: string): seq<Entry> {
    if h == [] then []
    else
      var k := |h| - 1;
      Received(h[..k], path) + Added(h[k], path, LevelAfter(h[..k], path))
  }

  lemma HistoryStep(h: seq<Op>, op: Op, path: string)
    ensures LevelAfter(h + [op], path) == LevelBy(op, path, LevelAfter(h, path))
    ensures Received(h + [op], path) == Received(h, path) + Added(op, path, LevelAfter(h, path))
  {
    assert (h + [op])[..|h|] == h;
  }

  function LevelOf(levels: map<string, LogLevel>, p: string): Option<LogLevel> {
    if p in levels then Some(levels[p]) else None
  }

  function SinkOf(sinks: map<string, seq<Entry>>, p: string): seq<Entry> {
    if p in sinks then sinks[p] else []
  }

  class Workers {
    var levels: map<string, LogLevel>       // the registered workers and their m_level
    var sinks: map<string, seq<Entry>>      // what has been written to each file or the console
    ghost var history: seq<Op>

    constructor ()
      ensures Valid() && history == []
    {
      levels, sinks, history := map[], map[], [];
    }

    /** Registry and sinks are what the history of operations makes them. */
    ghost predicate Valid()
      reads this
    {
      && (forall p :: LevelOf(levels, p) == LevelAfter(history, p))
      && (forall p :: SinkOf(sinks, p) == Received(history, p))
    }

    /** Once the fields show the effect of `op`, it becomes part of the history. */
    ghost method Record(op: Op, h: seq<Op>)
      requires history == h
      requires forall p :: LevelOf(levels, p) == LevelBy(op, p, LevelAfter(h, p))
      requires forall p :: SinkOf(sinks, p) == Received(h, p) + Added(op, p, LevelAfter(h, p))
      modifies this`history
      ensures Valid() && history == h + [op]
    {
      history := h + [op];
      forall p {
        HistoryStep(h, op, p);
      }
    }

    method Write(path: string, entry: Entry)
      modifies this`sinks
      ensures forall p :: SinkOf(sinks, p) == SinkOf(old(sinks), p) + if p == path then [entry] else []
    {
      sinks := sinks[path := SinkOf(sinks, path) + [entry]];
    }

    method AddWorker(path: string, level: LogLevel)
      requires Valid()
      modifies this
      ensures Valid() && history == old(history) + [Add(path, level)]
      ensures levels == if path in old(levels) then old(levels) else old(levels)[path := level]
      ensures forall p :: SinkOf(sinks, p) == SinkOf(old(sinks), p) + if p == path then [Opened(level)] else []
    {
      Write(path, Opened(level));
      if path !in levels {
        levels := levels[path := level];
      }
      Record(Add(path, level), history);
    }

    /** `Worker::setLevel` of the worker registered for `path`. */
    method Relevel(path: string, level: LogLevel)
      requires path in levels
      modifies this`levels, this`sinks
      ensures levels == old(levels)[path := level]
      ensures forall p :: SinkOf(sinks, p)
                == SinkOf(old(sinks), p) + if p == path then [Changed(old(levels[path]), level)] else []
    {
      Write(path, Changed(levels[path], level));
      levels := levels[path := level];
    }

    /** `Workers::setLevel`; `workers().at(path)` throws on a path that is not registered. */
    method ChangeLevel(path: string, level: LogLevel) returns (found: bool)
      requires Valid()
      modifies this
      ensures Valid() && history == old(history) + [SetLevel(path, level)]
      ensures found <==> LevelAfter(old(history), path).Some?
      ensures found <==> path in old(levels)
      ensures !found ==> levels == old(levels) && sinks == old(sinks)
      ensures found ==>
                && levels == old(levels)[path := level]
                && forall p :: SinkOf(sinks, p)
                     == SinkOf(old(sinks), p) + if p == path then [Changed(old(levels[path]), level)] else []
    {
      found := path in levels;
      assert LevelOf(levels, path) == LevelAfter(history, path);
      if found {
        Relevel(path, level);
      }
      Record(SetLevel(path, level), history);
    }

    method RemoveWorker(path: string)
      requires Valid()
      modifies this
      ensures Valid() && history == old(history) + [Remove(path)]
      ensures levels == old(levels) - {path} && sinks == old(sinks)
    {
      levels := levels - {path};
      Record(Remove(path), history);
    }

    /** `Worker::log` of the worker registered for `path`; `text` is the message formatted. */
    method WorkerLog(path: string, level: LogLevel, msg: string, ghost text: string)
      requires path in levels && HasText(msg) && text == Indent(Stripped(msg))
      modifies this`sinks
      ensures SinkOf(sinks, path) == SinkOf(old(sinks), path) + Taken(level, text, levels[path])
      ensures forall p :: p != path ==> SinkOf(sinks, p) == SinkOf(old(sinks), p)
    {
      if Rank(level) > Rank(levels[path]) {
        return;
      }
      var formatted := Format(msg);
      sinks := sinks[path := SinkOf(sinks, path) + [Logged(level, formatted)]];
    }

    /** The loop of `Workers::log`, over the registered workers in any order. */
    method LogEach(level: LogLevel, msg: string, ghost text: string)
      requires HasText(msg) && text == Indent(Stripped(msg))
      modifies this`sinks
      ensures forall p :: SinkOf(sinks, p) == SinkOf(old(sinks), p) + TakenAt(level, text, LevelOf(levels, p))
    {
      var left := levels.Keys;
      while left != {}
        invariant left <= levels.Keys
        invariant forall p :: p in left || p !in levels ==> SinkOf(sinks, p) == SinkOf(old(sinks), p)
        invariant forall p :: p in levels && p !in left ==>
                    SinkOf(sinks, p) == SinkOf(old(sinks), p) + Taken(level, text, levels[p])
        decreases left
      {
        var path :| path in left;
        WorkerLog(path, level, msg, text);
        left := left - {path};
      }
      forall p
        ensures SinkOf(sinks, p) == SinkOf(old(sinks), p) + TakenAt(level, text, LevelOf(levels, p))
      {
        if p !in levels {
          assert SinkOf(sinks, p) + [] == SinkOf(sinks, p);
        }
      }
    }

    /** `Workers::log` */
    method LogAll(level: LogLevel, msg: string)
      requires Valid() && HasText(msg)
      modifies this
      ensures Valid() && history == old(history) + [Log(level, msg)]
      ensures levels == old(levels)
      ensures forall p :: SinkOf(sinks, p)
                == SinkOf(old(sinks), p) + TakenAt(level, Indent(Stripped(msg)), LevelOf(levels, p))
    {
      ghost var text := Indent(Stripped(msg));
      LogEach(level, msg, text);
      Record(Log(level, msg), history);
    }
  }

  // ---------------------------------------------------------------- histories

  /** The operations that can matter to a path: those on it, and the messages. */
  predicate Concerns(op: Op, path: string) {
    op.Log? || op.path == path
  }

  function Concerning(h: seq<Op>, path: string): seq<Op> {
    if h == [] then []
    else
      var k := |h| - 1;
      Concerning(h[..k], path) + if Concerns(h[k], path) then [h[k]] else []
  }

  /** What happens to other paths is invisible: a sink depends only on the operations on its own
      path and on the messages. */
  lemma {:induction false} SinksAreIndependent(h: seq<Op>, path: string)
    ensures Received(h, path) == Received(Concerning(h, path), path)
    ensures LevelAfter(h, path) == LevelAfter(Concerning(h, path), path)
  {
    if h != [] {
      var k := |h| - 1;
      var before := Concerning(h[..k], path);
      SinksAreIndependent(h[..k], path);
      if Concerns(h[k], path) {
        assert (before + [h[k]])[..|before|] == before;
      } else {
        assert Concerning(h, path) == before;
      }
    }
  }

  /** Sinks are append-only: later operations leave what a sink has received in place. */
  lemma {:induction false} SinksGrow(h: seq<Op>, later: seq<Op>, path: string)
    ensures Received(h, path) <= Received(h + later, path)
  {
    if later == [] {
      assert h + [] == h;
    } else {
      var k := |later| - 1;
      assert h + later == (h + later[..k]) + [later[k]];
      HistoryStep(h + later[..k], later[k], path);
      SinksGrow(h, later[..k], path);
    }
  }

  /** Adding a path that is registered already changes neither its level nor any message that
      any sink receives later; it only greets the sink once more. */
  lemma ReAdding(h: seq<Op>, path: string, level: LogLevel, p: string)
    requires LevelAfter(h, path).Some?
    ensures LevelAfter(h + [Add(path, level)], p) == LevelAfter(h, p)
    ensures Received(h + [Add(path, level)], p) == Received(h, p) + if p == path then [Opened(level)] else []
  {
    assert (h + [Add(path, level)])[..|h|] == h;
  }

  // ---------------------------------------------------------------- the level of a path

  ghost predicate AddsAt(h: seq<Op>, path: string, i: int) {
    0 <= i < |h| && h[i].Add? && h[i].path == path
  }

  ghost predicate SetsAt(h: seq<Op>, path: string, i: int) {
    0 <= i < |h| && h[i].SetLevel? && h[i].path == path
  }

  ghost predicate RemovesAt(h: seq<Op>, path: string, i: int) {
    0 <= i < |h| && h[i] == Remove(path)
  }

  /** The `Add` at `a` is the one by which the path is registered: it has not been removed since,
      and was not registered before. */
  ghost predicate RegisteredBy(h: seq<Op>, path: string, a: int) {
    && AddsAt(h, path, a)
    && (forall r :: RemovesAt(h, path, r) ==> r < a)
    && (forall b :: AddsAt(h, path, b) && b < a ==> exists r :: b < r && RemovesAt(h, path, r))
  }

  ghost predicate LastSetAt(h: seq<Op>, path: string, s: int) {
    SetsAt(h, path, s) && forall s' :: SetsAt(h, path, s') ==> s' <= s
  }

  /** The level is that of the last `SetLevel` since `a`, or else of the `Add` at `a`. */
  ghost predicate LevelSince(h: seq<Op>, path: string, a: int, level: LogLevel) {
    && AddsAt(h, path, a)
    && ((exists s :: a < s && LastSetAt(h, path, s) && h[s].level == level)
        || ((forall s :: SetsAt(h, path, s) ==> s < a) && h[a].level == level))
  }

  /** A registered path was registered by some `Add`, and has the level of the last change. */
  lemma {:induction false} LevelHas(h: seq<Op>, path: string) returns (a: int)
    requires LevelAfter(h, path).Some?
    ensures RegisteredBy(h, path, a) && LevelSince(h, path, a, LevelAfter(h, path).value)
  {
    var k := |h| - 1;
    var before := h[..k];
    if LevelAfter(before, path) == None {
      a := k;
      forall b | AddsAt(h, path, b) && b < a ensures exists r :: b < r && RemovesAt(h, path, r) {
        var r := NotRegistered(before, path, b);
        assert RemovesAt(h, path, r);
      }
    } else {
      a := LevelHas(before, path);
      RegisteredStill(h, path, a);
      LevelStill(h, path, a, LevelAfter(before, path).value);
    }
  }

  /** Every `Add` of a path that is not registered has a later `Remove`. */
  lemma {:induction false} NotRegistered(h: seq<Op>, path: string, b: int) returns (r: int)
    requires LevelAfter(h, path) == None && AddsAt(h, path, b)
    ensures b < r && RemovesAt(h, path, r)
  {
    var k := |h| - 1;
    if h[k] == Remove(path) {
      r := k;
    } else {
      r := NotRegistered(h[..k], path, b);
    }
  }

  lemma RegisteredStill(h: seq<Op>, path: string, a: int)
    requires h != [] && RegisteredBy(h[..|h| - 1], path, a) && h[|h| - 1] != Remove(path)
    ensures RegisteredBy(h, path, a)
  {
    var before := h[..|h| - 1];
    assert forall r :: RemovesAt(before, path, r) <==> RemovesAt(h, path, r);
    assert forall b :: b < a ==> (AddsAt(before, path, b) <==> AddsAt(h, path, b));
  }

  lemma LevelStill(h: seq<Op>, path: string, a: int, was: LogLevel)
    requires h != [] && LevelSince(h[..|h| - 1], path, a, was) && h[|h| - 1] != Remove(path)
    ensures LevelSince(h, path, a, if SetsAt(h, path, |h| - 1) then h[|h| - 1].level else was)
  {
    var k := |h| - 1;
    var before := h[..k];
    assert forall s :: SetsAt(before, path, s) <==> SetsAt(h, path, s) && s < k;
    if SetsAt(h, path, k) {
      assert LastSetAt(h, path, k);
    } else if exists s :: a < s && LastSetAt(before, path, s) && before[s].level == was {
      var s :| a < s && LastSetAt(before, path, s) && before[s].level == was;
      assert LastSetAt(h, path, s);
    }
  }

  ghost predicate Unremoved(h: seq<Op>, path: string, a: int) {
    AddsAt(h, path, a) && forall r :: RemovesAt(h, path, r) ==> r < a
  }

  /** A path is registered exactly if some `Add` of it has no later `Remove`. */
  lemma {:induction false} RegisteredIff(h: seq<Op>, path: string)
    ensures LevelAfter(h, path).Some? <==> exists a :: Unremoved(h, path, a)
  {
    if LevelAfter(h, path).Some? {
      var a := LevelHas(h, path);
      assert Unremoved(h, path, a);
    } else {
      forall a | AddsAt(h, path, a) ensures !Unremoved(h, path, a) {
        var r := NotRegistered(h, path, a);
      }
    }
  }

  lemma LevelUnique(h: seq<Op>, path: string, a: int, l: LogLevel, b: int, m: LogLevel)
    requires RegisteredBy(h, path, a) && LevelSince(h, path, a, l)
    requires RegisteredBy(h, path, b) && LevelSince(h, path, b, m)
    ensures a == b && l == m
  {
  }

  /** The level of a path, told from the history alone: it is the level that it has had since the
      `Add` by which it was registered. */
  lemma {:induction false} LevelIs(h: seq<Op>, path: string, level: LogLevel)
    ensures LevelAfter(h, path) == Some(level)
       <==> exists a :: RegisteredBy(h, path, a) && LevelSince(h, path, a, level)
  {
    if LevelAfter(h, path).Some? {
      var a := LevelHas(h, path);
      forall b | RegisteredBy(h, path, b) && LevelSince(h, path, b, level)
        ensures LevelAfter(h, path) == Some(level)
      {
        LevelUnique(h, path, a, LevelAfter(h, path).value, b, level);
      }
    } else {
      RegisteredIff(h, path);
      forall b | RegisteredBy(h, path, b) ensures Unremoved(h, path, b) {
      }
    }
  }

  /** For one, a path hears the messages of its own level, and made more verbose it hears more. */
  lemma VerboseHears(path: string, level: LogLevel, msg: string)
    ensures Received([Add(path, level), Log(level, msg)], path)
         == [Opened(level), Logged(level, Indent(Stripped(msg)))]
    ensures Received([Add(path, INFO), Log(DEBUG, msg)], path) == [Opened(INFO)]
    ensures Received([Add(path, INFO), SetLevel(path, TRACE), Log(DEBUG, msg)], path)
         == [Opened(INFO), Changed(INFO, TRACE), Logged(DEBUG, Indent(Stripped(msg)))]
  {
    TwoOps(Add(path, level), Log(level, msg), path);
    TwoOps(Add(path, INFO), Log(DEBUG, msg), path);
    TwoOps(Add(path, INFO), SetLevel(path, TRACE), path);
    HistoryStep([Add(path, INFO), SetLevel(path, TRACE)], Log(DEBUG, msg), path);
    assert [Add(path, INFO), SetLevel(path, TRACE)] + [Log(DEBUG, msg)]
        == [Add(path, INFO), SetLevel(path, TRACE), Log(DEBUG, msg)];
  }

  lemma TwoOps(o: Op, p: Op, path: string)
    ensures var level := LevelBy(o, path, None);
            && LevelAfter([o, p], path) == LevelBy(p, path, level)
            && Received([o, p], path) == Added(o, path, None) + Added(p, path, level)
  {
    HistoryStep([], o, path);
    HistoryStep([o], p, path);
    assert [] + [o] == [o] && [o] + [p] == [o, p];
    assert [] + Added(o, path, None) == Added(o, path, None);
  }

  // ---------------------------------------------------------------- the messages of a sink

  /** A worker at this level takes the message. */
  predicate Hears(op: Op, level: Option<LogLevel>) {
    op.Log? && level.Some? && Rank(op.level) <= Rank(level.value)
  }

  /** A message is in a sink exactly if, at its time, the sink was registered at its level or a
      more verbose one: the messages of a sink are that filter of the history, in order. */
  function Heard(h: seq<Op>, path: string): seq<Op> {
    if h == [] then []
    else
      var k := |h| - 1;
      Heard(h[..k], path) + if Hears(h[k], LevelAfter(h[..k], path)) then [h[k]] else []
  }

  function MessagesOf(entries: seq<Entry>): seq<Entry> {
    if entries == [] then []
    else
      var k := |entries| - 1;
      MessagesOf(entries[..k]) + if entries[k].Logged? then [entries[k]] else []
  }

  function AsLogged(ops: seq<Op>): seq<Entry>
    requires forall op <- ops :: op.Log?
  {
    if ops == [] then []
    else
      var k := |ops| - 1;
      AsLogged(ops[..k]) + [EntryOf(ops[k])]
  }

  function EntryOf(op: Op): Entry
    requires op.Log?
  {
    Logged(op.level, Indent(Stripped(op.msg)))
  }

  lemma AddedMessage(op: Op, path: string, level: Option<LogLevel>)
    ensures if Hears(op, level) then Added(op, path, level) == [EntryOf(op)]
            else |Added(op, path, level)| <= 1 && forall e <- Added(op, path, level) :: !e.Logged?
  {
  }

  lemma MessagesOfOne(before: seq<Entry>, added: seq<Entry>)
    requires |added| <= 1
    ensures MessagesOf(before + added) == MessagesOf(before) + if added != [] && added[0].Logged? then added else []
  {
    if added == [] {
      assert before + added == before;
    } else {
      assert (before + added)[..|before|] == before;
    }
  }

  lemma AsLoggedOne(ops: seq<Op>, op: Op)
    requires op.Log? && forall o <- ops :: o.Log?
    ensures forall o <- ops + [op] :: o.Log?
    ensures AsLogged(ops + [op]) == AsLogged(ops) + [EntryOf(op)]
  {
    assert (ops + [op])[..|ops|] == ops;
  }

  lemma {:induction false} MessagesAreHeard(h: seq<Op>, path: string)
    ensures forall op <- Heard(h, path) :: op.Log?
    ensures MessagesOf(Received(h, path)) == AsLogged(Heard(h, path))
  {
    if h != [] {
      var k := |h| - 1;
      var level := LevelAfter(h[..k], path);
      var heard, added := Heard(h[..k], path), Added(h[k], path, level);
      MessagesAreHeard(h[..k], path);
      AddedMessage(h[k], path, level);
      MessagesOfOne(Received(h[..k], path), added);
      if Hears(h[k], level) {
        AsLoggedOne(heard, h[k]);
      } else {
        assert added != [] ==> added[0] in added;
        assert heard + [] == heard;
      }
    }
  }
}

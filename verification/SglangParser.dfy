/**
 The streaming parser for SGLang's accumulated-text format (sglang.rs). Input arrives in
 arbitrary pieces; the specification `Output` looks at the whole text at once, and the
 parser is proved to emit exactly that, however the text was cut.
 */
module SglangParser {
  import opened Wrappers

  /** A decoded `data:` payload: text accumulated so far and the terminal reason, if any. */
  datatype Wire = Wire(text: string, finishReason: Option<string>)

  datatype Chunk = Delta(text: string, finishReason: Option<string>) | Done | ReadError

  /** What polling the byte stream may give; an exhausted stream stays exhausted. */
  datatype Item = Piece(text: string) | NotReady | Failure

  datatype Poll = Pending | Ready(chunk: Option<Chunk>)

  /** The JSON decoder and the white-space test are parameters. */
  datatype Env = Env(decode: string -> Option<Wire>, isSpace: char -> bool)

  // ---------- one line ----------

  datatype LineKind = Skipped | Sentinel | Payload(wire: Wire)

  function TrimEndCr(s: string): string {
    if s != "" && s[|s| - 1] == '\r' then TrimEndCr(s[..|s| - 1]) else s
  }

  function TrimEnd(env: Env, s: string): string {
    if s != "" && env.isSpace(s[|s| - 1]) then TrimEnd(env, s[..|s| - 1]) else s
  }

  function TrimStart(env: Env, s: string): string {
    if s != "" && env.isSpace(s[0]) then TrimStart(env, s[1..]) else s
  }

  function Classify(env: Env, raw: string): LineKind {
    var line := TrimEndCr(raw);
    if !("data: " <= line) then Skipped
    else
      var data := line[6..];
      if TrimStart(env, TrimEnd(env, data)) == "[DONE]" then Sentinel
      else match env.decode(data)
        case Some(wire) => Payload(wire)
        case None => Skipped
  }

  /** The new text of a payload, given how much has been emitted; shorter text counts as a delta already. */
  function NewText(wire: Wire, emitted: nat): string {
    if |wire.text| >= emitted then wire.text[emitted..] else wire.text
  }

  function EmittedAfter(wire: Wire, emitted: nat): nat {
    if |wire.text| >= emitted then |wire.text| else emitted + |wire.text|
  }

  // ---------- the whole text ----------

  function IndexOfNewline(s: string): Option<nat>
    ensures IndexOfNewline(s).Some? ==> IndexOfNewline(s).value < |s|
  {
    if s == "" then None
    else if s[0] == '\n' then Some(0)
    else match IndexOfNewline(s[1..])
      case Some(i) => Some(i + 1)
      case None => None
  }

  /** First line and what follows it; an unterminated last line counts as a line. */
  function SplitLine(text: string): (r: (string, string))
    requires text != ""
    ensures |r.1| < |text|
  {
    match IndexOfNewline(text)
    case Some(i) => (text[..i], text[i + 1..])
    case None => (text, "")
  }

  /** The chunks for a complete text: line by line until a terminal chunk, then Done. */
  function Output(env: Env, text: string, emitted: nat): seq<Chunk>
    decreases |text|
  {
    if text == "" then [Done]
    else
      var (line, rest) := SplitLine(text);
      match Classify(env, line)
      case Skipped => Output(env, rest, emitted)
      case Sentinel => [Done]
      case Payload(wire) =>
        var delta := NewText(wire, emitted);
        if wire.finishReason.Some? then [Delta(delta, wire.finishReason), Done]
        else if delta == "" then Output(env, rest, EmittedAfter(wire, emitted))
        else [Delta(delta, None)] + Output(env, rest, EmittedAfter(wire, emitted))
  }

  lemma {:induction false} IndexOfNewlineAppend(s: string, more: string)
    ensures IndexOfNewline(s).Some? ==> IndexOfNewline(s + more) == IndexOfNewline(s)
  {
    if s != "" && s[0] != '\n' {
      assert (s + more)[1..] == s[1..] + more;
      IndexOfNewlineAppend(s[1..], more);
    }
  }

  lemma {:induction false} IndexOfNewlineLast(s: string)
    requires IndexOfNewline(s).None?
    ensures IndexOfNewline(s + "\n") == Some(|s|)
  {
    if s != "" {
      assert (s + "\n")[1..] == s[1..] + "\n";
      IndexOfNewlineLast(s[1..]);
    }
  }

  /** A first line that is already complete does not change when more text arrives. */
  lemma SplitLineAppend(s: string, more: string)
    requires IndexOfNewline(s).Some?
    ensures s + more != "" && SplitLine(s + more) == (SplitLine(s).0, SplitLine(s).1 + more)
  {
    IndexOfNewlineAppend(s, more);
    var i := IndexOfNewline(s).value;
    assert (s + more)[..i] == s[..i];
    assert (s + more)[i + 1..] == s[i + 1..] + more;
  }

  /** What the first complete line contributes, and what it leaves, whatever follows the text. */
  lemma OutputFirstLine(env: Env, s: string, more: string, emitted: nat)
    requires IndexOfNewline(s).Some?
    ensures var i := IndexOfNewline(s).value;
      var rest := s[i + 1..] + more;
      Output(env, s + more, emitted) ==
      match Classify(env, s[..i])
      case Skipped => Output(env, rest, emitted)
      case Sentinel => [Done]
      case Payload(wire) =>
        var delta := NewText(wire, emitted);
        if wire.finishReason.Some? then [Delta(delta, wire.finishReason), Done]
        else if delta == "" then Output(env, rest, EmittedAfter(wire, emitted))
        else [Delta(delta, None)] + Output(env, rest, EmittedAfter(wire, emitted))
  {
    hide Classify, IndexOfNewline, NewText, EmittedAfter;
    SplitLineAppend(s, more);
  }

  /** Terminating the last line changes nothing. */
  lemma OutputNewlineAtEnd(env: Env, s: string, emitted: nat)
    requires s != "" && IndexOfNewline(s).None?
    ensures Output(env, s + "\n", emitted) == Output(env, s, emitted)
  {
    hide Classify;
    IndexOfNewlineLast(s);
    assert (s + "\n")[..|s|] == s && (s + "\n")[|s| + 1..] == "";
  }

  // ---------- properties of the output ----------

  predicate EndsInOneDone(out: seq<Chunk>) {
    out != [] && out[|out| - 1] == Done && forall i :: 0 <= i < |out| - 1 ==> out[i].Delta?
  }

  lemma DeltaFirst(c: Chunk, out: seq<Chunk>)
    requires c.Delta? && EndsInOneDone(out)
    ensures EndsInOneDone([c] + out)
  {}

  /** Exactly one Done, at the end. */
  lemma {:induction false} OneDoneAtTheEnd(env: Env, text: string, emitted: nat)
    ensures EndsInOneDone(Output(env, text, emitted))
    decreases |text|
  {
    hide Classify, SplitLine, NewText, EmittedAfter, EndsInOneDone;
    OnlyDone();
    if text != "" {
      var (line, rest) := SplitLine(text);
      OneDoneAtTheEnd(env, rest, emitted);
      match Classify(env, line)
      case Payload(wire) =>
        var after := EmittedAfter(wire, emitted);
        OneDoneAtTheEnd(env, rest, after);
        DeltaFirst(Delta(NewText(wire, emitted), None), Output(env, rest, after));
        DeltaFirst(Delta(NewText(wire, emitted), wire.finishReason), [Done]);
        assert [Delta(NewText(wire, emitted), wire.finishReason), Done] ==
               [Delta(NewText(wire, emitted), wire.finishReason)] + [Done];
      case _ =>
    }
  }

  lemma OnlyDone()
    ensures EndsInOneDone([Done])
  {}

  /** The payloads of a text up to and including the terminal one. */
  function Wires(env: Env, text: string): seq<Wire>
    decreases |text|
  {
    if text == "" then []
    else
      var (line, rest) := SplitLine(text);
      match Classify(env, line)
      case Skipped => Wires(env, rest)
      case Sentinel => []
      case Payload(wire) => if wire.finishReason.Some? then [wire] else [wire] + Wires(env, rest)
  }

  function DeltaText(chunks: seq<Chunk>): string {
    if chunks == [] then ""
    else (if chunks[0].Delta? then chunks[0].text else "") + DeltaText(chunks[1..])
  }

  /** Every accumulated text extends the one before, starting from `sofar`. */
  predicate Accumulates(sofar: string, wires: seq<Wire>)
    decreases |wires|
  {
    wires == [] || (sofar <= wires[0].text && Accumulates(wires[0].text, wires[1..]))
  }

  function LastText(sofar: string, wires: seq<Wire>): string {
    if wires == [] then sofar else wires[|wires| - 1].text
  }

  lemma DeltaTextPrepend(c: Chunk, chunks: seq<Chunk>)
    ensures DeltaText([c] + chunks) == (if c.Delta? then c.text else "") + DeltaText(chunks)
  {
    assert ([c] + chunks)[1..] == chunks;
  }

  lemma LastTextPrepend(sofar: string, w: Wire, wires: seq<Wire>)
    ensures LastText(sofar, [w] + wires) == LastText(w.text, wires)
    ensures Accumulates(sofar, [w] + wires) <==> sofar <= w.text && Accumulates(w.text, wires)
  {
    assert ([w] + wires)[1..] == wires;
  }

  /** If the accumulated texts only grow, the deltas together spell the last of them. */
  lemma {:induction false} DeltasSpellLastText(env: Env, text: string, sofar: string)
    requires Accumulates(sofar, Wires(env, text))
    ensures sofar + DeltaText(Output(env, text, |sofar|)) == LastText(sofar, Wires(env, text))
    decreases |text|
  {
    hide Classify;
    if text == "" {
      DeltaTextPrepend(Done, []);
    } else {
      var (line, rest) := SplitLine(text);
      match Classify(env, line)
      case Skipped => DeltasSpellLastText(env, rest, sofar);
      case Sentinel => DeltaTextPrepend(Done, []);
      case Payload(wire) =>
        var later := if wire.finishReason.Some? then [] else Wires(env, rest);
        assert Wires(env, text) == [wire] + later;
        LastTextPrepend(sofar, wire, later);
        if !wire.finishReason.Some? { DeltasSpellLastText(env, rest, wire.text); }
        var after := if wire.finishReason.Some? then [Done] else Output(env, rest, |wire.text|);
        assert Output(env, text, |sofar|) ==
               if wire.finishReason.None? && NewText(wire, |sofar|) == "" then after
               else [Delta(NewText(wire, |sofar|), wire.finishReason)] + after;
        hide Output, Wires, Accumulates;
        PayloadSpells(sofar, wire, later, after);
    }
  }

  lemma PayloadSpells(sofar: string, wire: Wire, later: seq<Wire>, after: seq<Chunk>)
    requires sofar <= wire.text
    requires if wire.finishReason.Some? then later == [] && after == [Done]
             else wire.text + DeltaText(after) == LastText(wire.text, later)
    ensures sofar + DeltaText([Delta(NewText(wire, |sofar|), wire.finishReason)] + after) == LastText(wire.text, later)
    ensures wire.finishReason.None? && NewText(wire, |sofar|) == "" ==>
              (sofar + DeltaText(after) == LastText(wire.text, later))
  {
    DeltaTextPrepend(Delta(NewText(wire, |sofar|), wire.finishReason), after);
    DeltaTextPrepend(Done, []);
    assert sofar + wire.text[|sofar|..] == wire.text;
    assert sofar + (wire.text[|sofar|..] + DeltaText(after)) == wire.text + DeltaText(after);
  }

  // ---------- the parser ----------

  function TextOf(items: seq<Item>): string {
    if items == [] then ""
    else (if items[0].Piece? then items[0].text else "") + TextOf(items[1..])
  }

  class SglangGenerateParser {
    const env: Env
    var inner: seq<Item>
    var buffer: string
    var emittedLen: nat
    var finished: bool
    var doneEmitted: bool

    constructor (env: Env, inner: seq<Item>)
      ensures this.env == env && this.inner == inner
      ensures buffer == "" && emittedLen == 0 && !finished && !doneEmitted
    {
      this.env, this.inner := env, inner;
      buffer, emittedLen, finished, doneEmitted := "", 0, false, false;
    }

    /** What is still to come, if `more` text follows the buffer. */
    ghost function Expected(more: string): seq<Chunk>
      reads this
    {
      if finished then (if doneEmitted then [] else [Done])
      else Output(env, buffer + more, emittedLen)
    }

    /** One chunk from the complete lines of the buffer, or none; the output to come stays what it should be. */
    method TryParse(ghost more: string) returns (chunk: Option<Chunk>)
      requires !finished && !doneEmitted
      modifies this`buffer, this`emittedLen, this`finished, this`doneEmitted
      ensures doneEmitted ==> finished
      ensures chunk.None? ==> !finished && IndexOfNewline(buffer).None?
      ensures chunk != Some(ReadError)
      ensures old(Expected(more)) == (if chunk.Some? then [chunk.value] else []) + Expected(more)
      ensures |buffer| <= |old(buffer)| && buffer == old(buffer)[|old(buffer)| - |buffer|..]
    {
      hide Output, Classify, IndexOfNewline, NewText, EmittedAfter;
      while true
        invariant !finished && !doneEmitted
        invariant |buffer| <= |old(buffer)| && buffer == old(buffer)[|old(buffer)| - |buffer|..]
        invariant Expected(more) == old(Expected(more))
        decreases |buffer|
      {
        var newlinePos := IndexOfNewline(buffer);
        if newlinePos.None? {
          return None;
        }
        OutputFirstLine(env, buffer, more, emittedLen);
        var line := buffer[..newlinePos.value];
        buffer := buffer[newlinePos.value + 1..];
        match Classify(env, line) {
          case Skipped =>
          case Sentinel =>
            finished, doneEmitted := true, true;
            return Some(Done);
          case Payload(wire) =>
            var deltaText := NewText(wire, emittedLen);
            emittedLen := EmittedAfter(wire, emittedLen);
            if wire.finishReason.Some? {
              finished := true;
            }
            if deltaText != "" || wire.finishReason.Some? {
              return Some(Delta(deltaText, wire.finishReason));
            }
        }
      }
    }

    /**
     Poll for the next chunk. The output still to come is never lost or changed: a chunk
     takes one off its front, waiting and read errors take nothing, and the end is
     reported only when nothing is left.
     */
    method PollNext() returns (poll: Poll)
      requires doneEmitted ==> finished
      modifies this
      ensures doneEmitted ==> finished
      ensures |inner| <= |old(inner)|
      ensures poll == Pending || poll == Ready(Some(ReadError)) ==>
                |inner| < |old(inner)| && old(Expected(TextOf(inner))) == Expected(TextOf(inner))
      ensures poll.Ready? && poll.chunk.Some? && poll.chunk.value != ReadError ==>
                (old(Expected(TextOf(inner))) == [poll.chunk.value] + Expected(TextOf(inner)))
      ensures poll == Ready(None) ==> old(Expected(TextOf(inner))) == []
      ensures old(finished) ==> poll == Ready(if old(doneEmitted) then None else Some(Done)) && inner == old(inner)
    {
      if finished {
        if doneEmitted {
          return Ready(None);
        }
        doneEmitted := true;
        return Ready(Some(Done));
      }
      hide Output, Classify, IndexOfNewline, TextOf;
      while true
        invariant !finished && !doneEmitted && |inner| <= |old(inner)|
        invariant Expected(TextOf(inner)) == old(Expected(TextOf(inner)))
        decreases |inner|
      {
        var chunk := TryParse(TextOf(inner));
        if chunk.Some? {
          return Ready(chunk);
        }
        if inner == [] {
          break;
        }
        var item := inner[0];
        TextOfFirst(inner, buffer);
        inner := inner[1..];
        match item {
          case Piece(text) => buffer := buffer + text;
          case Failure => return Ready(Some(ReadError));
          case NotReady => return Pending;
        }
      }
      poll := AtEnd();
    }

    /** End of stream: drain the remaining buffer as a last line, then synthesize Done. */
    method AtEnd() returns (poll: Poll)
      requires inner == [] && !finished && !doneEmitted && IndexOfNewline(buffer).None?
      modifies this`buffer, this`emittedLen, this`finished, this`doneEmitted
      ensures doneEmitted ==> finished
      ensures poll.Ready? && poll.chunk.Some? && poll.chunk.value != ReadError
      ensures old(Expected("")) == [poll.chunk.value] + Expected("")
    {
      hide Output, Classify, IndexOfNewline, SplitLine, NewText, EmittedAfter;
      assert buffer + "" == buffer;
      if buffer != "" {
        OutputNewlineAtEnd(env, buffer, emittedLen);
        buffer := buffer + "\n";
        ghost var terminated := buffer;
        assert terminated + "" == terminated;
        var chunk := TryParse("");
        if chunk.Some? {
          return Ready(chunk);
        }
        NothingAfterNewline(terminated, buffer);
        assert buffer + "" == "";
      }
      OutputEmpty(env, emittedLen);
      assert Expected("") == [Done] == [Done] + [];
      finished, doneEmitted := true, true;
      return Ready(Some(Done));
    }

    /** Drive the parser to its end: the chunks, read errors aside. */
    method Collect() returns (chunks: seq<Chunk>)
      requires doneEmitted ==> finished
      modifies this
      ensures chunks == old(Expected(TextOf(inner)))
    {
      hide *;
      chunks := [];
      assert [] + Expected(TextOf(inner)) == Expected(TextOf(inner));
      while true
        invariant doneEmitted ==> finished
        invariant chunks + Expected(TextOf(inner)) == old(Expected(TextOf(inner)))
        decreases |inner| + |Expected(TextOf(inner))|
      {
        ghost var expected := Expected(TextOf(inner));
        var poll := PollNext();
        if poll == Ready(None) {
          assert chunks + [] == chunks;
          return;
        }
        if poll.Ready? && poll.chunk.value != ReadError {
          ghost var rest := Expected(TextOf(inner));
          assert expected == [poll.chunk.value] + rest;
          assert chunks + ([poll.chunk.value] + rest) == (chunks + [poll.chunk.value]) + rest;
          chunks := chunks + [poll.chunk.value];
        }
      }
    }
  }

  lemma TextOfFirst(items: seq<Item>, buffer: string)
    requires items != []
    ensures buffer + TextOf(items) == (buffer + if items[0].Piece? then items[0].text else "") + TextOf(items[1..])
    ensures !items[0].Piece? ==> TextOf(items) == TextOf(items[1..])
  {}

  lemma NothingAfterNewline(s: string, rest: string)
    requires s != "" && s[|s| - 1] == '\n'
    requires |rest| <= |s| && rest == s[|s| - |rest|..]
    requires IndexOfNewline(rest).None?
    ensures rest == ""
  {
    if rest != "" { NewlineIsFound(rest); }
  }

  lemma {:induction false} NewlineIsFound(s: string)
    requires s != "" && s[|s| - 1] == '\n'
    ensures IndexOfNewline(s).Some?
  {
    if s[0] != '\n' { NewlineIsFound(s[1..]); }
  }

  lemma OutputEmpty(env: Env, emitted: nat)
    ensures Output(env, "", emitted) == [Done]
  {}

  /** Streaming equals batch: two parsers fed the same text in different pieces emit the same chunks. */
  method SameTextSameChunks(env: Env, items: seq<Item>, others: seq<Item>)
    returns (chunks: seq<Chunk>, otherChunks: seq<Chunk>)
    requires TextOf(items) == TextOf(others)
    ensures chunks == otherChunks == Output(env, TextOf(items), 0)
  {
    var p := new SglangGenerateParser(env, items);
    assert p.buffer + TextOf(items) == TextOf(items);
    chunks := p.Collect();
    var q := new SglangGenerateParser(env, others);
    assert q.buffer + TextOf(others) == TextOf(others);
    otherChunks := q.Collect();
  }

  // ---------- literal lines ----------

  predicate AllSpaces(env: Env, s: string) { forall i :: 0 <= i < |s| ==> env.isSpace(s[i]) }

  /** `t` is `s` without the white space around it. */
  ghost predicate IsTrimmed(env: Env, s: string, t: string) {
    && (t == "" || (!env.isSpace(t[0]) && !env.isSpace(t[|t| - 1])))
    && exists left, right :: Surrounds(env, s, left, t, right)
  }

  ghost predicate Surrounds(env: Env, s: string, left: string, t: string, right: string) {
    s == left + t + right && AllSpaces(env, left) && AllSpaces(env, right)
  }

  lemma {:induction false} TrimStartCuts(env: Env, s: string) returns (left: string)
    ensures s == left + TrimStart(env, s) && AllSpaces(env, left)
    ensures TrimStart(env, s) == "" || !env.isSpace(TrimStart(env, s)[0])
  {
    left := "";
    if s != "" && env.isSpace(s[0]) {
      var rest := TrimStartCuts(env, s[1..]);
      left := [s[0]] + rest;
    }
  }

  lemma {:induction false} TrimEndCuts(env: Env, s: string) returns (right: string)
    ensures s == TrimEnd(env, s) + right && AllSpaces(env, right)
    ensures TrimEnd(env, s) == "" || !env.isSpace(TrimEnd(env, s)[|TrimEnd(env, s)| - 1])
  {
    right := "";
    if s != "" && env.isSpace(s[|s| - 1]) {
      var rest := TrimEndCuts(env, s[..|s| - 1]);
      right := rest + [s[|s| - 1]];
    }
  }

  lemma {:induction false} TrimStartOf(env: Env, left: string, t: string)
    requires AllSpaces(env, left) && t != "" && !env.isSpace(t[0])
    ensures TrimStart(env, left + t) == t
  {
    if left == "" {
      assert left + t == t;
    } else {
      assert (left + t)[1..] == left[1..] + t;
      TrimStartOf(env, left[1..], t);
    }
  }

  lemma {:induction false} TrimEndOf(env: Env, t: string, right: string)
    requires AllSpaces(env, right) && t != "" && !env.isSpace(t[|t| - 1])
    ensures TrimEnd(env, t + right) == t
  {
    if right == "" {
      assert t + right == t;
    } else {
      assert (t + right)[..|t + right| - 1] == t + right[..|right| - 1];
      TrimEndOf(env, t, right[..|right| - 1]);
    }
  }

  const DONE_MARK := "[DONE]"

  /** Trimming a payload gives the end marker exactly when it is the marker with white space around it. */
  lemma TrimsToMark(env: Env, s: string)
    requires !env.isSpace('[') && !env.isSpace(']')
    ensures TrimStart(env, TrimEnd(env, s)) == DONE_MARK <==> IsTrimmed(env, s, DONE_MARK)
  {
    var right := TrimEndCuts(env, s);
    var left := TrimStartCuts(env, TrimEnd(env, s));
    if TrimStart(env, TrimEnd(env, s)) == DONE_MARK {
      assert Surrounds(env, s, left, DONE_MARK, right);
    }
    if IsTrimmed(env, s, DONE_MARK) {
      var l, r :| Surrounds(env, s, l, DONE_MARK, r);
      TrimEndOf(env, l + DONE_MARK, r);
      TrimStartOf(env, l, DONE_MARK);
    }
  }

  lemma {:induction false} TrimEndCrOf(line: string, crs: string)
    requires (line == "" || line[|line| - 1] != '\r') && forall i :: 0 <= i < |crs| ==> crs[i] == '\r'
    ensures TrimEndCr(line + crs) == line
  {
    if crs == "" {
      assert line + crs == line;
    } else {
      assert (line + crs)[..|line + crs| - 1] == line + crs[..|crs| - 1];
      TrimEndCrOf(line, crs[..|crs| - 1]);
    }
  }

  lemma {:induction false} FirstNewline(line: string, rest: string)
    requires '\n' !in line
    ensures IndexOfNewline(line + "\n" + rest) == Some(|line|)
  {
    if line != "" {
      assert (line + "\n" + rest)[1..] == line[1..] + "\n" + rest;
      FirstNewline(line[1..], rest);
    }
  }

  /** A line as it may arrive: `line` itself, carriage returns, a newline, and what follows. */
  predicate IsLine(line: string, crs: string) {
    && '\n' !in line && (line == "" || line[|line| - 1] != '\r')
    && forall i :: 0 <= i < |crs| ==> crs[i] == '\r'
  }

  lemma OutputLine(env: Env, line: string, crs: string, rest: string, emitted: nat)
    requires IsLine(line, crs)
    ensures var text := line + crs + "\n" + rest;
      && IndexOfNewline(text) == Some(|line + crs|)
      && text[..|line + crs|] == line + crs && text[|line + crs| + 1..] + "" == rest
      && TrimEndCr(line + crs) == line
  {
    hide IndexOfNewline, TrimEndCr;
    TrimEndCrOf(line, crs);
    FirstNewline(line + crs, rest);
  }

  /** The output of a text by its first line. */
  lemma OutputByFirstLine(env: Env, line: string, crs: string, rest: string, emitted: nat)
    requires IsLine(line, crs)
    ensures Output(env, line + crs + "\n" + rest, emitted) ==
      match Classify(env, line + crs)
      case Skipped => Output(env, rest, emitted)
      case Sentinel => [Done]
      case Payload(wire) =>
        var delta := NewText(wire, emitted);
        if wire.finishReason.Some? then [Delta(delta, wire.finishReason), Done]
        else if delta == "" then Output(env, rest, EmittedAfter(wire, emitted))
        else [Delta(delta, None)] + Output(env, rest, EmittedAfter(wire, emitted))
  {
    hide Classify, IndexOfNewline, NewText, EmittedAfter, Output, TrimEndCr;
    var text := line + crs + "\n" + rest;
    OutputLine(env, line, crs, rest, emitted);
    OutputFirstLine(env, text, "", emitted);
    assert text + "" == text;
  }

  /** How a line is classified, by what it is. */
  lemma ClassifiedData(env: Env, d: string, crs: string)
    requires !env.isSpace('[') && !env.isSpace(']') && IsLine("data: " + d, crs)
    ensures Classify(env, "data: " + d + crs) ==
      if IsTrimmed(env, d, DONE_MARK) then Sentinel
      else match env.decode(d)
        case Some(w) => Payload(w)
        case None => Skipped
  {
    hide TrimStart, TrimEnd, TrimEndCr, IsTrimmed;
    TrimEndCrOf("data: " + d, crs);
    TrimsToMark(env, d);
    assert ("data: " + d)[6..] == d;
  }

  lemma ClassifiedOther(env: Env, line: string, crs: string)
    requires IsLine(line, crs) && !("data: " <= line)
    ensures Classify(env, line + crs) == Skipped
  {
    hide TrimEndCr;
    TrimEndCrOf(line, crs);
  }

  /** A payload line contributes its new text, and goes on counting from there; a terminal one ends the output. */
  lemma PayloadLine(env: Env, d: string, crs: string, rest: string, emitted: nat, w: Wire)
    requires !env.isSpace('[') && !env.isSpace(']')
    requires IsLine("data: " + d, crs) && env.decode(d) == Some(w) && !IsTrimmed(env, d, DONE_MARK)
    ensures Output(env, "data: " + d + crs + "\n" + rest, emitted) ==
      var (text, counted) :=
        if |w.text| >= emitted then (w.text[emitted..], |w.text|) else (w.text, emitted + |w.text|);
      if w.finishReason.Some? then [Delta(text, w.finishReason), Done]
      else (if text == "" then [] else [Delta(text, None)]) + Output(env, rest, counted)
  {
    hide Output, Classify, IsLine, IsTrimmed;
    ClassifiedData(env, d, crs);
    OutputByFirstLine(env, "data: " + d, crs, rest, emitted);
    NothingBefore(Output(env, rest, EmittedAfter(w, emitted)));
  }

  lemma NothingBefore(chunks: seq<Chunk>)
    ensures [] + chunks == chunks
  {}

  /** The end marker ends the output, white space around it or not. */
  lemma MarkLine(env: Env, d: string, crs: string, rest: string, emitted: nat)
    requires !env.isSpace('[') && !env.isSpace(']')
    requires IsLine("data: " + d, crs) && IsTrimmed(env, d, DONE_MARK)
    ensures Output(env, "data: " + d + crs + "\n" + rest, emitted) == [Done]
  {
    hide Output, Classify, IsLine, IsTrimmed;
    ClassifiedData(env, d, crs);
    OutputByFirstLine(env, "data: " + d, crs, rest, emitted);
  }

  /** A line that is no data, or does not decode, contributes nothing. */
  lemma OtherLine(env: Env, line: string, crs: string, rest: string, emitted: nat)
    requires !env.isSpace('[') && !env.isSpace(']')
    requires IsLine(line, crs)
    requires "data: " <= line ==> env.decode(line[6..]) == None && !IsTrimmed(env, line[6..], DONE_MARK)
    ensures Output(env, line + crs + "\n" + rest, emitted) == Output(env, rest, emitted)
  {
    hide Output, Classify, IsLine, IsTrimmed;
    if "data: " <= line {
      assert line == "data: " + line[6..];
      ClassifiedData(env, line[6..], crs);
    } else {
      ClassifiedOther(env, line, crs);
    }
    OutputByFirstLine(env, line, crs, rest, emitted);
  }

  // ---------- round trip ----------

  /** An encoder of payloads that the decoder inverts, one line each, none of them the end marker. */
  ghost predicate Encodes(env: Env, encode: Wire -> string) {
    && !env.isSpace('[') && !env.isSpace(']')
    && forall w :: EncodesOne(env, encode, w)
  }

  ghost predicate EncodesOne(env: Env, encode: Wire -> string, w: Wire) {
    env.decode(encode(w)) == Some(w) && IsLine("data: " + encode(w), "") && !IsTrimmed(env, encode(w), DONE_MARK)
  }

  /** An event stream: a data line and a blank line for each payload, then the end marker. */
  function Stream(encode: Wire -> string, wires: seq<Wire>): string {
    if wires == [] then "data: [DONE]\n\n"
    else "data: " + encode(wires[0]) + "\n" + ("\n" + Stream(encode, wires[1..]))
  }

  /** Payloads of one generation: each text extends the one before, and only the last may be terminal. */
  predicate Generation(sofar: string, wires: seq<Wire>)
    decreases |wires|
  {
    wires == [] ||
    (sofar <= wires[0].text && (wires[0].finishReason.Some? ==> |wires| == 1) && Generation(wires[0].text, wires[1..]))
  }

  lemma MarkItself(env: Env)
    requires !env.isSpace('[') && !env.isSpace(']')
    ensures IsTrimmed(env, DONE_MARK, DONE_MARK)
  {
    assert Surrounds(env, DONE_MARK, "", DONE_MARK, "");
  }

  /** Reading back the stream of a generation spells its last text, from whatever had been emitted before. */
  lemma {:induction false} StreamSpellsLast(env: Env, encode: Wire -> string, sofar: string, wires: seq<Wire>)
    requires Encodes(env, encode) && Generation(sofar, wires)
    ensures sofar + DeltaText(Output(env, Stream(encode, wires), |sofar|)) ==
            if wires == [] then sofar else wires[|wires| - 1].text
    decreases |wires|
  {
    hide Output, Encodes, DeltaText, Stream;
    if wires == [] {
      EmptyStream(env, encode, |sofar|);
      assert sofar + "" == sofar;
    } else {
      var w, rest := wires[0], Stream(encode, wires[1..]);
      FirstOfStream(env, encode, |sofar|, wires);
      StreamSpellsLast(env, encode, w.text, wires[1..]);
      PayloadDelta(sofar, w, Output(env, rest, |w.text|));
    }
  }

  lemma EmptyStream(env: Env, encode: Wire -> string, emitted: nat)
    requires Encodes(env, encode)
    ensures DeltaText(Output(env, Stream(encode, []), emitted)) == ""
  {
    hide Output, IsTrimmed, EncodesOne;
    MarkItself(env);
    MarkLine(env, DONE_MARK, "", "\n", emitted);
    assert "data: " + DONE_MARK + "" + "\n" + "\n" == Stream(encode, []);
  }

  lemma FirstOfStream(env: Env, encode: Wire -> string, emitted: nat, wires: seq<Wire>)
    requires Encodes(env, encode) && wires != [] && |wires[0].text| >= emitted
    ensures var w := wires[0];
      var text := w.text[emitted..];
      Output(env, Stream(encode, wires), emitted) ==
      if w.finishReason.Some? then [Delta(text, w.finishReason), Done]
      else (if text == "" then [] else [Delta(text, None)]) + Output(env, Stream(encode, wires[1..]), |w.text|)
  {
    hide Output, IsTrimmed, IsLine;
    var w, rest := wires[0], Stream(encode, wires[1..]);
    assert EncodesOne(env, encode, w);
    PayloadLine(env, encode(w), "", "\n" + rest, emitted, w);
    BlankLine(env, rest, |w.text|);
    assert "data: " + encode(w) + "" + "\n" + ("\n" + rest) == Stream(encode, wires);
  }

  lemma BlankLine(env: Env, rest: string, emitted: nat)
    requires !env.isSpace('[') && !env.isSpace(']')
    ensures Output(env, "\n" + rest, emitted) == Output(env, rest, emitted)
  {
    hide Output, IsTrimmed;
    OtherLine(env, "", "", rest, emitted);
    assert "" + "" + "\n" + rest == "\n" + rest;
  }

  lemma PayloadDelta(sofar: string, w: Wire, after: seq<Chunk>)
    requires sofar <= w.text
    ensures var text := w.text[|sofar|..];
      && sofar + DeltaText([Delta(text, w.finishReason), Done]) == w.text
      && sofar + DeltaText((if text == "" then [] else [Delta(text, None)]) + after) == w.text + DeltaText(after)
  {
    var text := w.text[|sofar|..];
    assert sofar + text == w.text;
    DeltaTextPrepend(Delta(text, w.finishReason), [Done]);
    assert [Delta(text, w.finishReason), Done] == [Delta(text, w.finishReason)] + [Done];
    assert DeltaText([Done]) == "";
    DeltaTextPrepend(Delta(text, None), after);
    assert [] + after == after;
    assert sofar + (text + DeltaText(after)) == w.text + DeltaText(after);
    assert text + "" == text;
  }

  /** The text of a stream is that of its pieces in order; waits and read errors carry none. */
  lemma TextOfItems(text: string, items: seq<Item>)
    ensures TextOf([]) == "" && TextOf([Piece(text)] + items) == text + TextOf(items)
    ensures TextOf([NotReady] + items) == TextOf(items) && TextOf([Failure] + items) == TextOf(items)
  {
    assert ([Piece(text)] + items)[1..] == items && ([NotReady] + items)[1..] == items;
    assert ([Failure] + items)[1..] == items;
    assert "" + TextOf(items) == TextOf(items);
  }

  /** The stream of a generation, cut into any pieces, is parsed into deltas that spell its last text, and one Done. */
  method RoundTrip(env: Env, encode: Wire -> string, wires: seq<Wire>, items: seq<Item>) returns (chunks: seq<Chunk>)
    requires Encodes(env, encode) && Generation("", wires) && TextOf(items) == Stream(encode, wires)
    ensures DeltaText(chunks) == if wires == [] then "" else wires[|wires| - 1].text
    ensures EndsInOneDone(chunks)
  {
    hide Output, Encodes, Stream, TextOf, Generation;
    var p := new SglangGenerateParser(env, items);
    assert p.buffer + TextOf(items) == TextOf(items);
    chunks := p.Collect();
    StreamSpellsLast(env, encode, "", wires);
    OneDoneAtTheEnd(env, TextOf(items), 0);
    assert "" + DeltaText(chunks) == DeltaText(chunks);
  }
}

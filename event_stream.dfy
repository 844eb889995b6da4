/**
 * The `/scan` response body: every line `call_blc` passes on, stripped and
 * framed as one server-sent event, and a reader that follows the
 * event-stream interpretation of section 9.2.6 of the WHATWG HTML Living
 * Standard (as an `EventSource` client does), to show that such a reader
 * gets each framed line as one event.
 */
module EventStream {
  import opened Options
  import opened PyStr
  import opened Command
  import opened Relay

  /** The field name and separator that start every frame. */
  const DataPrefix := "data: "

  /** One framed line: a `data` field holding the stripped line, then a blank line. */
  function Frame(line: string): string {
    DataPrefix + Strip(line) + "\n\n"
  }

  /**
   * `generate`: runs `call_blc` and frames every line it passes on, in order.
   */
  method Generate(o: ScanOptions, raw: string) returns (command: seq<string>, body: seq<string>)
    ensures command == Argv(o)
    ensures |body| == |ChildLines(raw)|
    ensures forall i :: 0 <= i < |body| ==> body[i] == Frame(Rewrite(ChildLines(raw)[i]))
  {
    var lines;
    command, lines := CallBlc(o, raw);
    body := FrameLines(lines);
  }

  /** The loop of `generate`: one frame per line, in order. */
  method FrameLines(lines: seq<string>) returns (body: seq<string>)
    ensures |body| == |lines|
    ensures forall i :: 0 <= i < |lines| ==> body[i] == Frame(lines[i])
  {
    body := [];
    for i := 0 to |lines|
      invariant |body| == i
      invariant forall j :: 0 <= j < i ==> body[j] == Frame(lines[j])
    {
      body := body + [DataPrefix + Strip(lines[i]) + "\n\n"];
    }
  }

  /*
   * The receiving side. A parser reads the stream one character at a time;
   * `line` is the line read so far, `data` the data buffer, `events` the
   * data of every event dispatched, and `afterCR` whether the last character
   * was a carriage return (whose following line feed then ends nothing).
   */
  datatype Parser = Parser(line: string, data: string, events: seq<string>, afterCR: bool)

  const Start := Parser("", "", [], false)

  /** Nothing pending: no partial line, an empty data buffer, no carriage return to pair. */
  predicate Idle(p: Parser) {
    p.line == "" && p.data == "" && !p.afterCR
  }

  /** Where the field name of `line` ends: at its first colon, or at its end. */
  function FieldEnd(line: string): (k: nat)
    ensures k <= |line|
    ensures ':' !in line[..k]
    ensures k == |line| || line[k] == ':'
    decreases |line|
  {
    if line == [] || line[0] == ':' then 0
    else
      var k := 1 + FieldEnd(line[1..]);
      assert line[..k] == [line[0]] + line[1..][..k - 1];
      k
  }

  /** A value loses one leading space, if it has one. */
  function DropSpace(v: string): string {
    if v != [] && v[0] == ' ' then v[1..] else v
  }

  /** A dispatched event's data loses the line feed that ends the data buffer. */
  function DropFinalFeed(d: string): string {
    if d != [] && d[|d| - 1] == '\n' then d[..|d| - 1] else d
  }

  /** A blank line dispatches an event, unless the data buffer is empty. */
  function Dispatch(p: Parser): Parser {
    if p.data == "" then p
    else p.(data := "", events := p.events + [DropFinalFeed(p.data)])
  }

  /**
   * One complete line: blank lines dispatch, lines starting with a colon are
   * comments, and otherwise the field named before the first colon takes the
   * rest as its value; a `data` field appends its value and a line feed to
   * the data buffer, and every other field is ignored.
   */
  function ProcessLine(p: Parser, line: string): Parser {
    if line == "" then Dispatch(p)
    else if line[0] == ':' then p
    else
      var k := FieldEnd(line);
      var value := if k == |line| then "" else DropSpace(line[k + 1..]);
      if line[..k] == "data" then p.(data := p.data + value + "\n") else p
  }

  /** One character: a carriage return, a line feed or both together end a line. */
  function Step(p: Parser, c: char): Parser {
    if c == '\n' && p.afterCR then p.(afterCR := false)
    else if c == '\r' || c == '\n' then ProcessLine(p, p.line).(line := "", afterCR := c == '\r')
    else p.(line := p.line + [c], afterCR := false)
  }

  /** The parser after reading `s`. */
  function Feed(p: Parser, s: string): Parser
    decreases |s|
  {
    if s == [] then p else Feed(Step(p, s[0]), s[1..])
  }

  /** The data of the events a stream delivers; a partial line or event at its end is dropped. */
  function Events(stream: string): seq<string> {
    Feed(Start, stream).events
  }

  /** Reading two pieces is reading one after the other. */
  lemma {:induction false} FeedAppend(p: Parser, a: string, b: string)
    ensures Feed(p, a + b) == Feed(Feed(p, a), b)
    decreases |a|
  {
    if a != [] {
      assert (a + b)[0] == a[0];
      assert (a + b)[1..] == a[1..] + b;
      FeedAppend(Step(p, a[0]), a[1..], b);
    } else {
      assert a + b == b;
    }
  }

  /** Text without line breaks only extends the current line. */
  lemma {:induction false} FeedText(p: Parser, t: string)
    requires t != [] && '\r' !in t && '\n' !in t
    ensures Feed(p, t) == p.(line := p.line + t, afterCR := false)
    decreases |t|
  {
    var q := Step(p, t[0]);
    if |t| > 1 {
      FeedText(q, t[1..]);
      assert q.line + t[1..] == p.line + t;
    }
  }

  /** The field of a framed line is `data`, and its value is the payload. */
  lemma DataLine(x: string)
    ensures var line := DataPrefix + x;
      && FieldEnd(line) == 4 && line[..4] == "data" && DropSpace(line[5..]) == x
  {
    var line := DataPrefix + x;
    assert line[0] == 'd' && line[1] == 'a' && line[2] == 't' && line[3] == 'a' && line[4] == ':';
    assert line[1..][1..][1..][1..][0] == ':';
    assert line[5..] == " " + x;
  }

  /** Reading two characters is two steps. */
  lemma FeedTwo(p: Parser, c: char, d: char)
    ensures Feed(p, [c, d]) == Step(Step(p, c), d)
  {
    var q := Step(p, c);
    assert [c, d][0] == c && [c, d][1..] == [d];
    assert Feed(p, [c, d]) == Feed(q, [d]);
    assert [d][1..] == [];
    assert Feed(q, [d]) == Feed(Step(q, d), []);
  }

  /** The line feed after a `data` line puts its payload in the data buffer. */
  lemma EndDataLine(p: Parser, x: string)
    requires Idle(p)
    ensures Step(p.(line := DataPrefix + x), '\n') == p.(data := x + "\n")
  {
    DataLine(x);
  }

  /** The blank line after it dispatches the payload. */
  lemma EndFrame(p: Parser, x: string)
    requires Idle(p)
    ensures Step(p.(data := x + "\n"), '\n') == p.(events := p.events + [x])
  {
    assert DropFinalFeed(x + "\n") == x;
  }

  /** An idle parser reads one frame as one event holding its payload, and is idle again. */
  lemma FeedFrame(p: Parser, x: string)
    requires Idle(p) && '\r' !in x && '\n' !in x
    ensures Feed(p, DataPrefix + x + "\n\n") == p.(events := p.events + [x])
  {
    var line := DataPrefix + x;
    var q := p.(line := line);
    assert Feed(p, line) == q by {
      FeedText(p, line);
    }
    assert Feed(q, "\n\n") == Step(Step(q, '\n'), '\n') by {
      FeedTwo(q, '\n', '\n');
      assert "\n\n" == ['\n', '\n'];
    }
    assert Step(Step(q, '\n'), '\n') == p.(events := p.events + [x]) by {
      EndDataLine(p, x);
      EndFrame(p, x);
    }
    FeedAppend(p, line, "\n\n");
  }

  /** An idle parser reads a run of frames as one event per frame, in order. */
  lemma {:induction false} FeedFrames(p: Parser, frames: seq<string>, xs: seq<string>)
    requires Idle(p) && |frames| == |xs|
    requires forall i :: 0 <= i < |xs| ==> '\r' !in xs[i] && '\n' !in xs[i]
    requires forall i :: 0 <= i < |xs| ==> frames[i] == DataPrefix + xs[i] + "\n\n"
    ensures Feed(p, Concat(frames)) == p.(events := p.events + xs)
    decreases |xs|
  {
    if xs != [] {
      assert frames == [frames[0]] + frames[1..];
      ConcatCons(frames[0], frames[1..]);
      FeedAppend(p, frames[0], Concat(frames[1..]));
      FeedFrame(p, xs[0]);
      var q := p.(events := p.events + [xs[0]]);
      FeedFrames(q, frames[1..], xs[1..]);
      assert q.events + xs[1..] == p.events + xs;
    }
  }

  /** Payloads without line breaks, framed and sent one after another, arrive as exactly those events. */
  lemma FramesRoundTrip(frames: seq<string>, xs: seq<string>)
    requires |frames| == |xs|
    requires forall i :: 0 <= i < |xs| ==> '\r' !in xs[i] && '\n' !in xs[i]
    requires forall i :: 0 <= i < |xs| ==> frames[i] == DataPrefix + xs[i] + "\n\n"
    ensures Events(Concat(frames)) == xs
  {
    FeedFrames(Start, frames, xs);
  }

  /** The stripped form of an output line has no line break left in it. */
  lemma PayloadClean(line: string)
    requires IsOutputLine(line)
    ensures '\r' !in Strip(line) && '\n' !in Strip(line)
  {
    StripAvoids(line, '\r');
    if line[|line| - 1] == '\n' {
      StripDropsLast(line, '\n');
    } else {
      assert line == line[..|line| - 1] + [line[|line| - 1]];
      StripAvoids(line, '\n');
    }
  }

  /** One framed output line arrives as one event holding the stripped line. */
  lemma FrameRoundTrip(line: string)
    requires IsOutputLine(line)
    ensures Events(Frame(line)) == [Strip(line)]
  {
    PayloadClean(line);
    FeedFrame(Start, Strip(line));
  }

  /**
   * What an event-stream reader receives: one event per line of the child's output, in
   * order, holding that line as passed on and stripped.
   */
  lemma StreamDelivers(raw: string, body: seq<string>)
    requires |body| == |ChildLines(raw)|
    requires forall i :: 0 <= i < |body| ==> body[i] == Frame(Rewrite(ChildLines(raw)[i]))
    ensures var ls := ChildLines(raw);
      Events(Concat(body)) == seq(|ls|, i requires 0 <= i < |ls| => Strip(Rewrite(ls[i])))
  {
    var ls := ChildLines(raw);
    var xs := seq(|ls|, i requires 0 <= i < |ls| => Strip(Rewrite(ls[i])));
    ChildLinesShape(raw);
    forall i | 0 <= i < |xs|
      ensures '\r' !in xs[i] && '\n' !in xs[i]
    {
      RewriteKeepsShape(ls[i]);
      PayloadClean(Rewrite(ls[i]));
    }
    FramesRoundTrip(body, xs);
  }
}

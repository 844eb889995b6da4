/**
 * The second half of `call_blc`: the child's combined stdout and stderr,
 * read as text line by line, with every line that reports a failed DNS
 * lookup replaced by a fixed explanation for the user.
 */
module Relay {
  import opened Options
  import opened PyStr
  import opened Command

  /** The marker of a failed DNS lookup in `blc`'s output. */
  const DnsFailure := "getaddrinfo ENOTFOUND"

  /** What the user sees instead of a line carrying `DnsFailure` (one sentence, written in three pieces). */
  const UnreachableMessage := MessageStart + MessageMiddle + MessageEnd
  const MessageStart := "This Url cannot be reached."
  const MessageMiddle := " if this is your input URL,"
  const MessageEnd := " please check for errors."

  /** One line of the child's output as the handler passes it on. */
  function Rewrite(line: string): string {
    if Contains(line, DnsFailure) then UnreachableMessage else line
  }

  /**
   * Text-mode reading with universal newlines: `\r\n` and a lone `\r` both
   * become `\n`.
   */
  function Universal(raw: string): string
    decreases |raw|
  {
    if raw == [] then []
    else if raw[0] == '\r' then "\n" + Universal(if |raw| > 1 && raw[1] == '\n' then raw[2..] else raw[1..])
    else [raw[0]] + Universal(raw[1..])
  }

  /** How many characters the first line ending or character of `raw` takes: 2 for `\r\n`, else 1. */
  function UnitLen(raw: string): nat
    requires raw != []
  {
    if raw[0] == '\r' && |raw| > 1 && raw[1] == '\n' then 2 else 1
  }

  /** What the first character of a unit becomes. */
  function UnitOut(c: char): string {
    if c == '\r' then "\n" else [c]
  }

  /** Universal newlines translate one unit, then the rest. */
  lemma UniversalHead(raw: string)
    requires raw != []
    ensures UnitLen(raw) <= |raw|
    ensures Universal(raw) == UnitOut(raw[0]) + Universal(raw[UnitLen(raw)..])
  {
  }

  /** Appending text keeps the first unit, unless it splits a `\r\n`. */
  lemma UnitLenAppend(a: string, b: string)
    requires a != [] && !(a[|a| - 1] == '\r' && b != [] && b[0] == '\n')
    ensures UnitLen(a) <= |a| && UnitLen(a + b) == UnitLen(a)
    ensures (a + b)[0] == a[0] && (a + b)[UnitLen(a)..] == a[UnitLen(a)..] + b
  {
    var ab := a + b;
    assert ab[0] == a[0];
    if |a| > 1 {
      assert ab[1] == a[1];
    } else if a[0] == '\r' {
      assert ab[1..] == b;
    }
  }

  /**
   * Universal newlines work piece by piece: reading `a` and then `b` is
   * reading `a + b`, unless `a` ends in `\r` and `b` starts with `\n`
   * (where the two together make one line ending).
   */
  lemma {:induction false} UniversalAppend(a: string, b: string)
    requires !(a != [] && a[|a| - 1] == '\r' && b != [] && b[0] == '\n')
    ensures Universal(a + b) == Universal(a) + Universal(b)
    decreases |a|
  {
    if a == [] {
      assert a + b == b;
    } else {
      var k := UnitLen(a);
      UnitLenAppend(a, b);
      UniversalHead(a);
      UniversalHead(a + b);
      UniversalAppend(a[k..], b);
    }
  }

  /**
   * The line endings universal newlines translate: `\r\n` and `\r` each
   * become one `\n`, and every other character stays as it is. With
   * `UniversalAppend` this determines `Universal` on every text.
   */
  lemma UniversalUnits(c: char)
    ensures Universal("\r\n") == "\n"
    ensures Universal("\r") == "\n"
    ensures c != '\r' ==> Universal([c]) == [c]
  {
    assert "\r\n"[2..] == [] && "\r"[1..] == [] && [c][1..] == [];
  }

  /**
   * Where the first line of `s` ends: just after its first `\n`, or at the
   * end of `s` when there is none.
   */
  function LineEnd(s: string): (k: nat)
    requires s != []
    ensures 0 < k <= |s|
    ensures '\n' !in s[..k - 1]
    ensures k == |s| || s[k - 1] == '\n'
    decreases |s|
  {
    if s[0] == '\n' || |s| == 1 then 1
    else
      var k := 1 + LineEnd(s[1..]);
      assert s[..k - 1] == [s[0]] + s[1..][..k - 2];
      k
  }

  /** Iterating over a text stream: each line keeps its `\n`; a last line without one is still a line. */
  function OutputLines(s: string): seq<string>
    decreases |s|
  {
    if s == [] then [] else [s[..LineEnd(s)]] + OutputLines(s[LineEnd(s)..])
  }

  /** The lines the handler reads from the child, whose raw output is `raw`. */
  function ChildLines(raw: string): seq<string> {
    OutputLines(Universal(raw))
  }

  /** A line as text-mode iteration yields it: not empty, no `\r`, and `\n` at most as its last character. */
  predicate IsOutputLine(line: string) {
    line != [] && '\r' !in line && '\n' !in line[..|line| - 1]
  }

  /** Universal newlines leave no `\r` behind, and leave text without `\r` as it is. */
  lemma {:induction false} UniversalSpec(raw: string)
    ensures '\r' !in Universal(raw)
    ensures '\r' !in raw ==> Universal(raw) == raw
    decreases |raw|
  {
    if raw != [] {
      if raw[0] == '\r' {
        UniversalSpec(if |raw| > 1 && raw[1] == '\n' then raw[2..] else raw[1..]);
      } else {
        UniversalSpec(raw[1..]);
        if '\r' !in raw {
          assert '\r' !in raw[1..];
          assert raw == [raw[0]] + raw[1..];
        }
      }
    }
  }

  /** The lines put back together give the text back. */
  lemma {:induction false} OutputLinesConcat(s: string)
    ensures Concat(OutputLines(s)) == s
    decreases |s|
  {
    if s != [] {
      var k := LineEnd(s);
      OutputLinesConcat(s[k..]);
      ConcatCons(s[..k], OutputLines(s[k..]));
      assert s == s[..k] + s[k..];
    }
  }

  /** Each line is non-empty and holds `\n` at most as its last character. */
  lemma {:induction false} OutputLinesShape(s: string)
    ensures forall i :: 0 <= i < |OutputLines(s)| ==>
      OutputLines(s)[i] != [] && '\n' !in OutputLines(s)[i][..|OutputLines(s)[i]| - 1]
    decreases |s|
  {
    if s != [] {
      var k := LineEnd(s);
      OutputLinesShape(s[k..]);
      assert s[..k][..k - 1] == s[..k - 1];
      var ls := OutputLines(s);
      forall i | 1 <= i < |ls| ensures ls[i] == OutputLines(s[k..])[i - 1] { }
    }
  }

  /** Every line but the last ends in `\n`. */
  lemma {:induction false} OutputLinesEnds(s: string)
    ensures forall i :: 0 <= i < |OutputLines(s)| - 1 ==>
      OutputLines(s)[i] != [] && OutputLines(s)[i][|OutputLines(s)[i]| - 1] == '\n'
    decreases |s|
  {
    if s != [] {
      var k := LineEnd(s);
      var rest := OutputLines(s[k..]);
      OutputLinesEnds(s[k..]);
      if rest != [] {
        assert k < |s|;
      }
      var ls := OutputLines(s);
      forall i | 1 <= i < |ls| ensures ls[i] == rest[i - 1] { }
    }
  }

  /** Every line the child's output is read as has the shape of an output line. */
  lemma ChildLinesShape(raw: string)
    ensures forall i :: 0 <= i < |ChildLines(raw)| ==> IsOutputLine(ChildLines(raw)[i])
  {
    var t := Universal(raw);
    UniversalSpec(raw);
    OutputLinesConcat(t);
    OutputLinesShape(t);
    var ls := OutputLines(t);
    ConcatAvoids(ls, '\r');
  }

  /** The explanation is one line, and shares no `E` with `DnsFailure`. */
  lemma MessageChars()
    ensures UnreachableMessage != []
    ensures 'E' !in UnreachableMessage && '\n' !in UnreachableMessage && '\r' !in UnreachableMessage
  {
    StartChars();
    MiddleChars();
    EndChars();
  }

  lemma StartChars()
    ensures 'E' !in MessageStart && '\n' !in MessageStart && '\r' !in MessageStart
  {
  }

  lemma MiddleChars()
    ensures 'E' !in MessageMiddle && '\n' !in MessageMiddle && '\r' !in MessageMiddle
  {
  }

  lemma EndChars()
    ensures 'E' !in MessageEnd && '\n' !in MessageEnd && '\r' !in MessageEnd
  {
  }

  /**
   * A line is replaced by the explanation exactly when it reports a failed
   * DNS lookup (or already is the explanation); otherwise it passes unchanged.
   */
  lemma RewriteReplaces(line: string)
    ensures Rewrite(line) == UnreachableMessage <==> Contains(line, DnsFailure) || line == UnreachableMessage
    ensures !Contains(line, DnsFailure) ==> Rewrite(line) == line
  {
  }

  /** No line the handler passes on reports a failed DNS lookup. */
  lemma RewriteClears(line: string)
    ensures !Contains(Rewrite(line), DnsFailure)
  {
    if Contains(line, DnsFailure) {
      MessageChars();
      assert DnsFailure[12] == 'E';
      MissingCharNotContained(UnreachableMessage, DnsFailure, 12);
    }
  }

  /** Passing a line on twice is passing it on once. */
  lemma RewriteIdempotent(line: string)
    ensures Rewrite(Rewrite(line)) == Rewrite(line)
  {
    RewriteClears(line);
  }

  /** A passed-on line still has the shape of an output line. */
  lemma RewriteKeepsShape(line: string)
    requires IsOutputLine(line)
    ensures IsOutputLine(Rewrite(line))
  {
    MessageChars();
    var m := UnreachableMessage;
    assert m[..|m| - 1] + [m[|m| - 1]] == m;
  }

  /**
   * `call_blc`: builds the command, then passes on each line of the child's
   * output, replacing the lines that report a failed DNS lookup.
   */
  method CallBlc(o: ScanOptions, raw: string) returns (command: seq<string>, yielded: seq<string>)
    ensures command == Argv(o)
    ensures |yielded| == |ChildLines(raw)|
    ensures forall i :: 0 <= i < |yielded| ==> yielded[i] == Rewrite(ChildLines(raw)[i])
  {
    command := BuildCommand(o);
    yielded := RelayLines(ChildLines(raw));
  }

  /** The loop over the child's output: one passed-on line per line read. */
  method RelayLines(lines: seq<string>) returns (yielded: seq<string>)
    ensures |yielded| == |lines|
    ensures forall i :: 0 <= i < |lines| ==> yielded[i] == Rewrite(lines[i])
  {
    yielded := [];
    for i := 0 to |lines|
      invariant |yielded| == i
      invariant forall j :: 0 <= j < i ==> yielded[j] == Rewrite(lines[j])
    {
      var line := lines[i];
      if Contains(line, DnsFailure) {
        yielded := yielded + [UnreachableMessage];
      } else {
        yielded := yielded + [line];
      }
    }
  }
}

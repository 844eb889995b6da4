/**
 * Worked examples: concrete requests and child output, with the command line
 * and the events the model gives for them.
 */
module Scenarios {
  import opened Wrappers
  import opened Options
  import opened PyStr
  import opened Decimal
  import opened Command
  import opened Relay
  import opened EventStream

  /** A recursive scan with five concurrent requests; the user agent takes its default. */
  lemma RecursiveScanCommand()
    ensures var body := EmptyRequest.(url := Some("http://example.com"), recursive := Some(true), requests := Some(5));
      Argv(OptionsOf(body)) == ["blc", "http://example.com", "--recursive", "--requests", "5", "--user-agent", "Mozilla/5.0"]
  {
    var body := EmptyRequest.(url := Some("http://example.com"), recursive := Some(true), requests := Some(5));
    var o := OptionsOf(body);
    assert o.keywords == [""];
    assert Kept([""]) == [] by {
      assert Strip("") == "";
    }
    assert FlagArgs(o) == ["--recursive"] by {
      FlagArgsUnrolled(o);
    }
    assert ValuedArgs(o) == ["--requests", "5", "--user-agent", "Mozilla/5.0"] by {
      assert IntToString(5) == "5";
    }
  }

  /** An empty request still names the program, an empty URL and the default user agent. */
  lemma EmptyRequestCommand()
    ensures Argv(OptionsOf(EmptyRequest)) == ["blc", "", "--user-agent", "Mozilla/5.0"]
  {
    EmptyRequestDefaults();
    var o := OptionsOf(EmptyRequest);
    assert Kept([""]) == [] by {
      assert Strip("") == "";
    }
    assert FlagArgs(o) == [] by {
      FlagArgsUnrolled(o);
    }
    assert ValuedArgs(o) == ["--user-agent", "Mozilla/5.0"];
  }

  /** `exclude` of `"a, ,b,"` splits into four pieces, two of them blank. */
  lemma ExcludeSplit()
    ensures OptionsOf(EmptyRequest.(exclude := Some("a, ,b,"))).keywords == ["a", " ", "b", ""]
  {
    var pieces := ["a", " ", "b", ""];
    assert Join(pieces, ',') == "a, ,b," by {
      assert Join([""], ',') == "";
      assert Join(["b", ""], ',') == "b,";
      assert Join([" ", "b", ""], ',') == " ,b,";
      assert pieces[1..] == [" ", "b", ""];
    }
    assert forall i :: 0 <= i < |pieces| ==> ',' !in pieces[i];
    ExcludeSplitsIntoPieces(EmptyRequest.(exclude := Some("a, ,b,")), pieces);
  }

  /** The blank pieces vanish and the others are trimmed, in order. */
  lemma ExcludeKeywords()
    ensures ExcludeArgs(Kept(["a", " ", "b", ""])) == ["--exclude", "a", "--exclude", "b"]
  {
    var pieces := ["a", " ", "b", ""];
    assert Strip("a") == "a";
    assert Strip(" ") == "" by {
      assert LStrip(" ") == LStrip("");
    }
    assert Strip("b") == "b";
    assert Strip("") == "";
    assert Kept(pieces) == ["a", "b"] by {
      assert pieces[1..] == [" ", "b", ""];
      assert [" ", "b", ""][1..] == ["b", ""];
      assert ["b", ""][1..] == [""];
    }
  }

  /** A failed DNS lookup reported by the checker is passed on as the explanation. */
  lemma DnsFailureReported()
    ensures Rewrite("getaddrinfo ENOTFOUND nohost\n") == UnreachableMessage
  {
    assert "getaddrinfo ENOTFOUND nohost\n" == DnsFailure + " nohost\n";
  }

  /**
   * The URL goes into the command line verbatim, in option position: a URL
   * spelled like a switch puts that switch's token into the command line
   * although the switch is off.
   */
  lemma UrlInOptionPosition()
    ensures var o := OptionsOf(EmptyRequest.(url := Some("--recursive")));
      !o.recursive && RecursiveFlag in Argv(o)
  {
    var o := OptionsOf(EmptyRequest.(url := Some("--recursive")));
    assert Argv(o)[1] == RecursiveFlag;
  }

  /** A carriage return and line feed together end one line; the last line may lack its line feed. */
  lemma CarriageReturnLines()
    ensures ChildLines("a\r\nb") == ["a\n", "b"]
  {
    assert Universal("a\r\nb") == "a\nb" by {
      var raw := "a\r\nb";
      assert raw[1..] == "\r\nb" && raw[1..][2..] == "b" && "b"[1..] == [];
      assert Universal("b") == "b";
      assert Universal("\r\nb") == "\n" + Universal("b");
    }
    var t := "a\nb";
    assert LineEnd(t) == 2 && t[..2] == "a\n" && t[2..] == "b";
    assert OutputLines("b") == ["b"] by {
      assert LineEnd("b") == 1 && "b"[..1] == "b" && "b"[1..] == [];
    }
  }

  /** A framed output line arrives as one event with its line feed stripped. */
  lemma FrameExample()
    ensures Frame("OK\n") == "data: OK\n\n"
    ensures Events(Frame("OK\n")) == ["OK"]
  {
    var line := "OK\n";
    assert Strip(line) == "OK" by {
      assert LStrip(line) == line;
      assert line[..2] == "OK" && RStrip("OK") == "OK";
    }
    assert IsOutputLine(line) by {
      assert line[..2] == "OK";
    }
    FrameRoundTrip(line);
  }
}

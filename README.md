# blc-ui scan handler, modelled in Dafny

blc-ui is a small web front end for the `blc` broken-link checker. A
`POST /scan` request carries the scan options as JSON. The handler turns
them into a `blc` command line, runs the checker, and streams the checker's
output back to the page as server-sent events. A line that reports a failed
DNS lookup is replaced by a fixed, friendlier explanation.

This project models that handler (`main.py`) and proves what it promises.

- **Options** (`options.dfy`): the request body, where every field may be
  absent, and the option record `call_blc` receives. Each absent field takes
  the handler's default. `exclude` is split on commas.
- **Command** (`command.dfy`): the `blc` command line.
  - `Argv` is the command line as a function of the options.
  - `BuildCommand` builds it the way `call_blc` does: a list grown by
    conditional `append`/`extend` steps and a loop over the keyword pieces.
  - Lemmas state the layout, plus which keywords survive trimming and in
    what order.
- **CommandLine** (`command_line.dfy`): a positional reader, defined here,
  for such a command line. It is not `blc`'s own option parser.
  - The URL comes first, whatever it says. A switch stands alone. Every other option takes
    the next token as its value.
  - Reading `Argv(o)` back gives the options themselves, up to blank
    keywords, surrounding whitespace of keywords, and non-positive counts. It also gives every option name
    exactly when its condition holds, once, in the handler's order.
  - From this: two option records give the same command line exactly when
    they agree up to that canonical form.
- **Relay** (`relay.dfy`): the child's output.
  - The raw output is read in text mode (universal newlines) and iterated
    line by line.
  - Each line is passed on, or replaced when it contains
    `getaddrinfo ENOTFOUND`.
- **EventStream** (`event_stream.dfy`): the `/scan` response body.
  - Each passed-on line becomes `data: <stripped line>` followed by a blank
    line.
  - A character-level reader that follows the event-stream interpretation
    of section 9.2.6 of the WHATWG HTML Living Standard, as an
    `EventSource` client does, receives one event per output line, in
    order, holding exactly the stripped line.
- **PyStr** and **Decimal** (`pystr.dfy`, `decimal.dfy`): Python's
  `str.strip`, `str.split`, `in` on strings and `str(int)`, with the
  whitespace set of `str.isspace`.
- **Scenarios** (`scenarios.dfy`): worked examples.

Two consequences of `main.py` that are easy to miss:

- `main.py:25` defaults `user_agent` to `Mozilla/5.0`, so a request without
  a user agent still gives `--user-agent Mozilla/5.0` on the command line.
- `main.py:32` and `main.py:65-66` use `strip()`, which trims both ends of
  output lines and keywords, not only the end.

## Model

| member | source | states |
|---|---|---|
| Options.ScanRequest | main.py:12-26 | The request body: each field the handler reads, absent or present. |
| Options.ScanOptions | main.py:35-39 | The parameters of `call_blc`, with `exclude` already split into keyword pieces. |
| Options.OptionsOf | main.py:14-26 | Builds the options from the request. There is always at least one keyword piece. No piece holds a comma. The pieces joined with commas give back the supplied `exclude`, or the empty string when it is absent. |
| Options.EmptyRequestDefaults | main.py:14-26 | An empty request gives URL `""`, every switch off, filter level -1, counts 0, user agent `Mozilla/5.0` and the single keyword piece `""`. |
| Options.ExcludeSplitsIntoPieces | main.py:26 | An `exclude` value made of comma-free pieces joined by commas splits into exactly those pieces. |
| PyStr.Join | main.py:26 | Joins pieces with a separator; the partner of `Split` (see `PyStr.Split`, `PyStr.SplitJoin`). |
| PyStr.Split | main.py:26 | `split(",")` gives at least one piece. No piece contains the separator. Joining the pieces gives the input back. |
| PyStr.SplitJoin | main.py:26 | Splitting a join of separator-free pieces (at least one) gives the pieces back. |
| PyStr.LStrip | main.py:65-66 | Drops leading whitespace; its properties are stated by `PyStr.StripSpec`. |
| PyStr.RStrip | main.py:65-66 | Drops trailing whitespace; its properties are stated by `PyStr.StripSpec`. |
| PyStr.Strip | main.py:65-66 | `str.strip()`, trimming both ends (also at `main.py:32`); characterised by `PyStr.StripSpec` and `PyStr.StripUnique`. |
| PyStr.StripSpec | main.py:65-66 | `strip()` is a substring of its input. Only whitespace lies on either side of it, and it has no whitespace at either end. |
| PyStr.StripUnique | main.py:65-66 | At most one string has that property, so it characterises `strip()`. |
| PyStr.StripIdempotent | main.py:65-66 | Stripping twice is stripping once. |
| PyStr.StripAvoids | main.py:32 | Stripping introduces no character the input lacks. |
| PyStr.StripDropsLast | main.py:32 | A trailing whitespace character is removed along with the rest of the trailing whitespace. |
| PyStr.Contains | main.py:77 | `pat in s` holds exactly when `pat` occurs in `s` at some offset. |
| PyStr.MissingCharNotContained | main.py:77 | A string lacking some character of `pat` does not contain `pat`. |
| Decimal.NatToString | main.py:57-61 | `str(n)` for `n >= 0` is a non-empty string of decimal digits with no leading zero. |
| Decimal.IntToString | main.py:57-61 | `str(n)` is non-empty and starts with `-` exactly when `n < 0`. |
| Decimal.NatToStringValue | main.py:57-61 | The digits of `str(n)` denote `n`. |
| Decimal.IntToStringRoundTrip | main.py:57-61 | Parsing `str(n)` back gives `n` for every integer, negative ones included. |
| Decimal.IntToStringInjective | main.py:57-61 | Different integers are rendered differently. |
| Command.FlagArgs | main.py:42-55 | The switch tokens; stated by `Command.FlagArgsUnrolled` and `Command.SelectedFacts`. |
| Command.Kept | main.py:64-66 | The stripped non-blank keyword pieces, in order; never more than the pieces. Stated by `Command.KeptMembers`, `Command.KeptClean`, `Command.KeptAppend`. |
| Command.ExcludeArgs | main.py:66 | Two tokens per keyword; stated by `Command.ExcludeLayout`. |
| Command.Argv | main.py:40-66 | The command line `call_blc` builds; stated by `Command.ArgvLayout`, `Command.ArgvTail` and `CommandLine.ReadArgv`. |
| Command.BuildCommand | main.py:40-66 | The list `call_blc` builds is `Argv(o)`. |
| Command.AppendSwitches | main.py:42-55 | The seven conditional appends add exactly `FlagArgs(o)`: the set switches, in fixed order. |
| Command.AppendValued | main.py:56-63 | The four conditional extends add exactly `ValuedArgs(o)`. |
| Command.AppendExcludes | main.py:64-66 | The keyword loop adds `--exclude k` for each non-blank piece's stripped form `k`, in order. |
| Command.ValuedArgs | main.py:56-63 | Each valued option adds two tokens when its condition holds (filter level not -1, counts positive, user agent non-empty) and none otherwise. |
| Command.ArgvLayout | main.py:40-66 | The argv starts with `blc` and the URL, verbatim, and ends with the `--exclude` pairs. Its length is 2, plus one per set switch, plus two per passed valued option, plus two per kept keyword. |
| Command.ArgvTail | main.py:40-66 | After program and URL come the switches, then the valued options, then the `--exclude` pairs. |
| Command.FlagArgsUnrolled | main.py:42-55 | The switch tokens are the seven conditional appends, in the handler's order. |
| Command.SelectedFacts | main.py:42-55 | For distinct tokens, a token is selected exactly when its condition holds. Nothing is selected twice. Selected tokens keep their relative order. |
| Command.KeptAppend | main.py:64-66 | Trimming keyword pieces respects order: the pieces of `a + b` give the keywords of `a`, then those of `b`. |
| Command.KeptClean | main.py:64-66 | Every kept keyword is non-blank and already stripped. |
| Command.KeptMembers | main.py:64-66 | The kept keywords are exactly the non-blank stripped pieces: each comes from some piece, and each non-blank piece's stripped form is kept. |
| Command.KeptUnchanged | main.py:64-66 | Pieces that are all non-blank and stripped are kept as they are. |
| Command.ExcludeLayout | main.py:64-66 | Position `2i` of the `--exclude` pairs holds `--exclude`, and position `2i+1` holds the `i`-th kept keyword. |
| CommandLine.ReadFlagArgs | main.py:42-55 | Reading the switch tokens turns on exactly the options' switches and changes no other field. |
| CommandLine.ReadValuedArgs | main.py:56-63 | Reading the valued tokens sets exactly the fields whose option is passed, each to its value. |
| CommandLine.ReadExcludes | main.py:64-66 | Reading the `--exclude` pairs appends the keywords, in order. |
| CommandLine.ReadArgv | main.py:40-66 | Reading back `Argv(o)` succeeds. It gives `Canonical(o)`, and the option names in table order followed by one `--exclude` per kept keyword. |
| CommandLine.ArgvOptionNames | main.py:40-66 | Each switch and valued option occurs exactly when its condition holds, at its place in the fixed order. No option but `--exclude` occurs twice. The `--exclude` options come last, one per kept keyword. |
| CommandLine.KeptIdempotent | main.py:64-66 | Trimming the kept keywords again changes nothing. |
| CommandLine.ArgvCanonical | main.py:40-66 | The canonical options give the same command line as the options. |
| CommandLine.ArgvInjective | main.py:40-66 | Two option records give the same command line exactly when their canonical forms are equal. |
| Relay.Rewrite | main.py:77-80 | The line passed on for one output line; stated by `Relay.RewriteReplaces`. |
| Relay.Universal | main.py:72 | Text-mode newline translation; stated by `Relay.UniversalSpec`, `Relay.UniversalAppend`, `Relay.UniversalUnits`. |
| Relay.UniversalSpec | main.py:68-76 | Text-mode reading leaves no carriage return, and leaves text without one unchanged. |
| Relay.UniversalAppend | main.py:72-76 | Translating two pieces is translating each, unless a carriage return ends the first and a line feed starts the second. |
| Relay.UniversalUnits | main.py:72 | `\r\n` and a lone `\r` each become `\n`; every other character is kept. With `Relay.UniversalAppend` this fixes the translation on every input. |
| Relay.OutputLines | main.py:76 | Line iteration over text; stated by `Relay.OutputLinesConcat`, `Relay.OutputLinesShape`, `Relay.OutputLinesEnds`. |
| Relay.ChildLines | main.py:68-76 | The lines read from the child; stated by `Relay.ChildLinesShape`. |
| Relay.LineEnd | main.py:76 | A line ends just after its first line feed, or at the end of the text. |
| Relay.OutputLinesConcat | main.py:76 | The lines the iteration yields, put back together, are the text read. |
| Relay.OutputLinesShape | main.py:76 | Every line is non-empty and holds a line feed at most as its last character. |
| Relay.OutputLinesEnds | main.py:76 | Every line but the last ends in a line feed. |
| Relay.ChildLinesShape | main.py:68-76 | Every line read from the child is non-empty, has no carriage return, and has a line feed at most at its end. |
| Relay.MessageChars | main.py:78 | The explanation is non-empty and holds no `E`, line feed or carriage return. |
| Relay.RewriteReplaces | main.py:77-80 | A line becomes the explanation exactly when it contains `getaddrinfo ENOTFOUND` or already is the explanation. A line without the marker passes unchanged. |
| Relay.RewriteClears | main.py:77-80 | No passed-on line contains `getaddrinfo ENOTFOUND`. |
| Relay.RewriteIdempotent | main.py:77-80 | Passing a line on twice is passing it on once. |
| Relay.RewriteKeepsShape | main.py:77-80 | A passed-on output line is still an output line. |
| Relay.CallBlc | main.py:40-80 | `call_blc` builds `Argv(o)`. It yields one line per line of the child's output, in order, each the rewrite of its line. |
| Relay.RelayLines | main.py:76-80 | The relay loop keeps count and order, and each element is the rewrite of its line. |
| EventStream.Frame | main.py:32 | One server-sent event frame; stated by `EventStream.FrameRoundTrip`. |
| EventStream.Generate | main.py:28-32 | The response body has one frame per line of the child's output, in order: `data: ` and the stripped, rewritten line, then a blank line. |
| EventStream.FrameLines | main.py:29-32 | The framing loop keeps count and order and frames every line. |
| EventStream.PayloadClean | main.py:32 | A stripped output line holds no line break. |
| EventStream.FeedFrame | main.py:32 | An idle event-stream reader reads one frame as one event holding its payload, and is idle again. |
| EventStream.FramesRoundTrip | main.py:32 | Frames of payloads without line breaks, sent one after another, decode to exactly those payloads, in order. |
| EventStream.FrameRoundTrip | main.py:32 | One framed output line decodes to one event holding the stripped line. |
| EventStream.StreamDelivers | main.py:28-33 | An event-stream reader receives one event per line of the child's output, in order, each holding that line rewritten and stripped. |
| Scenarios.RecursiveScanCommand | main.py:14-66 | URL `http://example.com`, recursive and 5 requests give `blc http://example.com --recursive --requests 5 --user-agent Mozilla/5.0`. |
| Scenarios.EmptyRequestCommand | main.py:14-66 | An empty request gives `blc "" --user-agent Mozilla/5.0`. |
| Scenarios.ExcludeSplit | main.py:26 | `exclude` of `a, ,b,` splits into the pieces `a`, a blank, `b` and the empty string. |
| Scenarios.ExcludeKeywords | main.py:64-66 | Those pieces give exactly `--exclude a --exclude b`. |
| Scenarios.DnsFailureReported | main.py:77-78 | A `getaddrinfo ENOTFOUND` line is replaced by the explanation. |
| Scenarios.UrlInOptionPosition | main.py:40 | The URL `--recursive` puts the `--recursive` token on the command line although the switch is off. |
| Scenarios.CarriageReturnLines | main.py:72-76 | Raw output `a\r\nb` is read as the lines `a\n` and `b`. |
| Scenarios.FrameExample | main.py:32 | The line `OK\n` is framed as `data: OK\n\n` and arrives as the event `OK`. |

## Left out

- The web framework:
  - routing, `send_from_directory` and the index page;
  - `request.get_json()` and its failure on a missing or malformed body;
  - `Response` and `stream_with_context`.

  The request is modelled as already-parsed optional fields.
- Values of the wrong JSON type are left out. Each field has the type `call_blc` uses it at. Examples:
  - a string where a boolean is expected, which Python would test for truthiness;
  - a float filter level;
  - JSON `null`. The page sends `parseInt` results (`static/script.js:10`, `static/script.js:18-19`), and `JSON.stringify` turns `NaN` into `null`. A `null` filter level then passes `--filter-level None` (`main.py:56-57`). A `null` count makes `None > 0` raise `TypeError` (`main.py:58`).
- Process handling is left out: `subprocess.Popen`, the merging of stderr into stdout, and `process.wait()`. The child's combined output is a parameter (`raw`). A launch failure when `blc` is missing is left out too.
- Laziness and timing of streaming: a line is sent before the child exits. The model relates whole sequences.
- Character decoding of the child's bytes, and the byte-order mark and UTF-8 decoding step of the event-stream format, are left out. Text is a sequence of characters.
- The event-stream reader ignores every field other than `data`. The `event`, `id` and `retry` fields, the last-event-ID buffer and the reconnection time are left out, because the handler never sends them.
- `app.run` and the static page script are not part of this model.
- The page's own reading of the stream is not modelled, and it does not keep the `EventStream.StreamDelivers` promise. `static/script.js:46-66` decodes each chunk `fetch` returns on its own, splits it on blank lines and keeps the pieces that start with `data:`. So a frame split across two chunks is shown cut in two, or partly lost.
- `blc`'s own option parsing is not modelled. `main.py:40` puts the URL verbatim where an option could stand, so a URL starting with `-` reaches `blc` as an option (`Scenarios.UrlInOptionPosition`). Passing a list with `shell=False` prevents shell injection but not this.
- Relay.CallBlc: yields its lines as a sequence after building the command, instead of one at a time while the child runs.

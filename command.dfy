/**
 * `call_blc`'s construction of the `blc` command line from the scan options:
 * program name and URL, then the seven switches in a fixed order, then the
 * valued options, then one `--exclude` pair per non-blank keyword.
 * `Argv` is the command line as a function of the options; `BuildCommand`
 * builds it step by step the way the handler does.
 */
module Command {
  import opened Options
  import opened PyStr
  import opened Decimal

  const Program := "blc"

  /** The switch and option tokens of the `blc` command line. */
  const ExcludeExternalFlag := "--exclude-external"
  const ExcludeInternalFlag := "--exclude-internal"
  const RecursiveFlag := "--recursive"
  const OrderedFlag := "--ordered"
  const VerboseFlag := "--verbose"
  const FollowFlag := "--follow"
  const GetFlag := "--get"
  const FilterLevelOption := "--filter-level"
  const RequestsOption := "--requests"
  const HostRequestsOption := "--host-requests"
  const UserAgentOption := "--user-agent"
  const ExcludeOption := "--exclude"

  /** The switch tokens, in the order the handler appends them. */
  const FlagTokens: seq<string> :=
    [ExcludeExternalFlag, ExcludeInternalFlag, RecursiveFlag, OrderedFlag, VerboseFlag, FollowFlag, GetFlag]

  /** The option governing each entry of `FlagTokens`, position for position. */
  function Switches(o: ScanOptions): (sw: seq<bool>)
    ensures |sw| == |FlagTokens|
  {
    [o.excludeExternal, o.excludeInternal, o.recursive, o.ordered, o.verbose, o.follow, o.get]
  }

  predicate Distinct<T(==)>(xs: seq<T>) {
    forall i, j :: 0 <= i < j < |xs| ==> xs[i] != xs[j]
  }

  function CountTrue(on: seq<bool>): (n: nat)
    ensures n <= |on|
  {
    if on == [] then 0 else (if on[0] then 1 else 0) + CountTrue(on[1..])
  }

  /** `xs` when `present`, nothing otherwise. */
  function Opt<T>(present: bool, xs: seq<T>): seq<T> {
    if present then xs else []
  }

  /** The entries of `xs` whose switch in `on` is set, in the order of `xs`. */
  function Selected<T>(xs: seq<T>, on: seq<bool>): (r: seq<T>)
    requires |xs| == |on|
    ensures |r| == CountTrue(on)
  {
    if xs == [] then [] else Opt(on[0], [xs[0]]) + Selected(xs[1..], on[1..])
  }

  /** The switch tokens of the options that are set. */
  function FlagArgs(o: ScanOptions): seq<string> {
    Selected(FlagTokens, Switches(o))
  }

  /** The valued options, each present under its own condition and followed by its value. */
  function ValuedArgs(o: ScanOptions): (r: seq<string>)
    ensures |r| == (if o.filterLevel != UnsetFilterLevel then 2 else 0) + (if o.requests > 0 then 2 else 0)
                 + (if o.hostRequests > 0 then 2 else 0) + (if o.userAgent != "" then 2 else 0)
  {
    Opt(o.filterLevel != UnsetFilterLevel, [FilterLevelOption, IntToString(o.filterLevel)])
    + Opt(o.requests > 0, [RequestsOption, IntToString(o.requests)])
    + Opt(o.hostRequests > 0, [HostRequestsOption, IntToString(o.hostRequests)])
    + Opt(o.userAgent != "", [UserAgentOption, o.userAgent])
  }

  /** The keywords that survive trimming: each piece stripped, blank ones dropped, order kept. */
  function Kept(pieces: seq<string>): (ks: seq<string>)
    ensures |ks| <= |pieces|
  {
    if pieces == [] then [] else Opt(Strip(pieces[0]) != "", [Strip(pieces[0])]) + Kept(pieces[1..])
  }

  /** `--exclude k` for every keyword `k`, in order. */
  function ExcludeArgs(ks: seq<string>): (r: seq<string>)
    ensures |r| == 2 * |ks|
  {
    if ks == [] then [] else [ExcludeOption, ks[0]] + ExcludeArgs(ks[1..])
  }

  /** The command line `call_blc` hands to the process launcher. */
  function Argv(o: ScanOptions): seq<string> {
    [Program, o.url] + FlagArgs(o) + ValuedArgs(o) + ExcludeArgs(Kept(o.keywords))
  }

  /** After the program and the URL come the switches, the valued options and the `--exclude` pairs. */
  lemma ArgvTail(o: ScanOptions)
    ensures Argv(o)[2..] == FlagArgs(o) + ValuedArgs(o) + ExcludeArgs(Kept(o.keywords))
  {
    DropHead([Program, o.url], FlagArgs(o), ValuedArgs(o), ExcludeArgs(Kept(o.keywords)));
  }

  /**
   * The shape of the command line: the program and the URL first, the
   * `--exclude` pairs last, and one token per set switch plus two per passed
   * valued option and per kept keyword.
   */
  lemma ArgvLayout(o: ScanOptions)
    ensures |Argv(o)| == 2 + CountTrue(Switches(o))
      + (if o.filterLevel != UnsetFilterLevel then 2 else 0) + (if o.requests > 0 then 2 else 0)
      + (if o.hostRequests > 0 then 2 else 0) + (if o.userAgent != "" then 2 else 0)
      + 2 * |Kept(o.keywords)|
    ensures Argv(o)[0] == Program && Argv(o)[1] == o.url
    ensures Argv(o)[|Argv(o)| - 2 * |Kept(o.keywords)|..] == ExcludeArgs(Kept(o.keywords))
  {
    var head := [Program, o.url] + FlagArgs(o) + ValuedArgs(o);
    assert Argv(o) == head + ExcludeArgs(Kept(o.keywords));
  }

  lemma DropHead<T>(h: seq<T>, a: seq<T>, b: seq<T>, c: seq<T>)
    ensures (h + a + b + c)[|h|..] == a + b + c
  {
    assert h + a + b + c == h + (a + b + c);
  }

  /**
   * `call_blc`'s `command` list, grown one `append`/`extend` at a time: the
   * program and URL, then the switches, the valued options and the
   * `--exclude` pairs, each phase a method of its own below.
   */
  method BuildCommand(o: ScanOptions) returns (command: seq<string>)
    ensures command == Argv(o)
  {
    command := [Program, o.url];
    command := AppendSwitches(command, o);
    command := AppendValued(command, o);
    command := AppendExcludes(command, o.keywords);
  }

  /** The seven `if <switch>: command.append(<token>)` statements. */
  method AppendSwitches(command: seq<string>, o: ScanOptions) returns (c: seq<string>)
    ensures c == command + FlagArgs(o)
  {
    c := command;
    ghost var before, added := c, [];
    if o.excludeExternal { c := c + [ExcludeExternalFlag]; }
    AppendedWhen(before, c, command, added, o.excludeExternal, [ExcludeExternalFlag]);
    added := added + Opt(o.excludeExternal, [ExcludeExternalFlag]);
    before := c;
    if o.excludeInternal { c := c + [ExcludeInternalFlag]; }
    AppendedWhen(before, c, command, added, o.excludeInternal, [ExcludeInternalFlag]);
    added := added + Opt(o.excludeInternal, [ExcludeInternalFlag]);
    before := c;
    if o.recursive { c := c + [RecursiveFlag]; }
    AppendedWhen(before, c, command, added, o.recursive, [RecursiveFlag]);
    added := added + Opt(o.recursive, [RecursiveFlag]);
    before := c;
    if o.ordered { c := c + [OrderedFlag]; }
    AppendedWhen(before, c, command, added, o.ordered, [OrderedFlag]);
    added := added + Opt(o.ordered, [OrderedFlag]);
    before := c;
    if o.verbose { c := c + [VerboseFlag]; }
    AppendedWhen(before, c, command, added, o.verbose, [VerboseFlag]);
    added := added + Opt(o.verbose, [VerboseFlag]);
    before := c;
    if o.follow { c := c + [FollowFlag]; }
    AppendedWhen(before, c, command, added, o.follow, [FollowFlag]);
    added := added + Opt(o.follow, [FollowFlag]);
    before := c;
    if o.get { c := c + [GetFlag]; }
    AppendedWhen(before, c, command, added, o.get, [GetFlag]);
    added := added + Opt(o.get, [GetFlag]);
    FlagArgsUnrolled(o);
    assert [] + Opt(o.excludeExternal, [ExcludeExternalFlag]) == Opt(o.excludeExternal, [ExcludeExternalFlag]);
  }

  /** The four conditional `command.extend([<option>, <value>])` statements. */
  method AppendValued(command: seq<string>, o: ScanOptions) returns (c: seq<string>)
    ensures c == command + ValuedArgs(o)
  {
    c := command;
    ghost var before, added := c, [];
    if o.filterLevel != UnsetFilterLevel { c := c + [FilterLevelOption, IntToString(o.filterLevel)]; }
    AppendedWhen(before, c, command, added, o.filterLevel != UnsetFilterLevel, [FilterLevelOption, IntToString(o.filterLevel)]);
    added := added + Opt(o.filterLevel != UnsetFilterLevel, [FilterLevelOption, IntToString(o.filterLevel)]);
    before := c;
    if o.requests > 0 { c := c + [RequestsOption, IntToString(o.requests)]; }
    AppendedWhen(before, c, command, added, o.requests > 0, [RequestsOption, IntToString(o.requests)]);
    added := added + Opt(o.requests > 0, [RequestsOption, IntToString(o.requests)]);
    before := c;
    if o.hostRequests > 0 { c := c + [HostRequestsOption, IntToString(o.hostRequests)]; }
    AppendedWhen(before, c, command, added, o.hostRequests > 0, [HostRequestsOption, IntToString(o.hostRequests)]);
    added := added + Opt(o.hostRequests > 0, [HostRequestsOption, IntToString(o.hostRequests)]);
    before := c;
    if o.userAgent != "" { c := c + [UserAgentOption, o.userAgent]; }
    AppendedWhen(before, c, command, added, o.userAgent != "", [UserAgentOption, o.userAgent]);
    added := added + Opt(o.userAgent != "", [UserAgentOption, o.userAgent]);
    assert [] + Opt(o.filterLevel != UnsetFilterLevel, [FilterLevelOption, IntToString(o.filterLevel)])
      == Opt(o.filterLevel != UnsetFilterLevel, [FilterLevelOption, IntToString(o.filterLevel)]);
  }

  /** `for item in keywords: if item.strip(): command.extend(["--exclude", item.strip()])`. */
  method AppendExcludes(command: seq<string>, keywords: seq<string>) returns (c: seq<string>)
    ensures c == command + ExcludeArgs(Kept(keywords))
  {
    c := command;
    assert keywords[..0] == [];
    for i := 0 to |keywords|
      invariant c == command + ExcludeArgs(Kept(keywords[..i]))
    {
      var item := keywords[i];
      ghost var before := c;
      if Strip(item) != "" {
        c := c + [ExcludeOption, Strip(item)];
      }
      AppendedWhen(before, c, command, ExcludeArgs(Kept(keywords[..i])), Strip(item) != "", [ExcludeOption, Strip(item)]);
      ExcludeStep(keywords, i);
    }
    assert keywords[..|keywords|] == keywords;
  }

  /** One conditional append, as the handler does it, extends the command by `Opt(present, xs)`. */
  lemma AppendedWhen<T>(before: seq<T>, after: seq<T>, head: seq<T>, added: seq<T>, present: bool, xs: seq<T>)
    requires before == head + added
    requires after == if present then before + xs else before
    ensures after == head + (added + Opt(present, xs))
  {
  }

  /** `FlagArgs` written out as the handler's seven conditional appends. */
  lemma FlagArgsUnrolled(o: ScanOptions)
    ensures FlagArgs(o) ==
      Opt(o.excludeExternal, [ExcludeExternalFlag]) + Opt(o.excludeInternal, [ExcludeInternalFlag])
      + Opt(o.recursive, [RecursiveFlag]) + Opt(o.ordered, [OrderedFlag]) + Opt(o.verbose, [VerboseFlag])
      + Opt(o.follow, [FollowFlag]) + Opt(o.get, [GetFlag])
  {
    SelectedSeven(FlagTokens[0], FlagTokens[1], FlagTokens[2], FlagTokens[3], FlagTokens[4], FlagTokens[5], FlagTokens[6],
                  o.excludeExternal, o.excludeInternal, o.recursive, o.ordered, o.verbose, o.follow, o.get);
  }

  lemma SelectedSeven<T>(x0: T, x1: T, x2: T, x3: T, x4: T, x5: T, x6: T,
                         b0: bool, b1: bool, b2: bool, b3: bool, b4: bool, b5: bool, b6: bool)
    ensures Selected([x0, x1, x2, x3, x4, x5, x6], [b0, b1, b2, b3, b4, b5, b6]) ==
      Opt(b0, [x0]) + Opt(b1, [x1]) + Opt(b2, [x2]) + Opt(b3, [x3]) + Opt(b4, [x4]) + Opt(b5, [x5]) + Opt(b6, [x6])
  {
    SelectedOne(x0, b0);
    assert [x0] + [x1] == [x0, x1] && [b0] + [b1] == [b0, b1];
    assert [x0, x1] + [x2] == [x0, x1, x2] && [b0, b1] + [b2] == [b0, b1, b2];
    assert [x0, x1, x2] + [x3] == [x0, x1, x2, x3] && [b0, b1, b2] + [b3] == [b0, b1, b2, b3];
    assert [x0, x1, x2, x3] + [x4] == [x0, x1, x2, x3, x4] && [b0, b1, b2, b3] + [b4] == [b0, b1, b2, b3, b4];
    assert [x0, x1, x2, x3, x4] + [x5] == [x0, x1, x2, x3, x4, x5];
    assert [b0, b1, b2, b3, b4] + [b5] == [b0, b1, b2, b3, b4, b5];
    assert [x0, x1, x2, x3, x4, x5] + [x6] == [x0, x1, x2, x3, x4, x5, x6];
    assert [b0, b1, b2, b3, b4, b5] + [b6] == [b0, b1, b2, b3, b4, b5, b6];
    SelectedPush([x0], [b0], x1, b1);
    SelectedPush([x0, x1], [b0, b1], x2, b2);
    SelectedPush([x0, x1, x2], [b0, b1, b2], x3, b3);
    SelectedPush([x0, x1, x2, x3], [b0, b1, b2, b3], x4, b4);
    SelectedPush([x0, x1, x2, x3, x4], [b0, b1, b2, b3, b4], x5, b5);
    SelectedPush([x0, x1, x2, x3, x4, x5], [b0, b1, b2, b3, b4, b5], x6, b6);
  }

  lemma SelectedOne<T>(x: T, b: bool)
    ensures Selected([x], [b]) == Opt(b, [x])
  {
    assert [x][1..] == [] && [b][1..] == [];
    assert Opt(b, [x]) + [] == Opt(b, [x]);
  }

  lemma SelectedPush<T>(xs: seq<T>, on: seq<bool>, x: T, b: bool)
    requires |xs| == |on|
    ensures Selected(xs + [x], on + [b]) == Selected(xs, on) + Opt(b, [x])
  {
    SelectedAppend(xs, [x], on, [b]);
    SelectedOne(x, b);
  }

  /**
   * What `Selected` keeps: for distinct `xs`, an entry is kept exactly when its
   * switch is set, nothing is kept twice, and the kept entries keep their order
   * (entry `i` lands at the number of set switches before it).
   */
  lemma {:induction false} SelectedFacts<T>(xs: seq<T>, on: seq<bool>)
    requires |xs| == |on| && Distinct(xs)
    ensures forall x :: x in Selected(xs, on) ==> x in xs
    ensures forall i :: 0 <= i < |xs| ==> (xs[i] in Selected(xs, on) <==> on[i])
    ensures Distinct(Selected(xs, on))
    ensures forall i :: 0 <= i < |xs| && on[i] ==>
      CountTrue(on[..i]) < |Selected(xs, on)| && Selected(xs, on)[CountTrue(on[..i])] == xs[i]
    decreases |xs|
  {
    if xs != [] {
      var tail := Selected(xs[1..], on[1..]);
      var head := Opt(on[0], [xs[0]]);
      SelectedFacts(xs[1..], on[1..]);
      assert xs[0] !in tail by {
        assert forall j :: 0 <= j < |xs[1..]| ==> xs[1..][j] != xs[0];
      }
      forall i | 0 <= i < |xs| && on[i]
        ensures CountTrue(on[..i]) < |Selected(xs, on)| && Selected(xs, on)[CountTrue(on[..i])] == xs[i]
      {
        if i > 0 {
          assert on[..i][1..] == on[1..][..i - 1];
          assert on[1..][i - 1] == on[i] && xs[1..][i - 1] == xs[i];
        }
      }
      forall i | 0 < i < |xs| ensures xs[i] in Selected(xs, on) <==> on[i] {
        assert xs[1..][i - 1] == xs[i] && on[1..][i - 1] == on[i];
      }
    }
  }

  lemma SelectedHas<T>(xs: seq<T>, on: seq<bool>, i: nat)
    requires |xs| == |on| && Distinct(xs) && i < |xs|
    ensures xs[i] in Selected(xs, on) <==> on[i]
  {
    SelectedFacts(xs, on);
  }

  lemma {:induction false} SelectedAppend<T>(a: seq<T>, b: seq<T>, p: seq<bool>, q: seq<bool>)
    requires |a| == |p| && |b| == |q|
    ensures Selected(a + b, p + q) == Selected(a, p) + Selected(b, q)
    decreases |a|
  {
    if a == [] {
      assert a + b == b && p + q == q;
    } else {
      var head := Opt(p[0], [a[0]]);
      assert Selected(a + b, p + q) == head + Selected(a[1..] + b, p[1..] + q) by {
        assert (a + b)[0] == a[0] && (p + q)[0] == p[0];
        assert (a + b)[1..] == a[1..] + b && (p + q)[1..] == p[1..] + q;
      }
      SelectedAppend(a[1..], b, p[1..], q);
      assert head + (Selected(a[1..], p[1..]) + Selected(b, q)) == (head + Selected(a[1..], p[1..])) + Selected(b, q);
    }
  }

  /** Taking one more switch into account appends its token, if set. */
  lemma SelectedSnoc<T>(xs: seq<T>, on: seq<bool>, k: nat)
    requires |xs| == |on| && k < |xs|
    ensures Selected(xs[..k + 1], on[..k + 1]) == Selected(xs[..k], on[..k]) + Opt(on[k], [xs[k]])
  {
    assert xs[..k + 1] == xs[..k] + [xs[k]] && on[..k + 1] == on[..k] + [on[k]];
    SelectedAppend(xs[..k], [xs[k]], on[..k], [on[k]]);
    assert Selected([xs[k]], [on[k]]) == Opt(on[k], [xs[k]]) + Selected([], []);
  }

  lemma {:induction false} KeptAppend(a: seq<string>, b: seq<string>)
    ensures Kept(a + b) == Kept(a) + Kept(b)
    decreases |a|
  {
    if a != [] {
      KeptAppend(a[1..], b);
      assert (a + b)[1..] == a[1..] + b;
    } else {
      assert a + b == b;
    }
  }

  /** One more piece adds its stripped form, if non-blank, at the end. */
  lemma KeptStep(pieces: seq<string>, i: nat)
    requires i < |pieces|
    ensures Kept(pieces[..i + 1]) == Kept(pieces[..i]) + Opt(Strip(pieces[i]) != "", [Strip(pieces[i])])
  {
    assert pieces[..i + 1] == pieces[..i] + [pieces[i]];
    KeptAppend(pieces[..i], [pieces[i]]);
  }

  /** One more keyword piece adds `--exclude` and its stripped form, if non-blank, at the end. */
  lemma ExcludeStep(pieces: seq<string>, i: nat)
    requires i < |pieces|
    ensures var k := Strip(pieces[i]);
      ExcludeArgs(Kept(pieces[..i + 1])) == ExcludeArgs(Kept(pieces[..i])) + Opt(k != "", [ExcludeOption, k])
  {
    var k := Strip(pieces[i]);
    KeptStep(pieces, i);
    ExcludeArgsAppend(Kept(pieces[..i]), Opt(k != "", [k]));
    assert ExcludeArgs([k]) == [ExcludeOption, k] + ExcludeArgs([]);
  }

  lemma {:induction false} ExcludeArgsAppend(a: seq<string>, b: seq<string>)
    ensures ExcludeArgs(a + b) == ExcludeArgs(a) + ExcludeArgs(b)
    decreases |a|
  {
    if a != [] {
      ExcludeArgsAppend(a[1..], b);
      assert (a + b)[1..] == a[1..] + b;
    } else {
      assert a + b == b;
    }
  }

  /** Every keyword that survives trimming is non-blank and already trimmed. */
  lemma {:induction false} KeptClean(pieces: seq<string>)
    ensures forall i :: 0 <= i < |Kept(pieces)| ==> Kept(pieces)[i] != "" && Strip(Kept(pieces)[i]) == Kept(pieces)[i]
    decreases |pieces|
  {
    if pieces != [] {
      KeptClean(pieces[1..]);
      StripIdempotent(pieces[0]);
    }
  }

  /** The kept keywords are exactly the non-blank stripped pieces. */
  lemma {:induction false} KeptMembers(pieces: seq<string>)
    ensures forall k :: k in Kept(pieces) ==> exists i :: 0 <= i < |pieces| && k == Strip(pieces[i])
    ensures forall i :: 0 <= i < |pieces| && Strip(pieces[i]) != "" ==> Strip(pieces[i]) in Kept(pieces)
    decreases |pieces|
  {
    if pieces != [] {
      var rest := pieces[1..];
      KeptMembers(rest);
      forall k | k in Kept(pieces) ensures exists i :: 0 <= i < |pieces| && k == Strip(pieces[i]) {
        if k in Kept(rest) {
          var j :| 0 <= j < |rest| && k == Strip(rest[j]);
          assert k == Strip(pieces[j + 1]);
        } else {
          assert k == Strip(pieces[0]);
        }
      }
      forall i | 0 <= i < |pieces| && Strip(pieces[i]) != "" ensures Strip(pieces[i]) in Kept(pieces) {
        if i > 0 {
          assert pieces[i] == rest[i - 1];
        }
      }
    }
  }

  /** Pieces that are all non-blank and trimmed are kept as they are. */
  lemma {:induction false} KeptUnchanged(pieces: seq<string>)
    requires forall i :: 0 <= i < |pieces| ==> pieces[i] != "" && Strip(pieces[i]) == pieces[i]
    ensures Kept(pieces) == pieces
    decreases |pieces|
  {
    if pieces != [] {
      KeptUnchanged(pieces[1..]);
    }
  }

  /** The `--exclude` pairs: position `2i` holds the option and `2i + 1` the `i`-th keyword. */
  lemma {:induction false} ExcludeLayout(ks: seq<string>)
    ensures forall i :: 0 <= i < |ks| ==> ExcludeArgs(ks)[2 * i] == ExcludeOption && ExcludeArgs(ks)[2 * i + 1] == ks[i]
    decreases |ks|
  {
    if ks != [] {
      ExcludeLayout(ks[1..]);
      var r := ExcludeArgs(ks);
      forall i | 1 <= i < |ks| ensures r[2 * i] == ExcludeOption && r[2 * i + 1] == ks[i] {
        assert r[2 * i] == ExcludeArgs(ks[1..])[2 * (i - 1)];
        assert r[2 * i + 1] == ExcludeArgs(ks[1..])[2 * (i - 1) + 1];
      }
    }
  }
}

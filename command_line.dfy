/**
 * A positional reader, defined here, for the command line `call_blc` builds:
 * the first argument is taken as the URL whatever it says, a switch token
 * stands alone, and every other option takes the token that follows it as its
 * value. It is not `blc`'s own option parser. Reading `Argv(o)` back recovers the options (in the
 * canonical form `Canonical`) and the option names in the order they occur, so
 * the command line says exactly what the options say and nothing else.
 */
module CommandLine {
  import opened Wrappers
  import opened Options
  import opened PyStr
  import opened Decimal
  import opened Command

  /** The options that take a value, in the order the handler appends them. */
  const ValuedOptions: seq<string> := [FilterLevelOption, RequestsOption, HostRequestsOption, UserAgentOption]

  /** Every option name other than `--exclude`, in command-line order. */
  const OptionTable: seq<string> := FlagTokens + ValuedOptions

  /** When each valued option is passed, position for position with `ValuedOptions`. */
  function ValuedPresent(o: ScanOptions): (p: seq<bool>)
    ensures |p| == |ValuedOptions|
  {
    [o.filterLevel != UnsetFilterLevel, o.requests > 0, o.hostRequests > 0, o.userAgent != ""]
  }

  /** When each entry of `OptionTable` is passed. */
  function Present(o: ScanOptions): (p: seq<bool>)
    ensures |p| == |OptionTable|
  {
    Switches(o) + ValuedPresent(o)
  }

  /** What the reader has gathered so far: the options, and the option names in the order seen. */
  datatype Reading = Reading(options: ScanOptions, names: seq<string>)

  /** The options before any argument is read: every switch off, every valued option unset, no keywords. */
  function Unset(url: string): ScanOptions {
    ScanOptions(url, false, false, false, false, false, false, false, UnsetFilterLevel, 0, 0, "", [])
  }

  /** Turns on the switch named `t`. */
  function Raise(o: ScanOptions, t: string): ScanOptions {
    if t == ExcludeExternalFlag then o.(excludeExternal := true)
    else if t == ExcludeInternalFlag then o.(excludeInternal := true)
    else if t == RecursiveFlag then o.(recursive := true)
    else if t == OrderedFlag then o.(ordered := true)
    else if t == VerboseFlag then o.(verbose := true)
    else if t == FollowFlag then o.(follow := true)
    else if t == GetFlag then o.(get := true)
    else o
  }

  /** Gives option `t` the value `v`; `None` for an unknown option or a count that is not a decimal integer. */
  function Assign(o: ScanOptions, t: string, v: string): Option<ScanOptions> {
    if t == FilterLevelOption then
      (match ParseInt(v) case Some(n) => Some(o.(filterLevel := n)) case None => None)
    else if t == RequestsOption then
      (match ParseInt(v) case Some(n) => Some(o.(requests := n)) case None => None)
    else if t == HostRequestsOption then
      (match ParseInt(v) case Some(n) => Some(o.(hostRequests := n)) case None => None)
    else if t == UserAgentOption then Some(o.(userAgent := v))
    else if t == ExcludeOption then Some(o.(keywords := o.keywords + [v]))
    else None
  }

  /** Reads the arguments after the URL; `None` for an unknown option or one missing its value. */
  function ReadArgs(ts: seq<string>, r: Reading): Option<Reading>
    decreases |ts|
  {
    if ts == [] then Some(r)
    else if ts[0] in FlagTokens then ReadArgs(ts[1..], Reading(Raise(r.options, ts[0]), r.names + [ts[0]]))
    else if |ts| == 1 then None
    else match Assign(r.options, ts[0], ts[1])
      case None => None
      case Some(a) => ReadArgs(ts[2..], Reading(a, r.names + [ts[0]]))
  }

  /** Reads a whole command line: the program, the URL, then the options. */
  function ReadCommand(argv: seq<string>): Option<Reading> {
    if |argv| < 2 || argv[0] != Program then None
    else ReadArgs(argv[2..], Reading(Unset(argv[1]), []))
  }

  /**
   * The options as the command line carries them: a non-positive request
   * count is the same as none, and the keywords are the non-blank ones,
   * stripped.
   */
  function Canonical(o: ScanOptions): ScanOptions {
    o.(requests := if o.requests > 0 then o.requests else 0,
       hostRequests := if o.hostRequests > 0 then o.hostRequests else 0,
       keywords := Kept(o.keywords))
  }

  function Repeat(t: string, n: nat): (r: seq<string>)
    ensures |r| == n
    ensures forall i :: 0 <= i < n ==> r[i] == t
  {
    if n == 0 then [] else [t] + Repeat(t, n - 1)
  }

  /** The option names of `OptionTable` are pairwise different, and none of them is `--exclude`. */
  lemma OptionTableDistinct()
    ensures Distinct(OptionTable)
    ensures ExcludeOption !in OptionTable
    ensures forall i :: 0 <= i < |FlagTokens| ==> FlagTokens[i] == OptionTable[i]
  {
  }

  lemma FlagTokensDistinct()
    ensures Distinct(FlagTokens)
  {
  }

  /** No option that takes a value is spelled like a switch. */
  lemma ValuedNotSwitches()
    ensures FilterLevelOption !in FlagTokens && RequestsOption !in FlagTokens
    ensures HostRequestsOption !in FlagTokens && UserAgentOption !in FlagTokens
    ensures ExcludeOption !in FlagTokens
  {
  }

  /** Reading a complete stretch of arguments and then the rest is reading the two in turn. */
  lemma {:induction false} ReadConcat(x: seq<string>, y: seq<string>, r: Reading)
    requires ReadArgs(x, r).Some?
    ensures ReadArgs(x + y, r) == ReadArgs(y, ReadArgs(x, r).value)
    decreases |x|
  {
    if x == [] {
      assert x + y == y;
    } else if x[0] in FlagTokens {
      assert (x + y)[1..] == x[1..] + y;
      ReadConcat(x[1..], y, Reading(Raise(r.options, x[0]), r.names + [x[0]]));
    } else {
      assert (x + y)[2..] == x[2..] + y;
      var a := Assign(r.options, x[0], x[1]).value;
      ReadConcat(x[2..], y, Reading(a, r.names + [x[0]]));
    }
  }

  /** A switch the handler may append, read on its own. */
  lemma ReadSwitch(b: bool, t: string, r: Reading)
    requires t in FlagTokens
    ensures ReadArgs(Opt(b, [t]), r) == Some(if b then Reading(Raise(r.options, t), r.names + [t]) else r)
  {
    if b {
      assert [t][1..] == [];
    }
  }

  /** A valued option the handler may append, read on its own. */
  lemma ReadValued(b: bool, t: string, v: string, r: Reading)
    requires t !in FlagTokens && Assign(r.options, t, v).Some?
    ensures ReadArgs(Opt(b, [t, v]), r) == Some(if b then Reading(Assign(r.options, t, v).value, r.names + [t]) else r)
  {
    if b {
      assert [t, v][2..] == [];
    }
  }

  /** Turns on, in turn, the switch named by each token. */
  function RaiseAll(o: ScanOptions, ts: seq<string>): ScanOptions
    decreases |ts|
  {
    if ts == [] then o else RaiseAll(Raise(o, ts[0]), ts[1..])
  }

  /** Raising a run of switch tokens turns on exactly the switches named in it and changes nothing else. */
  lemma {:induction false} RaiseAllNamed(o: ScanOptions, ts: seq<string>)
    ensures RaiseAll(o, ts) ==
      o.(excludeExternal := o.excludeExternal || ExcludeExternalFlag in ts,
         excludeInternal := o.excludeInternal || ExcludeInternalFlag in ts,
         recursive := o.recursive || RecursiveFlag in ts,
         ordered := o.ordered || OrderedFlag in ts,
         verbose := o.verbose || VerboseFlag in ts,
         follow := o.follow || FollowFlag in ts,
         get := o.get || GetFlag in ts)
    decreases |ts|
  {
    if ts != [] {
      RaiseNamed(o, ts[0]);
      RaiseAllNamed(Raise(o, ts[0]), ts[1..]);
      forall t ensures t in ts <==> t == ts[0] || t in ts[1..] {
        assert ts == [ts[0]] + ts[1..];
      }
    }
  }

  lemma RaiseNamed(o: ScanOptions, t: string)
    ensures Raise(o, t) ==
      o.(excludeExternal := o.excludeExternal || t == ExcludeExternalFlag,
         excludeInternal := o.excludeInternal || t == ExcludeInternalFlag,
         recursive := o.recursive || t == RecursiveFlag,
         ordered := o.ordered || t == OrderedFlag,
         verbose := o.verbose || t == VerboseFlag,
         follow := o.follow || t == FollowFlag,
         get := o.get || t == GetFlag)
  {
  }

  /** The switch tokens the handler appends name exactly the switches that are on. */
  lemma FlagArgsNamed(o: ScanOptions)
    ensures forall i :: 0 <= i < |FlagArgs(o)| ==> FlagArgs(o)[i] in FlagTokens
    ensures ExcludeExternalFlag in FlagArgs(o) <==> o.excludeExternal
    ensures ExcludeInternalFlag in FlagArgs(o) <==> o.excludeInternal
    ensures RecursiveFlag in FlagArgs(o) <==> o.recursive
    ensures OrderedFlag in FlagArgs(o) <==> o.ordered
    ensures VerboseFlag in FlagArgs(o) <==> o.verbose
    ensures FollowFlag in FlagArgs(o) <==> o.follow
    ensures GetFlag in FlagArgs(o) <==> o.get
  {
    var sw := Switches(o);
    FlagTokensDistinct();
    SelectedHas(FlagTokens, sw, 0);
    SelectedHas(FlagTokens, sw, 1);
    SelectedHas(FlagTokens, sw, 2);
    SelectedHas(FlagTokens, sw, 3);
    SelectedHas(FlagTokens, sw, 4);
    SelectedHas(FlagTokens, sw, 5);
    SelectedHas(FlagTokens, sw, 6);
    forall i | 0 <= i < |FlagArgs(o)| ensures FlagArgs(o)[i] in FlagTokens {
      SelectedFacts(FlagTokens, sw);
    }
  }

  /** A run of switch tokens reads as those switches turned on, with the tokens as the names seen. */
  lemma {:induction false} ReadSwitchRun(ts: seq<string>, r: Reading)
    requires forall i :: 0 <= i < |ts| ==> ts[i] in FlagTokens
    ensures ReadArgs(ts, r) == Some(Reading(RaiseAll(r.options, ts), r.names + ts))
    decreases |ts|
  {
    if ts == [] {
      assert r.names + ts == r.names;
    } else {
      ReadSwitchRun(ts[1..], Reading(Raise(r.options, ts[0]), r.names + [ts[0]]));
      assert r.names + [ts[0]] + ts[1..] == r.names + ts;
    }
  }

  /** The switches the handler appends turn on exactly the options' switches, and touch nothing else. */
  lemma ReadFlagArgs(o: ScanOptions, r: Reading)
    ensures var a := r.options;
      ReadArgs(FlagArgs(o), r) == Some(Reading(
        a.(excludeExternal := a.excludeExternal || o.excludeExternal, excludeInternal := a.excludeInternal || o.excludeInternal,
           recursive := a.recursive || o.recursive, ordered := a.ordered || o.ordered, verbose := a.verbose || o.verbose,
           follow := a.follow || o.follow, get := a.get || o.get),
        r.names + FlagArgs(o)))
  {
    FlagArgsNamed(o);
    ReadSwitchRun(FlagArgs(o), r);
    RaiseAllNamed(r.options, FlagArgs(o));
  }

  /** Reading one more valued option the handler may append, after a complete stretch. */
  lemma ReadValuedAfter(x: seq<string>, b: bool, t: string, v: string, r: Reading, a: ScanOptions, n: seq<string>)
    requires t !in FlagTokens && ReadArgs(x, r) == Some(Reading(a, r.names + n)) && Assign(a, t, v).Some?
    ensures ReadArgs(x + Opt(b, [t, v]), r) == Some(Reading(if b then Assign(a, t, v).value else a, r.names + (n + Opt(b, [t]))))
  {
    ReadConcat(x, Opt(b, [t, v]), r);
    ReadValued(b, t, v, Reading(a, r.names + n));
    if b {
      assert r.names + n + [t] == r.names + (n + [t]);
    } else {
      assert n + [] == n;
    }
  }

  /** Each valued option, given the value the handler renders for it, sets exactly its own field. */
  lemma AssignEach(a: ScanOptions, o: ScanOptions)
    ensures Assign(a, FilterLevelOption, IntToString(o.filterLevel)) == Some(a.(filterLevel := o.filterLevel))
    ensures Assign(a, RequestsOption, IntToString(o.requests)) == Some(a.(requests := o.requests))
    ensures Assign(a, HostRequestsOption, IntToString(o.hostRequests)) == Some(a.(hostRequests := o.hostRequests))
    ensures Assign(a, UserAgentOption, o.userAgent) == Some(a.(userAgent := o.userAgent))
  {
    IntToStringRoundTrip(o.filterLevel);
    IntToStringRoundTrip(o.requests);
    IntToStringRoundTrip(o.hostRequests);
  }

  /** The value the handler renders for the `i`-th valued option. */
  function ValuedValue(o: ScanOptions, i: nat): string
    requires i < |ValuedOptions|
  {
    [IntToString(o.filterLevel), IntToString(o.requests), IntToString(o.hostRequests), o.userAgent][i]
  }

  /** The tokens of the first `k` valued options, as the handler appends them. */
  function ValuedUpTo(o: ScanOptions, k: nat): seq<string>
    requires k <= |ValuedOptions|
  {
    if k == 0 then [] else ValuedUpTo(o, k - 1) + Opt(ValuedPresent(o)[k - 1], [ValuedOptions[k - 1], ValuedValue(o, k - 1)])
  }

  /** The options once the first `k` valued options have been read. */
  function ValuedRead(a: ScanOptions, o: ScanOptions, k: nat): ScanOptions {
    a.(filterLevel := if k > 0 && o.filterLevel != UnsetFilterLevel then o.filterLevel else a.filterLevel,
       requests := if k > 1 && o.requests > 0 then o.requests else a.requests,
       hostRequests := if k > 2 && o.hostRequests > 0 then o.hostRequests else a.hostRequests,
       userAgent := if k > 3 && o.userAgent != "" then o.userAgent else a.userAgent)
  }

  /** What reading the first `k` valued options the handler appends yields. */
  predicate ReadsValuedUpTo(o: ScanOptions, r: Reading, k: nat)
    requires k <= |ValuedOptions|
  {
    ReadArgs(ValuedUpTo(o, k), r) ==
      Some(Reading(ValuedRead(r.options, o, k), r.names + Selected(ValuedOptions[..k], ValuedPresent(o)[..k])))
  }

  lemma ReadNoValued(o: ScanOptions, r: Reading)
    ensures ReadsValuedUpTo(o, r, 0)
  {
    assert r.names + [] == r.names;
    assert ValuedRead(r.options, o, 0) == r.options;
  }

  lemma ReadValued1(o: ScanOptions, r: Reading)
    requires ReadsValuedUpTo(o, r, 0)
    ensures ReadsValuedUpTo(o, r, 1)
  {
    var a := ValuedRead(r.options, o, 0);
    var x := ValuedUpTo(o, 0);
    var n := Selected(ValuedOptions[..0], ValuedPresent(o)[..0]);
    SelectedSnoc(ValuedOptions, ValuedPresent(o), 0);
    ValuedNotSwitches();
    AssignEach(a, o);
    assert ValuedUpTo(o, 1) == x + Opt(o.filterLevel != UnsetFilterLevel, [FilterLevelOption, IntToString(o.filterLevel)]);
    assert ValuedRead(r.options, o, 1) == if o.filterLevel != UnsetFilterLevel then a.(filterLevel := o.filterLevel) else a;
    assert Selected(ValuedOptions[..1], ValuedPresent(o)[..1]) == n + Opt(o.filterLevel != UnsetFilterLevel, [FilterLevelOption]);
    ReadValuedAfter(x, o.filterLevel != UnsetFilterLevel, FilterLevelOption, IntToString(o.filterLevel), r, a, n);
  }

  lemma ReadValued2(o: ScanOptions, r: Reading)
    requires ReadsValuedUpTo(o, r, 1)
    ensures ReadsValuedUpTo(o, r, 2)
  {
    var a := ValuedRead(r.options, o, 1);
    var x := ValuedUpTo(o, 1);
    var n := Selected(ValuedOptions[..1], ValuedPresent(o)[..1]);
    SelectedSnoc(ValuedOptions, ValuedPresent(o), 1);
    ValuedNotSwitches();
    AssignEach(a, o);
    assert ValuedUpTo(o, 2) == x + Opt(o.requests > 0, [RequestsOption, IntToString(o.requests)]);
    assert ValuedRead(r.options, o, 2) == if o.requests > 0 then a.(requests := o.requests) else a;
    assert Selected(ValuedOptions[..2], ValuedPresent(o)[..2]) == n + Opt(o.requests > 0, [RequestsOption]);
    ReadValuedAfter(x, o.requests > 0, RequestsOption, IntToString(o.requests), r, a, n);
  }

  lemma ReadValued3(o: ScanOptions, r: Reading)
    requires ReadsValuedUpTo(o, r, 2)
    ensures ReadsValuedUpTo(o, r, 3)
  {
    var a := ValuedRead(r.options, o, 2);
    var x := ValuedUpTo(o, 2);
    var n := Selected(ValuedOptions[..2], ValuedPresent(o)[..2]);
    SelectedSnoc(ValuedOptions, ValuedPresent(o), 2);
    ValuedNotSwitches();
    AssignEach(a, o);
    assert ValuedUpTo(o, 3) == x + Opt(o.hostRequests > 0, [HostRequestsOption, IntToString(o.hostRequests)]);
    assert ValuedRead(r.options, o, 3) == if o.hostRequests > 0 then a.(hostRequests := o.hostRequests) else a;
    assert Selected(ValuedOptions[..3], ValuedPresent(o)[..3]) == n + Opt(o.hostRequests > 0, [HostRequestsOption]);
    ReadValuedAfter(x, o.hostRequests > 0, HostRequestsOption, IntToString(o.hostRequests), r, a, n);
  }

  lemma ReadValued4(o: ScanOptions, r: Reading)
    requires ReadsValuedUpTo(o, r, 3)
    ensures ReadsValuedUpTo(o, r, 4)
  {
    var a := ValuedRead(r.options, o, 3);
    var x := ValuedUpTo(o, 3);
    var n := Selected(ValuedOptions[..3], ValuedPresent(o)[..3]);
    SelectedSnoc(ValuedOptions, ValuedPresent(o), 3);
    ValuedNotSwitches();
    AssignEach(a, o);
    assert ValuedUpTo(o, 4) == x + Opt(o.userAgent != "", [UserAgentOption, o.userAgent]);
    assert ValuedRead(r.options, o, 4) == if o.userAgent != "" then a.(userAgent := o.userAgent) else a;
    assert Selected(ValuedOptions[..4], ValuedPresent(o)[..4]) == n + Opt(o.userAgent != "", [UserAgentOption]);
    ReadValuedAfter(x, o.userAgent != "", UserAgentOption, o.userAgent, r, a, n);
  }

  /** The valued options the handler appends set exactly the fields whose option is passed, to the options' values. */
  lemma ReadValuedArgs(o: ScanOptions, r: Reading)
    ensures ReadArgs(ValuedArgs(o), r) ==
      Some(Reading(ValuedRead(r.options, o, 4), r.names + Selected(ValuedOptions, ValuedPresent(o))))
  {
    ReadNoValued(o, r);
    ReadValued1(o, r);
    ReadValued2(o, r);
    ReadValued3(o, r);
    ReadValued4(o, r);
    assert ValuedUpTo(o, 4) == ValuedArgs(o) by {
      assert ValuedUpTo(o, 0) == [];
      assert [] + Opt(o.filterLevel != UnsetFilterLevel, [FilterLevelOption, IntToString(o.filterLevel)])
        == Opt(o.filterLevel != UnsetFilterLevel, [FilterLevelOption, IntToString(o.filterLevel)]);
    }
    assert ValuedOptions[..4] == ValuedOptions && ValuedPresent(o)[..4] == ValuedPresent(o);
  }

  /** The `--exclude` pairs read as the keywords, in order, each seen under the name `--exclude`. */
  lemma {:induction false} ReadExcludes(ks: seq<string>, r: Reading)
    ensures ReadArgs(ExcludeArgs(ks), r) ==
      Some(Reading(r.options.(keywords := r.options.keywords + ks), r.names + Repeat(ExcludeOption, |ks|)))
    decreases |ks|
  {
    if ks == [] {
      assert r.options.keywords + ks == r.options.keywords && r.names + [] == r.names;
    } else {
      var ts := ExcludeArgs(ks);
      var r1 := Reading(r.options.(keywords := r.options.keywords + [ks[0]]), r.names + [ExcludeOption]);
      ValuedNotSwitches();
      assert ts[0] == ExcludeOption && ts[1] == ks[0] && ts[2..] == ExcludeArgs(ks[1..]);
      assert Assign(r.options, ExcludeOption, ks[0]) == Some(r1.options);
      ReadExcludes(ks[1..], r1);
      assert r.options.keywords + [ks[0]] + ks[1..] == r.options.keywords + ks;
      assert r.names + [ExcludeOption] + Repeat(ExcludeOption, |ks| - 1) == r.names + Repeat(ExcludeOption, |ks|);
    }
  }

  /**
   * Round trip: reading back the command line `call_blc` builds gives the
   * options themselves (up to `Canonical`), and sees every option of
   * `OptionTable` whose condition holds, once each, in table order, followed
   * by one `--exclude` per kept keyword.
   */
  lemma ReadArgv(o: ScanOptions)
    ensures ReadCommand(Argv(o)) ==
      Some(Reading(Canonical(o), Selected(OptionTable, Present(o)) + Repeat(ExcludeOption, |Kept(o.keywords)|)))
  {
    var f := FlagArgs(o);
    var fv := f + Selected(ValuedOptions, ValuedPresent(o));
    ReadArgvSwitches(o);
    ReadArgvValued(o);
    ReadArgvExcludes(o);
    ReadThree(f, ValuedArgs(o), ExcludeArgs(Kept(o.keywords)), Reading(Unset(o.url), []),
              Reading(SwitchesRead(o), f), Reading(ValuedRead(SwitchesRead(o), o, 4), fv),
              Reading(Canonical(o), Selected(OptionTable, Present(o)) + Repeat(ExcludeOption, |Kept(o.keywords)|)));
    ArgvTail(o);
  }

  /** The options once the switches of `o` have been read. */
  function SwitchesRead(o: ScanOptions): ScanOptions {
    Unset(o.url).(excludeExternal := o.excludeExternal, excludeInternal := o.excludeInternal,
                  recursive := o.recursive, ordered := o.ordered, verbose := o.verbose,
                  follow := o.follow, get := o.get)
  }

  lemma ReadArgvSwitches(o: ScanOptions)
    ensures ReadArgs(FlagArgs(o), Reading(Unset(o.url), [])) == Some(Reading(SwitchesRead(o), FlagArgs(o)))
  {
    ReadFlagArgs(o, Reading(Unset(o.url), []));
    assert [] + FlagArgs(o) == FlagArgs(o);
  }

  lemma ReadArgvValued(o: ScanOptions)
    ensures ReadArgs(ValuedArgs(o), Reading(SwitchesRead(o), FlagArgs(o))) ==
      Some(Reading(ValuedRead(SwitchesRead(o), o, 4), FlagArgs(o) + Selected(ValuedOptions, ValuedPresent(o))))
  {
    ReadValuedArgs(o, Reading(SwitchesRead(o), FlagArgs(o)));
  }

  lemma ReadArgvExcludes(o: ScanOptions)
    ensures ReadArgs(ExcludeArgs(Kept(o.keywords)),
                     Reading(ValuedRead(SwitchesRead(o), o, 4), FlagArgs(o) + Selected(ValuedOptions, ValuedPresent(o)))) ==
      Some(Reading(Canonical(o), Selected(OptionTable, Present(o)) + Repeat(ExcludeOption, |Kept(o.keywords)|)))
  {
    var ks := Kept(o.keywords);
    ReadExcludes(ks, Reading(ValuedRead(SwitchesRead(o), o, 4), FlagArgs(o) + Selected(ValuedOptions, ValuedPresent(o))));
    assert ValuedRead(SwitchesRead(o), o, 4).(keywords := [] + ks) == Canonical(o);
    SelectedAppend(FlagTokens, ValuedOptions, Switches(o), ValuedPresent(o));
  }

  lemma ReadThree(x: seq<string>, y: seq<string>, z: seq<string>, r0: Reading, r1: Reading, r2: Reading, r3: Reading)
    requires ReadArgs(x, r0) == Some(r1) && ReadArgs(y, r1) == Some(r2) && ReadArgs(z, r2) == Some(r3)
    ensures ReadArgs(x + y + z, r0) == Some(r3)
  {
    ReadConcat(x, y, r0);
    ReadConcat(x + y, z, r0);
  }

  /**
   * Read back by the positional reader, the command line passes each option of
   * `OptionTable` exactly when its condition holds, at most once, in table
   * order; only `--exclude` may occur more than once, once per kept keyword.
   */
  lemma ArgvOptionNames(o: ScanOptions)
    ensures ReadCommand(Argv(o)).Some?
    ensures var names := ReadCommand(Argv(o)).value.names;
      && (forall i :: 0 <= i < |OptionTable| ==> (OptionTable[i] in names <==> Present(o)[i]))
      && (forall i :: 0 <= i < |OptionTable| && Present(o)[i] ==>
            CountTrue(Present(o)[..i]) < |names| && names[CountTrue(Present(o)[..i])] == OptionTable[i])
      && (forall p, q :: 0 <= p < q < |names| && names[p] == names[q] ==> names[p] == ExcludeOption)
      && |names| == CountTrue(Present(o)) + |Kept(o.keywords)|
      && (forall p :: CountTrue(Present(o)) <= p < |names| ==> names[p] == ExcludeOption)
  {
    ReadArgv(o);
    var sel := Selected(OptionTable, Present(o));
    var rep := Repeat(ExcludeOption, |Kept(o.keywords)|);
    var names := sel + rep;
    OptionTableDistinct();
    SelectedFacts(OptionTable, Present(o));
    forall i | 0 <= i < |OptionTable| ensures OptionTable[i] in names <==> Present(o)[i] {
      assert OptionTable[i] !in rep;
    }
    forall p, q | 0 <= p < q < |names| ensures names[p] == names[q] ==> names[p] == ExcludeOption {
      if q < |sel| {
        assert sel[p] != sel[q];
      } else if p < |sel| {
        assert sel[p] in OptionTable;
      }
    }
  }

  /** Stripping and dropping blanks a second time changes nothing. */
  lemma {:induction false} KeptIdempotent(pieces: seq<string>)
    ensures Kept(Kept(pieces)) == Kept(pieces)
    decreases |pieces|
  {
    if pieces != [] {
      var k := Strip(pieces[0]);
      KeptIdempotent(pieces[1..]);
      KeptAppend(Opt(k != "", [k]), Kept(pieces[1..]));
      if k != "" {
        StripIdempotent(pieces[0]);
        assert Kept([k]) == Opt(Strip(k) != "", [Strip(k)]) + Kept([]);
      }
    }
  }

  /** The command line already determines the canonical options: building it from them gives the same line. */
  lemma ArgvCanonical(o: ScanOptions)
    ensures Argv(Canonical(o)) == Argv(o)
  {
    KeptIdempotent(o.keywords);
    assert Switches(Canonical(o)) == Switches(o);
    assert ValuedArgs(Canonical(o)) == ValuedArgs(o);
  }

  /** Two option records give the same command line exactly when they agree up to `Canonical`. */
  lemma ArgvInjective(o1: ScanOptions, o2: ScanOptions)
    ensures Argv(o1) == Argv(o2) <==> Canonical(o1) == Canonical(o2)
  {
    ReadArgv(o1);
    ReadArgv(o2);
    ArgvCanonical(o1);
    ArgvCanonical(o2);
  }
}

/** What files, environment lists and repeated flags come to in the parser of absl/flags/parse.cc, said with
    the file names, the variables and the arguments themselves. */
module FlagMeaning {
  import opened FlagText
  import opened FlagExpansion
  import opened FlagStack
  import opened FlagParser
  import opened FlagResults
  import opened FlagCrashes

  // ---------------------------------------------------------------------------------------------
  // Flagfiles
  // ---------------------------------------------------------------------------------------------

  /** The lines of a flagfile that count, one by one. */
  lemma OneLine(line: string)
    ensures var t, args := StripLeading(line), LineArgs([line]);
            if t == "" || t[0] == '#' then args == Some([])
            else if t[0] == '-' && t != "--" then args == Some([t])
            else args == None
  {
    hide StripLeading;
    assert [line][1..] == [] && LineArgs([]) == Some([]);
    assert [StripLeading(line)] + [] == [StripLeading(line)];
  }

  /** A file is read line by line: it fails when one of its parts fails, and the arguments stay in order. */
  lemma {:induction false} LinesInOrder(a: seq<string>, b: seq<string>)
    ensures LineArgs(a + b).Some? <==> LineArgs(a).Some? && LineArgs(b).Some?
    ensures LineArgs(a + b).Some? ==> LineArgs(a + b).value == LineArgs(a).value + LineArgs(b).value
    decreases |a|
  {
    hide StripLeading;
    if a == [] {
      assert a + b == b;
    } else {
      assert (a + b)[1..] == a[1..] + b;
      LinesInOrder(a[1..], b);
    }
  }

  /** The events of the named files, first file first. */
  ghost function FileEvents(cfg: Config, depth: nat, names: seq<string>): seq<Event>
  {
    if names == [] then [] else ExpandSource(cfg, depth, File(names[0])).events + FileEvents(cfg, depth, names[1..])
  }

  ghost predicate AllRun(cfg: Config, depth: nat, names: seq<string>)
  {
    forall i :: 0 <= i < |names| ==> ExpandSource(cfg, depth, File(names[i])).stop.Ran?
  }

  lemma ThenEvents(t: Trace, u: Trace)
    requires t.stop.Ran?
    ensures Then(t, u).events == t.events + u.events && Then(t, u).stop == u.stop
  {
  }

  lemma {:induction false} FilesInOrder(cfg: Config, depth: nat, names: seq<string>)
    requires AllRun(cfg, depth, names)
    ensures ExpandSources(cfg, depth, FileSources(names)).events == FileEvents(cfg, depth, names)
    ensures ExpandSources(cfg, depth, FileSources(names)).stop.Ran?
    decreases |names|
  {
    hide ExpandSource, Then;
    if names != [] {
      assert FileSources(names)[1..] == FileSources(names[1..]);
      FilesInOrder(cfg, depth, names[1..]);
      ThenEvents(ExpandSource(cfg, depth, File(names[0])), ExpandSources(cfg, depth, FileSources(names[1..])));
    }
  }

  /** --flagfile stands for the arguments of its files, the first file first, in its own place: before the
      arguments that follow it and after itself. */
  lemma FlagfileInPlace(cfg: Config, depth: nat, args: seq<string>, k: nat, top: bool, names: seq<string>)
    requires WellFormed(cfg) && k < |args| && names != []
    requires args[k] == "--" + ("flagfile" + "=" + JoinCommas(names))
    requires ListOf(JoinCommas(names)) == names && AllRun(cfg, depth, names)
    ensures var here := Event(Assign(Flag("flagfile", ListType, false), JoinCommas(names), true, false), top, k);
            var rest := ExpandList(cfg, depth, args, k + 1, top).events;
            ExpandList(cfg, depth, args, k, top).events == [here] + FileEvents(cfg, depth, names) + rest
  {
    hide ExpandList, ExpandSources, ActionAt, Then, JoinCommas, ListOf, FileEvents, AllRun;
    var text := JoinCommas(names);
    FlagForms(cfg, args, k, "flagfile", Some(text));
    var a := ActionAt(cfg, args, k);
    assert Sources(cfg, a) == FileSources(names);
    ListActs(cfg, depth, args, k, top);
    FilesInOrder(cfg, depth, names);
    var here, nested := Trace([Event(a, top, k)], true, Ran, 1), ExpandSources(cfg, depth, FileSources(names));
    ThenEvents(here, nested);
    ThenEvents(Then(here, nested), ExpandList(cfg, depth, args, k + 1, top));
  }

  /** Two files named in one flag. */
  lemma TwoFlagfiles(cfg: Config, depth: nat, args: seq<string>, k: nat, top: bool, a: string, b: string)
    requires WellFormed(cfg) && k < |args| && ',' !in a && ',' !in b
    requires args[k] == "--" + ("flagfile" + "=" + (a + "," + b))
    requires ExpandSource(cfg, depth, File(a)).stop.Ran? && ExpandSource(cfg, depth, File(b)).stop.Ran?
    ensures var here := Event(Assign(Flag("flagfile", ListType, false), a + "," + b, true, false), top, k);
            var ofA, ofB := ExpandSource(cfg, depth, File(a)).events, ExpandSource(cfg, depth, File(b)).events;
            var rest := ExpandList(cfg, depth, args, k + 1, top).events;
            ExpandList(cfg, depth, args, k, top).events == [here] + (ofA + ofB) + rest
  {
    hide ExpandList, ExpandSource;
    assert [a, b][1..] == [b] && [b][1..] == [];
    assert JoinCommas([a, b]) == a + "," + b;
    TwoPieces(a, b);
    FlagfileInPlace(cfg, depth, args, k, top, [a, b]);
    assert FileEvents(cfg, depth, [b]) == ExpandSource(cfg, depth, File(b)).events + [];
  }

  lemma {:induction false} FindIn(a: string, c: char, rest: string)
    requires c !in a
    ensures Find(a + [c] + rest, c) == |a|
    decreases |a|
  {
    if a == "" {
      assert a + [c] + rest == [c] + rest;
    } else {
      assert (a + [c] + rest)[1..] == a[1..] + [c] + rest;
      FindIn(a[1..], c, rest);
    }
  }

  lemma {:induction false} FindNone(a: string, c: char)
    requires c !in a
    ensures Find(a, c) == |a|
  {
  }

  lemma TwoPieces(a: string, b: string)
    requires ',' !in a && ',' !in b
    ensures ListOf(a + "," + b) == [a, b]
  {
    var s := a + "," + b;
    FindIn(a, ',', b);
    FindNone(b, ',');
    assert s == a + [','] + b && s[..|a|] == a && s[|a| + 1..] == b;
    assert SplitCommas(b) == [b];
  }

  // ---------------------------------------------------------------------------------------------
  // Environment lists
  // ---------------------------------------------------------------------------------------------

  predicate Recursive(n: string)
  {
    n == "fromenv" || n == "tryfromenv"
  }

  predicate IsSet(cfg: Config, n: string)
  {
    "FLAGS_" + n in cfg.env
  }

  /** fromenv fails on a variable that is not set and tryfromenv does not; both fail on their own names. */
  lemma EnvFails(cfg: Config, names: seq<string>)
    ensures SourceArgs(cfg, Env(names)).Some? <==> forall n :: n in names ==> !Recursive(n) && IsSet(cfg, n)
    ensures SourceArgs(cfg, TryEnv(names)).Some? <==> forall n :: n in names ==> !Recursive(n)
  {
    EnvArgsSome(cfg, names, true);
    EnvArgsSome(cfg, names, false);
  }

  lemma {:induction false} EnvArgsSome(cfg: Config, names: seq<string>, failOnAbsent: bool)
    ensures EnvArgs(cfg, names, failOnAbsent).Some?
       <==> forall n :: n in names ==> !Recursive(n) && (failOnAbsent ==> IsSet(cfg, n))
    decreases |names|
  {
    if names != [] {
      EnvArgsSome(cfg, names[1..], failOnAbsent);
      assert names[0] in names && forall n :: n in names <==> n == names[0] || n in names[1..];
    }
  }

  /** The names of variables that are set, in order. */
  function SetNames(cfg: Config, names: seq<string>): seq<string>
  {
    if names == [] then []
    else (if IsSet(cfg, names[0]) then [names[0]] else []) + SetNames(cfg, names[1..])
  }

  lemma {:induction false} SetNamesAre(cfg: Config, names: seq<string>)
    ensures forall n :: n in SetNames(cfg, names) <==> n in names && IsSet(cfg, n)
    ensures (forall n :: n in names ==> IsSet(cfg, n)) ==> SetNames(cfg, names) == names
    decreases |names|
  {
    if names != [] {
      SetNamesAre(cfg, names[1..]);
      assert forall n :: n in names <==> n == names[0] || n in names[1..];
      assert names == [names[0]] + names[1..];
    }
  }

  /** Both give one argument for each variable that is set, in the order of the names. */
  lemma {:induction false} EnvArgsAre(cfg: Config, names: seq<string>, failOnAbsent: bool)
    requires EnvArgs(cfg, names, failOnAbsent).Some?
    ensures var args, present := EnvArgs(cfg, names, failOnAbsent).value, SetNames(cfg, names);
            && |args| == |present|
            && forall i :: 0 <= i < |args| ==>
                 IsSet(cfg, present[i]) && args[i] == "--" + present[i] + "=" + cfg.env["FLAGS_" + present[i]]
    decreases |names|
  {
    if names != [] {
      EnvArgsAre(cfg, names[1..], failOnAbsent);
    }
  }

  /** Which flag brings in which kind of list. */
  lemma GeneratorSources(cfg: Config, name: string, text: string)
    requires WellFormed(cfg) && text != ""
    ensures var srcs := Sources(cfg, Assign(Flag(name, ListType, false), text, true, false));
            match name
            case "fromenv" => srcs == [Env(SplitCommas(text))]
            case "tryfromenv" => srcs == [TryEnv(SplitCommas(text))]
            case "flagfile" => |srcs| == |SplitCommas(text)| &&
                               forall i :: 0 <= i < |srcs| ==> srcs[i] == File(SplitCommas(text)[i])
            case _ => srcs == []
  {
  }

  // ---------------------------------------------------------------------------------------------
  // Values
  // ---------------------------------------------------------------------------------------------

  predicate SetsName(cfg: Config, e: Event, name: string)
  {
    Sets(cfg, e.action) && e.action.flag.name == name
  }

  /** The value of a flag is what the last accepted assignment to it gave ... */
  lemma {:induction false} LastAssignmentWins(cfg: Config, values: map<string, FlagValue>, events: seq<Event>, i: nat)
    requires i < |events| && Sets(cfg, events[i].action)
    requires forall j :: i < j < |events| ==> !SetsName(cfg, events[j], events[i].action.flag.name)
    ensures var f, text, after := events[i].action.flag, events[i].action.text, ValuesAfter(cfg, values, events);
            f.name in after && after[f.name] == if f.typ == ListType then Items(ListOf(text)) else Text(text)
    decreases |events|
  {
    hide Sets, ListOf;
    var n := |events| - 1;
    if i < n {
      LastAssignmentWins(cfg, values, events[..n], i);
    }
  }

  /** ... and the old value if there was none. */
  lemma {:induction false} UntouchedStays(cfg: Config, values: map<string, FlagValue>, events: seq<Event>, name: string)
    requires forall e :: e in events ==> !SetsName(cfg, e, name)
    ensures var after := ValuesAfter(cfg, values, events);
            (name in after <==> name in values) && (name in values ==> after[name] == values[name])
    decreases |events|
  {
    hide Sets;
    if events != [] {
      var n := |events| - 1;
      UntouchedStays(cfg, values, events[..n], name);
      assert events[n] in events && !SetsName(cfg, events[n], name);
    }
  }

  /** A retired flag takes no value and is no error; any other flag is an error exactly when its value is missing
      or refused, and then it keeps its value. */
  lemma WhenFine(cfg: Config, a: Action)
    requires a.Assign?
    ensures a.flag.retired ==> !Sets(cfg, a) && (Fine(cfg, a) <==> a.valueOk)
    ensures !a.flag.retired ==> (Fine(cfg, a) <==> a.valueOk && Sets(cfg, a))
    ensures !a.flag.retired && a.flag.typ in {StringType, ListType} ==> Sets(cfg, a)
    ensures !a.flag.retired && a.flag.typ in {BoolType, OtherType} ==> (Sets(cfg, a) <==> cfg.accepts(a.flag, a.text))
  {
  }

  /** The flagfiles collected are those that the command line itself names, in order. */
  lemma {:induction false} CollectedAre(cfg: Config, events: seq<Event>, name: string)
    ensures name in TopFlagfiles(cfg, events)
       <==> exists e :: e in events && e.fromArgv && SetsName(cfg, e, "flagfile") && name in ListOf(e.action.text)
    decreases |events|
  {
    hide Sets, ListOf;
    if events != [] {
      var n := |events| - 1;
      CollectedAre(cfg, events[..n], name);
      assert events == events[..n] + [events[n]];
      if name in TopFlagfiles(cfg, events) && name !in TopFlagfiles(cfg, events[..n]) {
        assert events[n] in events && SetsName(cfg, events[n], "flagfile");
      }
    }
  }

  // ---------------------------------------------------------------------------------------------
  // Usage flags and unknown flags
  // ---------------------------------------------------------------------------------------------

  lemma UsageNames(name: string)
    ensures IsUsageFlag(name)
       <==> name in {"help", "helpmatch", "helpon", "helpfull", "helpshort", "helppackage", "version",
                     "only_check_args"}
  {
    HelpName(name, "", "help");
    HelpName(name, "match", "helpmatch");
    HelpName(name, "on", "helpon");
    HelpName(name, "full", "helpfull");
    HelpName(name, "short", "helpshort");
    HelpName(name, "package", "helppackage");
    assert "help"[0] != "version"[0] && "help"[0] != "only_check_args"[0];
  }

  lemma HelpName(name: string, suffix: string, whole: string)
    requires whole == "help" + suffix
    ensures name == whole <==> "help" <= name && name[4..] == suffix
  {
    if "help" <= name {
      assert name == "help" + name[4..];
    }
  }

  /** An unknown flag is reported exactly when undefok holds neither its name nor the name without "no". */
  lemma {:induction false} ReportedIff(unknown: seq<UnknownFlag>, undefok: seq<string>, u: UnknownFlag)
    ensures u in Kept(unknown, undefok)
       <==> u in unknown && u.name !in undefok && forall n :: u.name == "no" + n ==> n !in undefok
    decreases |unknown|
  {
    if unknown != [] {
      var n := |unknown| - 1;
      ReportedIff(unknown[..n], undefok, u);
      assert unknown == unknown[..n] + [unknown[n]];
      WithoutNo(u.name, undefok);
    }
  }

  lemma WithoutNo(name: string, undefok: seq<string>)
    ensures ("no" <= name && name[2..] in undefok) <==> exists n :: name == "no" + n && n in undefok
  {
    if "no" <= name && name[2..] in undefok {
      assert name == "no" + name[2..];
    }
    if n :| name == "no" + n && n in undefok {
      assert name[2..] == n;
    }
  }

  /** Reporting keeps the order: what comes from a front part comes first. */
  lemma {:induction false} ReportedInOrder(a: seq<UnknownFlag>, b: seq<UnknownFlag>, undefok: seq<string>)
    ensures Kept(a + b, undefok) == Kept(a, undefok) + Kept(b, undefok)
    decreases |b|
  {
    if b == [] {
      assert a + b == a;
    } else {
      assert (a + b)[..|a + b| - 1] == a + b[..|b| - 1];
      ReportedInOrder(a, b[..|b| - 1], undefok);
    }
  }

  /** The unknown flags are the names that were looked up in vain. */
  lemma {:induction false} UnknownIff(events: seq<Event>, u: UnknownFlag)
    ensures u in Unknowns(events)
       <==> exists e :: e in events && e.action == Unrecognized(u.name) && e.fromArgv == u.fromArgv
    decreases |events|
  {
    if events != [] {
      var n := |events| - 1;
      UnknownIff(events[..n], u);
      assert events == events[..n] + [events[n]];
    }
  }

  /** Unknown flags and collected flagfiles stay in the order of the events. */
  lemma {:induction false} InEventOrder(cfg: Config, a: seq<Event>, b: seq<Event>)
    ensures Unknowns(a + b) == Unknowns(a) + Unknowns(b)
    ensures TopFlagfiles(cfg, a + b) == TopFlagfiles(cfg, a) + TopFlagfiles(cfg, b)
    decreases |b|
  {
    hide Flagfiles;
    if b == [] {
      assert a + b == a;
    } else {
      assert (a + b)[..|a + b| - 1] == a + b[..|b| - 1];
      InEventOrder(cfg, a, b[..|b| - 1]);
    }
  }

  // ---------------------------------------------------------------------------------------------
  // The command line itself
  // ---------------------------------------------------------------------------------------------

  lemma {:induction false} NestedList(cfg: Config, depth: nat, args: seq<string>, k: nat)
    ensures forall e :: e in ExpandList(cfg, depth, args, k, false).events ==> !e.fromArgv
    decreases depth, if k < |args| then |args| - k else 0, 0
  {
    hide ExpandSources, ActionAt, Sources;
    if k < |args| {
      ListActs(cfg, depth, args, k, false);
      hide ExpandList;
      var a := ActionAt(cfg, args, k);
      if !Ends(a, false) {
        NestedSources(cfg, depth, Sources(cfg, a));
        NestedList(cfg, depth, args, k + a.Width());
      }
    }
  }

  lemma {:induction false} NestedSources(cfg: Config, depth: nat, srcs: seq<Source>)
    ensures forall e :: e in ExpandSources(cfg, depth, srcs).events ==> !e.fromArgv
    decreases depth, 0, |srcs|
  {
    hide SourceArgs, ExpandList;
    if srcs != [] {
      var args := SourceArgs(cfg, srcs[0]);
      if args.Some? && depth > 0 {
        NestedList(cfg, depth - 1, args.value, 1);
      }
      NestedSources(cfg, depth, srcs[1..]);
    }
  }

  /** The event is an argument of the command line that was acted on from position `k` on. */
  predicate OfArgv(cfg: Config, argv: seq<string>, k: nat, e: Event)
  {
    e.fromArgv && Acted(cfg, argv, k, e.index, true) && e.action == ActionAt(cfg, argv, e.index)
  }

  lemma EventsThen(t: Trace, nested: Trace, rest: Trace)
    requires t.stop.Ran? && Regular(nested, false) && Smooth(Then(Then(t, nested), rest))
    ensures Then(Then(t, nested), rest).events == t.events + nested.events + rest.events
    ensures Smooth(rest) && Then(Then(t, nested), rest).stop == rest.stop
  {
  }

  /** The events of the command line are exactly its arguments that are acted on. */
  lemma {:induction false} EventsOfArgv(cfg: Config, depth: nat, argv: seq<string>, k: nat, e: Event)
    requires Smooth(ExpandList(cfg, depth, argv, k, true)) && e.fromArgv
    ensures e in ExpandList(cfg, depth, argv, k, true).events <==> OfArgv(cfg, argv, k, e)
    decreases |argv| - k
  {
    hide ExpandSources, ActionAt, Sources, Then, Smooth;
    if k < |argv| {
      ListActs(cfg, depth, argv, k, true);
      hide ExpandList;
      var a := ActionAt(cfg, argv, k);
      if !Ends(a, true) {
        var nested := ExpandSources(cfg, depth, Sources(cfg, a));
        var rest := ExpandList(cfg, depth, argv, k + a.Width(), true);
        SourcesRegular(cfg, depth, Sources(cfg, a));
        NestedSources(cfg, depth, Sources(cfg, a));
        EventsThen(Trace([Event(a, true, k)], true, Ran, 1), nested, rest);
        EventsOfArgv(cfg, depth, argv, k + a.Width(), e);
      }
    }
  }

  /** The loop stops behind the terminator that was acted on, or runs to the end if there is none. */
  lemma {:induction false} StopOfArgv(cfg: Config, depth: nat, argv: seq<string>, k: nat)
    requires Smooth(ExpandList(cfg, depth, argv, k, true))
    ensures match ExpandList(cfg, depth, argv, k, true).stop
            case Stopped(at) =>
              && at > 0 && Acted(cfg, argv, k, at - 1, true) && TerminatorText(argv[at - 1])
              && forall q: nat :: Acted(cfg, argv, k, q, true) && TerminatorText(argv[q]) ==> q == at - 1
            case _ => forall q: nat :: Acted(cfg, argv, k, q, true) ==> !TerminatorText(argv[q])
    decreases |argv| - k
  {
    hide ExpandSources, ActionAt, Sources, Then, Smooth, TerminatorText;
    if k < |argv| {
      ListActs(cfg, depth, argv, k, true);
      hide ExpandList;
      var a := ActionAt(cfg, argv, k);
      TerminatorHere(cfg, argv, k);
      if !Ends(a, true) {
        var nested := ExpandSources(cfg, depth, Sources(cfg, a));
        var rest := ExpandList(cfg, depth, argv, k + a.Width(), true);
        SourcesRegular(cfg, depth, Sources(cfg, a));
        EventsThen(Trace([Event(a, true, k)], true, Ran, 1), nested, rest);
        StopOfArgv(cfg, depth, argv, k + a.Width());
      }
    }
  }

  lemma TerminatorHere(cfg: Config, argv: seq<string>, k: nat)
    requires k < |argv|
    ensures ActionAt(cfg, argv, k).Terminator? <==> TerminatorText(argv[k])
  {
    TerminatorIff(cfg, argv, k);
  }

  lemma {:induction false} PositionalsAre(events: seq<Event>, p: nat)
    ensures p in Positionals(events) <==> exists e :: e in events && e.action.Positional? && e.index == p
    decreases |events|
  {
    if events != [] {
      var n := |events| - 1;
      PositionalsAre(events[..n], p);
      assert events == events[..n] + [events[n]];
    }
  }

  lemma ThenSmoothEvents(nested: Trace, list: Trace)
    requires Regular(nested, false) && Smooth(Then(nested, list))
    ensures Then(nested, list).events == nested.events + list.events
    ensures Then(nested, list).stop == list.stop && Smooth(list)
  {
  }

  /** The position is acted on and its argument is a positional one. */
  predicate ActedPositional(cfg: Config, argv: seq<string>, p: nat)
  {
    Acted(cfg, argv, 1, p, true) && PositionalText(argv[p])
  }

  /** A terminator before the position was acted on. */
  ghost predicate Behind(cfg: Config, argv: seq<string>, p: nat)
  {
    exists q: nat :: q < p && Acted(cfg, argv, 1, q, true) && TerminatorText(argv[q])
  }

  lemma PositionalsOfArgv(cfg: Config, depth: nat, waiting: seq<Source>, argv: seq<string>, p: nat)
    requires argv != [] && Smooth(Expand(cfg, depth, waiting, argv))
    ensures p in Positionals(Expand(cfg, depth, waiting, argv).events) <==> ActedPositional(cfg, argv, p)
  {
    hide ExpandSources, ExpandList, Then, Smooth, ActionAt, Positionals, PositionalText, Acted, Covers;
    var nested, list := ExpandSources(cfg, depth, waiting), ExpandList(cfg, depth, argv, 1, true);
    var t := Then(nested, list);
    var e := Event(Positional, true, p);
    SourcesRegular(cfg, depth, waiting);
    ThenSmoothEvents(nested, list);
    NestedSources(cfg, depth, waiting);
    Coverage(cfg, depth, waiting, argv);
    PositionalsAre(t.events, p);
    EventsOfArgv(cfg, depth, argv, 1, e);
    if f :| f in t.events && f.action.Positional? && f.index == p {
      assert f == e;
    }
    if p < |argv| {
      PositionalHere(cfg, argv, p);
    }
    ActedInside(cfg, argv, 1, p);
  }

  lemma ActedInside(cfg: Config, argv: seq<string>, k: nat, p: nat)
    ensures Acted(cfg, argv, k, p, true) ==> p < |argv|
  {
  }

  lemma PositionalHere(cfg: Config, argv: seq<string>, k: nat)
    requires k < |argv|
    ensures ActionAt(cfg, argv, k) == Positional <==> PositionalText(argv[k])
  {
    hide ActionAt;
    PositionalIff(cfg, argv, k);
  }

  lemma BehindIff(cfg: Config, depth: nat, waiting: seq<Source>, argv: seq<string>, p: nat)
    requires p < |argv| && Smooth(Expand(cfg, depth, waiting, argv))
    ensures Reached(Expand(cfg, depth, waiting, argv), argv) <= p <==> Behind(cfg, argv, p)
  {
    hide ExpandSources, ExpandList, Then, Smooth, TerminatorText, Acted;
    var nested, list := ExpandSources(cfg, depth, waiting), ExpandList(cfg, depth, argv, 1, true);
    SourcesRegular(cfg, depth, waiting);
    ThenSmoothEvents(nested, list);
    StopOfArgv(cfg, depth, argv, 1);
  }

  /** A position of argv is returned as positional exactly when it is 0, or lies behind a terminator that was acted
      on, or is acted on itself and does not start with a dash or is nothing else. */
  lemma PositionalExactly(cfg: Config, depth: nat, waiting: seq<Source>, argv: seq<string>, p: nat)
    requires Smooth(Expand(cfg, depth, waiting, argv)) && p < |argv|
    ensures var t := Expand(cfg, depth, waiting, argv);
            var positional := [0] + Positionals(t.events) + Range(Reached(t, argv), |argv|);
            p in positional <==> p == 0 || Behind(cfg, argv, p) || ActedPositional(cfg, argv, p)
  {
    hide Expand, Positionals, Range, Smooth, Behind, ActedPositional, Reached;
    var t := Expand(cfg, depth, waiting, argv);
    PositionalsOfArgv(cfg, depth, waiting, argv, p);
    BehindIff(cfg, depth, waiting, argv, p);
    RangeHas(Reached(t, argv), |argv|, p);
  }

  lemma {:induction false} RangeHas(from: nat, to: nat, p: nat)
    ensures p in Range(from, to) <==> from <= p < to
    decreases if from < to then to - from else 0
  {
    if from < to {
      RangeHas(from + 1, to, p);
    }
  }
}

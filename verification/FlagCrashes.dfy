/** When a parse fails one of its internal checks (absl/flags/parse.cc).

    Reading a flagfile or the environment refuses some arguments, but not all that the main loop cannot
    handle below the command line.  Which command lines, files and variables lead there is said in terms
    of chains of included lists. */
module FlagCrashes {
  import opened FlagText
  import opened FlagExpansion
  import opened FlagStack
  import opened FlagResults

  predicate FlagLine(line: string)
  {
    "-" <= line && line != "--"
  }

  /** The arguments that an included list may not hold: the source checks for them when it acts on them. */
  predicate Trips(arg: string)
  {
    arg == "-" || "-=" <= arg || "--=" <= arg
  }

  /** Reading a flagfile only lets lines through that start with '-' and are not "--" ... */
  lemma {:induction false} LineArgsShape(lines: seq<string>)
    requires LineArgs(lines).Some?
    ensures forall a :: a in LineArgs(lines).value ==> FlagLine(a)
    decreases |lines|
  {
    hide StripLeading;
    if lines != [] {
      var line := StripLeading(lines[0]);
      LineArgsShape(lines[1..]);
    }
  }

  /** ... and so does reading the environment ... */
  lemma {:induction false} EnvArgsShape(cfg: Config, names: seq<string>, failOnAbsent: bool)
    requires EnvArgs(cfg, names, failOnAbsent).Some?
    ensures forall a :: a in EnvArgs(cfg, names, failOnAbsent).value ==> FlagLine(a)
    decreases |names|
  {
    if names != [] {
      EnvArgsShape(cfg, names[1..], failOnAbsent);
    }
  }

  /** ... which does not keep positional arguments and terminators away from the main loop. */
  lemma FlagLineCrashes(cfg: Config, args: seq<string>, k: nat)
    requires k < |args| && FlagLine(args[k])
    ensures ActionAt(cfg, args, k).Positional? <==> args[k] == "-"
    ensures ActionAt(cfg, args, k).Terminator? <==> "-=" <= args[k] || "--=" <= args[k]
  {
    hide LocateFlag, DeduceFlagValue, IsUsageFlag, SplitNameAndValue;
    Prefixes(args[k]);
    if args[k] != "-" {
      EmptyName(args[k]);
    }
  }

  lemma EmptyName(line: string)
    requires FlagLine(line) && line != "-"
    ensures SplitNameAndValue(line[1..]).name == "" <==> "-=" <= line || "--=" <= line
  {
    Prefixes(line);
    var arg := Consume(line[1..], "-");
    NameStart(arg);
    if "-" <= line[1..] {
      assert arg == line[2..];
      assert |line| > 2 ==> arg[0] == line[2];
    } else {
      assert arg == line[1..] && arg[0] == line[1];
    }
  }

  lemma NameStart(arg: string)
    ensures Find(arg, '=') == 0 <==> arg == "" || arg[0] == '='
  {
  }

  lemma Prefixes(line: string)
    ensures "-=" <= line <==> |line| >= 2 && line[0] == '-' && line[1] == '='
    ensures "--=" <= line <==> |line| >= 3 && line[0] == '-' && line[1] == '-' && line[2] == '='
  {
  }

  /** An argument is a terminator exactly when nothing stands between its dashes and its end or the first '='. */
  lemma TerminatorIff(cfg: Config, args: seq<string>, k: nat)
    requires k < |args|
    ensures ActionAt(cfg, args, k).Terminator? <==> TerminatorText(args[k])
  {
    hide LocateFlag, DeduceFlagValue, IsUsageFlag, SplitNameAndValue;
    Prefixes(args[k]);
    if args[k] == "--" {
      assert "--"[1..] == "-";
      DashesOnly();
    } else if FlagLine(args[k]) {
      FlagLineCrashes(cfg, args, k);
    }
  }

  lemma DashesOnly()
    ensures SplitNameAndValue("-").name == ""
  {
  }

  // ---------------------------------------------------------------------------------------------
  // Chains of included lists
  // ---------------------------------------------------------------------------------------------

  predicate Ends(a: Action, top: bool)
  {
    a.Terminator? || (a.Positional? && !top)
  }

  /** Reading the list from position `k` on, the argument at `j` is acted on and not taken as a value. */
  predicate Acted(cfg: Config, args: seq<string>, k: nat, j: nat, top: bool)
    decreases |args| - k
  {
    && k <= j < |args|
    && (k == j || (!Ends(ActionAt(cfg, args, k), top) && Acted(cfg, args, k + ActionAt(cfg, args, k).Width(), j, top)))
  }

  /** Each list of the chain acts on an argument that brings in the next one, and the last list acts on an
      argument that trips. */
  ghost predicate Leads(cfg: Config, chain: seq<Source>)
  {
    && chain != [] && SourceArgs(cfg, chain[0]).Some?
    && var args := SourceArgs(cfg, chain[0]).value;
       if |chain| == 1 then exists j: nat :: Acted(cfg, args, 1, j, false) && Trips(args[j])
       else Leads(cfg, chain[1..]) && BringsIn(cfg, args, chain[1], false)
  }

  ghost predicate BringsIn(cfg: Config, args: seq<string>, src: Source, top: bool)
  {
    exists j: nat :: Acted(cfg, args, 1, j, top) && src in Sources(cfg, ActionAt(cfg, args, j))
  }

  lemma SourceShape(cfg: Config, src: Source)
    requires SourceArgs(cfg, src).Some?
    ensures forall j :: 1 <= j < |SourceArgs(cfg, src).value| ==> FlagLine(SourceArgs(cfg, src).value[j])
  {
    var body := SourceArgs(cfg, src).value[1..];
    match src
    case File(name) => LineArgsShape(cfg.files[name]);
    case Env(names) => EnvArgsShape(cfg, names, true);
    case TryEnv(names) => EnvArgsShape(cfg, names, false);
    assert forall j :: 1 <= j < |SourceArgs(cfg, src).value| ==> SourceArgs(cfg, src).value[j] in body;
  }

  /** An argument that trips ends an included list. */
  lemma TripsEnds(cfg: Config, args: seq<string>, k: nat)
    requires k < |args|
    ensures Trips(args[k]) ==> Ends(ActionAt(cfg, args, k), false)
    ensures FlagLine(args[k]) && Ends(ActionAt(cfg, args, k), false) ==> Trips(args[k])
  {
    Prefixes(args[k]);
    if Trips(args[k]) || FlagLine(args[k]) {
      FlagLineCrashes(cfg, args, k);
    }
  }

  lemma AssignNames(cfg: Config, a: Action)
    ensures Sources(cfg, a) != [] ==> a.Assign?
  {
  }

  // ---------------------------------------------------------------------------------------------
  // A chain makes the parse abort, unless it never gets there ...
  // ---------------------------------------------------------------------------------------------

  lemma HereSmooth(here: Trace, nested: Trace, rest: Trace)
    requires here.stop.Ran? && Regular(nested, false) && Smooth(Then(Then(here, nested), rest))
    ensures Smooth(nested) && Smooth(rest)
  {
  }

  lemma ThenSmooth(t: Trace, u: Trace)
    requires Regular(t, false) && Smooth(Then(t, u))
    ensures Smooth(t) && Smooth(u)
  {
  }

  lemma {:induction false} ChainSpoilsSources(cfg: Config, depth: nat, srcs: seq<Source>, chain: seq<Source>)
    requires Leads(cfg, chain) && chain[0] in srcs
    ensures !Smooth(ExpandSources(cfg, depth, srcs))
    decreases depth, 0, |srcs|
  {
    hide SourceArgs, ExpandList, Sources, ActionAt, Trips, Ends, Then, Smooth;
    var t := ExpandSources(cfg, depth, srcs);
    if Smooth(t) {
      SourceRegular(cfg, depth, srcs[0]);
      ThenSmooth(ExpandSource(cfg, depth, srcs[0]), ExpandSources(cfg, depth, srcs[1..]));
      if srcs[0] == chain[0] {
        ChainSpoilsSource(cfg, depth, chain);
      } else {
        ChainSpoilsSources(cfg, depth, srcs[1..], chain);
      }
    }
  }

  lemma {:induction false} ChainSpoilsSource(cfg: Config, depth: nat, chain: seq<Source>)
    requires Leads(cfg, chain)
    ensures !Smooth(ExpandSource(cfg, depth, chain[0]))
    decreases depth, 0, 0
  {
    hide SourceArgs, ExpandList, Sources, ActionAt, Trips, Ends;
    if depth > 0 {
      var args := SourceArgs(cfg, chain[0]).value;
      if |chain| == 1 {
        var j: nat :| Acted(cfg, args, 1, j, false) && Trips(args[j]);
        ChainSpoilsList(cfg, depth - 1, args, 1, false, j, []);
      } else {
        var j: nat :| Acted(cfg, args, 1, j, false) && chain[1] in Sources(cfg, ActionAt(cfg, args, j));
        ChainSpoilsList(cfg, depth - 1, args, 1, false, j, chain[1..]);
      }
    }
  }

  lemma {:induction false} ChainSpoilsList(cfg: Config, depth: nat, args: seq<string>, k: nat, top: bool, j: nat,
                                           chain: seq<Source>)
    requires Acted(cfg, args, k, j, top)
    requires if chain == [] then !top && Trips(args[j])
             else Leads(cfg, chain) && chain[0] in Sources(cfg, ActionAt(cfg, args, j))
    ensures !Smooth(ExpandList(cfg, depth, args, k, top))
    decreases depth, |args| - k + 1, 0
  {
    hide SourceArgs, ExpandSources, ExpandList, ActionAt, Trips, Leads, Then, Smooth;
    var t := ExpandList(cfg, depth, args, k, top);
    var a := ActionAt(cfg, args, k);
    ListActs(cfg, depth, args, k, top);
    TripsEnds(cfg, args, k);
    NotSmooth();
    AssignNames(cfg, a);
    if Smooth(t) && (k < j || chain != []) {
      SourcesRegular(cfg, depth, Sources(cfg, a));
      HereSmooth(Trace([Event(a, top, k)], true, Ran, 1), ExpandSources(cfg, depth, Sources(cfg, a)),
                 ExpandList(cfg, depth, args, k + a.Width(), top));
      if k < j {
        ChainSpoilsList(cfg, depth, args, k + a.Width(), top, j, chain);
      } else {
        ChainSpoilsSources(cfg, depth, Sources(cfg, a), chain);
      }
    }
  }

  lemma NotSmooth()
    ensures !Smooth(ABORT) && !Smooth(TOO_DEEP)
  {
  }

  // ---------------------------------------------------------------------------------------------
  // ... and nothing else does
  // ---------------------------------------------------------------------------------------------

  lemma ThenAborts(t: Trace, u: Trace)
    ensures Then(t, u).stop.Aborted? ==> t.stop.Aborted? || u.stop.Aborted?
  {
  }

  lemma {:induction false} BlameSources(cfg: Config, depth: nat, srcs: seq<Source>) returns (chain: seq<Source>)
    requires ExpandSources(cfg, depth, srcs).stop.Aborted?
    ensures Leads(cfg, chain) && chain[0] in srcs
    decreases depth, 0, |srcs|
  {
    hide SourceArgs, ExpandList, Sources, ActionAt, Trips, Acted, Then;
    assert srcs != [];
    ThenAborts(ExpandSource(cfg, depth, srcs[0]), ExpandSources(cfg, depth, srcs[1..]));
    if ExpandSource(cfg, depth, srcs[0]).stop.Aborted? {
      SourceShape(cfg, srcs[0]);
      var j, rest := BlameList(cfg, depth - 1, SourceArgs(cfg, srcs[0]).value, 1, false);
      chain := [srcs[0]] + rest;
      assert chain[1..] == rest;
    } else {
      chain := BlameSources(cfg, depth, srcs[1..]);
    }
  }

  lemma {:induction false} BlameList(cfg: Config, depth: nat, args: seq<string>, k: nat, top: bool)
    returns (j: nat, chain: seq<Source>)
    requires ExpandList(cfg, depth, args, k, top).stop.Aborted?
    requires !top ==> forall i :: k <= i < |args| ==> FlagLine(args[i])
    ensures Acted(cfg, args, k, j, top)
    ensures if chain == [] then !top && Trips(args[j])
            else Leads(cfg, chain) && chain[0] in Sources(cfg, ActionAt(cfg, args, j))
    decreases depth, if k < |args| then |args| - k + 1 else 0, 0
  {
    hide SourceArgs, ExpandSources, ActionAt, Trips, Leads, Then;
    assert k < |args|;
    hide ExpandList;
    ListActs(cfg, depth, args, k, top);
    var a := ActionAt(cfg, args, k);
    var here, nested := Trace([Event(a, top, k)], true, Ran, 1), ExpandSources(cfg, depth, Sources(cfg, a));
    if Ends(a, top) {
      TripsEnds(cfg, args, k);
      j, chain := k, [];
    } else {
      ThenAborts(here, nested);
      ThenAborts(Then(here, nested), ExpandList(cfg, depth, args, k + a.Width(), top));
      if nested.stop.Aborted? {
        j := k;
        chain := BlameSources(cfg, depth, Sources(cfg, a));
        LeadsSome(cfg, chain);
      } else {
        j, chain := BlameList(cfg, depth, args, k + a.Width(), top);
      }
    }
  }

  /** A parse that ends aborts exactly when a chain of included lists leads from a waiting source, or from an
      argument of the command line that is acted on before the terminator, to an argument that trips. */
  lemma AbortsIff(cfg: Config, depth: nat, waiting: seq<Source>, argv: seq<string>)
    requires !Expand(cfg, depth, waiting, argv).stop.TooDeep?
    ensures Expand(cfg, depth, waiting, argv).stop.Aborted? <==>
            exists chain :: Leads(cfg, chain) && (chain[0] in waiting || BringsIn(cfg, argv, chain[0], true))
  {
    hide ExpandSources, ExpandList, Then, ActionAt, Sources, SourceArgs, Trips, Ends;
    var nested, rest := ExpandSources(cfg, depth, waiting), ExpandList(cfg, depth, argv, 1, true);
    if Then(nested, rest).stop.Aborted? {
      ThenAborts(nested, rest);
      if nested.stop.Aborted? {
        var chain := BlameSources(cfg, depth, waiting);
      } else {
        var j, chain := BlameList(cfg, depth, argv, 1, true);
        assert BringsIn(cfg, argv, chain[0], true);
      }
    } else {
      SourcesRegular(cfg, depth, waiting);
      ThenSmooth(nested, rest);
      if chain :| Leads(cfg, chain) && (chain[0] in waiting || BringsIn(cfg, argv, chain[0], true)) {
        if chain[0] in waiting {
          ChainSpoilsSources(cfg, depth, waiting, chain);
        } else {
          var j: nat :| Acted(cfg, argv, 1, j, true) && chain[0] in Sources(cfg, ActionAt(cfg, argv, j));
          ChainSpoilsList(cfg, depth, argv, 1, true, j, chain);
        }
      }
    }
  }

  lemma LeadsSome(cfg: Config, chain: seq<Source>)
    ensures Leads(cfg, chain) ==> chain != []
  {
  }

  // ---------------------------------------------------------------------------------------------
  // The arguments of the lists themselves
  // ---------------------------------------------------------------------------------------------

  /** The argument made from an environment variable trips exactly when the name asked for is empty or starts
      with '='. */
  lemma EnvTrips(n: string, value: string)
    ensures Trips("--" + n + "=" + value) <==> n == "" || n[0] == '='
  {
    var arg := "--" + n + "=" + value;
    Prefixes(arg);
    assert arg[2] == if n == "" then '=' else n[0];
  }

  /** What the list brings in from position `k` on. */
  function Included(cfg: Config, args: seq<string>, k: nat, top: bool): set<Source>
    decreases |args| - k
  {
    if k >= |args| then {}
    else
      var a := ActionAt(cfg, args, k);
      if Ends(a, top) then {} else (set s | s in Sources(cfg, a)) + Included(cfg, args, k + a.Width(), top)
  }

  lemma {:induction false} ActedIncluded(cfg: Config, args: seq<string>, k: nat, j: nat, top: bool, src: Source)
    requires Acted(cfg, args, k, j, top) && src in Sources(cfg, ActionAt(cfg, args, j))
    ensures src in Included(cfg, args, k, top)
    decreases j - k
  {
    hide ActionAt, Sources;
    AssignNames(cfg, ActionAt(cfg, args, j));
    if k < j {
      ActedIncluded(cfg, args, k + ActionAt(cfg, args, k).Width(), j, top, src);
    }
  }

  /** The lists of the set include nothing outside the set. */
  ghost predicate Closed(cfg: Config, all: set<Source>)
  {
    forall s :: s in all && SourceArgs(cfg, s).Some? ==> Included(cfg, SourceArgs(cfg, s).value, 1, false) <= all
  }

  /** The set holds what waits, what the command line brings in, and everything included from there. */
  ghost predicate Holds(cfg: Config, all: set<Source>, waiting: seq<Source>, argv: seq<string>)
  {
    Closed(cfg, all) && (forall s :: s in waiting ==> s in all) && Included(cfg, argv, 1, true) <= all
  }

  /** No list of the set holds an argument that trips. */
  ghost predicate TripFree(cfg: Config, all: set<Source>)
  {
    forall s, j :: s in all && SourceArgs(cfg, s).Some? && 1 <= j < |SourceArgs(cfg, s).value| ==>
      !Trips(SourceArgs(cfg, s).value[j])
  }

  /** When no list that may be included holds an argument that trips, no parse aborts. */
  lemma NoTripNoAbort(cfg: Config, depth: nat, waiting: seq<Source>, argv: seq<string>, all: set<Source>)
    requires Holds(cfg, all, waiting, argv) && TripFree(cfg, all)
    ensures !Expand(cfg, depth, waiting, argv).stop.Aborted?
  {
    hide Expand, SourceArgs, Trips, ActionAt, Sources, Ends, TripFree, Closed;
    if Expand(cfg, depth, waiting, argv).stop.Aborted? {
      AbortsIff(cfg, depth, waiting, argv);
      var chain :| Leads(cfg, chain) && (chain[0] in waiting || BringsIn(cfg, argv, chain[0], true));
      if chain[0] !in waiting {
        var j: nat :| Acted(cfg, argv, 1, j, true) && chain[0] in Sources(cfg, ActionAt(cfg, argv, j));
        ActedIncluded(cfg, argv, 1, j, true, chain[0]);
      }
      ChainTrips(cfg, all, chain);
    }
  }

  /** A chain that starts in the set ends in it, at an argument that trips. */
  lemma {:induction false} ChainTrips(cfg: Config, all: set<Source>, chain: seq<Source>)
    requires Closed(cfg, all) && Leads(cfg, chain) && chain[0] in all
    ensures !TripFree(cfg, all)
    decreases |chain|
  {
    hide SourceArgs, Trips, ActionAt, Sources, Ends, Included;
    var args := SourceArgs(cfg, chain[0]).value;
    if |chain| > 1 {
      var j: nat :| Acted(cfg, args, 1, j, false) && chain[1] in Sources(cfg, ActionAt(cfg, args, j));
      ActedIncluded(cfg, args, 1, j, false, chain[1]);
      ChainTrips(cfg, all, chain[1..]);
    } else {
      var j: nat :| Acted(cfg, args, 1, j, false) && Trips(args[j]);
    }
  }

  // ---------------------------------------------------------------------------------------------
  // Two inputs that abort
  // ---------------------------------------------------------------------------------------------

  function Defined(n: string): Flag
  {
    Flag(n, ListType, false)
  }

  /** The flags of the parser itself, and the given files and variables. */
  function Plain(files: map<string, seq<string>>, env: map<string, string>): Config
  {
    Config(map["flagfile" := Defined("flagfile"), "fromenv" := Defined("fromenv"),
               "tryfromenv" := Defined("tryfromenv"),
               "undefok" := Defined("undefok")],
           (f, text) => true, files, env)
  }

  /** One source named on the command line, whose own first argument trips. */
  lemma OneSource(cfg: Config, argv: seq<string>, src: Source)
    requires |argv| == 2 && Sources(cfg, ActionAt(cfg, argv, 1)) == [src]
    requires SourceArgs(cfg, src).Some? && |SourceArgs(cfg, src).value| > 1 && Trips(SourceArgs(cfg, src).value[1])
    ensures Expand(cfg, 1, [], argv).stop.Aborted?
  {
    hide SourceArgs, ActionAt, Sources, ExpandList, Trips, Then;
    var args := SourceArgs(cfg, src).value;
    var a := ActionAt(cfg, argv, 1);
    AssignNames(cfg, a);
    TripsEnds(cfg, args, 1);
    ListActs(cfg, 0, args, 1, false);
    ListActs(cfg, 1, argv, 1, true);
    var rest := ExpandList(cfg, 1, argv, 1 + a.Width(), true);
    assert [src][1..] == [];
    ThenStops(ABORT, ExpandSources(cfg, 1, []));
    HereStops(Trace([Event(a, true, 1)], true, Ran, 1), ABORT, rest);
    ThenNothing(ExpandList(cfg, 1, argv, 1, true));
  }

  lemma HereStops(here: Trace, nested: Trace, rest: Trace)
    requires here.stop.Ran? && !nested.stop.Ran?
    ensures Then(Then(here, nested), rest).stop == nested.stop
  {
  }

  /** A list flag given its value after '='. */
  lemma Given(cfg: Config, args: seq<string>, k: nat, name: string, value: string)
    requires k < |args| && PlainName(name) && args[k] == "--" + (name + "=" + value)
    requires name in cfg.registry && cfg.registry[name] == Defined(name)
    ensures ActionAt(cfg, args, k) == Assign(Defined(name), value, true, false)
  {
    hide ActionAt;
    FlagForms(cfg, args, k, name, Some(value));
  }

  lemma DashArgs(cfg: Config)
    requires cfg.files == map["f" := ["-"]]
    ensures SourceArgs(cfg, File("f")) == Some(["", "-"]) && FileSources(ListOf("f")) == [File("f")]
  {
    assert ListOf("f") == ["f"];
    assert StripLeading("-") == "-";
    assert ["-"][1..] == [] && LineArgs([]) == Some([]);
    assert LineArgs(["-"]) == Some(["-"] + []);
    assert [""] + (["-"] + []) == ["", "-"];
  }

  /** A flagfile that holds a lone dash. */
  lemma DashInFlagfile()
    ensures var cfg := Plain(map["f" := ["-"]], map[]);
            Expand(cfg, 1, [], ["prog", "--flagfile=f"]).stop.Aborted?
  {
    hide ActionAt, SourceArgs, ListOf, Expand;
    var cfg, argv := Plain(map["f" := ["-"]], map[]), ["prog", "--flagfile=f"];
    Given(cfg, argv, 1, "flagfile", "f");
    DashArgs(cfg);
    OneSource(cfg, argv, File("f"));
  }

  lemma EmptyNameArgs(cfg: Config)
    requires cfg.env == map["FLAGS_" := "x"]
    ensures SourceArgs(cfg, Env(["", ""])) == Some(["", "--=x", "--=x"]) && ListOf(",") == ["", ""]
  {
    assert ","[..0] == "" && ","[1..] == "" && SplitCommas("") == [""];
    assert "FLAGS_" + "" == "FLAGS_" && "--" + "" + "=" + "x" == "--=x";
    assert ["", ""][1..] == [""] && [""][1..] == [];
    assert EnvArgs(cfg, [], true) == Some([]);
    assert EnvArgs(cfg, [""], true) == Some(["--=x"] + []);
    assert EnvArgs(cfg, ["", ""], true) == Some(["--=x"] + (["--=x"] + []));
    assert [""] + (["--=x"] + (["--=x"] + [])) == ["", "--=x", "--=x"];
  }

  /** An environment list that asks for an empty name. */
  lemma EmptyNameInEnvironment()
    ensures var cfg := Plain(map[], map["FLAGS_" := "x"]);
            Expand(cfg, 1, [], ["prog", "--fromenv=,"]).stop.Aborted?
  {
    hide ActionAt, SourceArgs, ListOf, Expand;
    var cfg, argv := Plain(map[], map["FLAGS_" := "x"]), ["prog", "--fromenv=,"];
    Given(cfg, argv, 1, "fromenv", ",");
    EmptyNameArgs(cfg);
    OneSource(cfg, argv, Env(["", ""]));
  }
}

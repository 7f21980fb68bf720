/** What a command line means: the arguments of absl/flags/parse.cc read one list at a time, and the
    lists that the generator flags (flagfile, fromenv, tryfromenv) bring in expanded on the spot. */
module FlagExpansion {
  import opened FlagText

  // ---------------------------------------------------------------------------------------------
  // The surroundings of a parse
  // ---------------------------------------------------------------------------------------------

  datatype FlagType = BoolType | StringType | ListType | OtherType

  datatype Flag = Flag(name: string, typ: FlagType, retired: bool)

  /** The frozen flag registry, the text conversions of flags that are neither strings nor lists of
      strings, the files by name as lists of lines, and the environment. */
  datatype Config = Config(
    registry: map<string, Flag>,
    accepts: (Flag, string) -> bool,
    files: map<string, seq<string>>,
    env: map<string, string>)

  const GENERATORS: set<string> := {"flagfile", "fromenv", "tryfromenv"}

  /** Flags are registered under their own names, and the flags that this file defines are there. */
  ghost predicate WellFormed(cfg: Config)
  {
    && (forall n :: n in cfg.registry ==> cfg.registry[n].name == n)
    && (forall n :: n in GENERATORS || n == "undefok" ==>
          n in cfg.registry && cfg.registry[n] == Flag(n, ListType, false))
  }

  function FindFlag(cfg: Config, name: string): Option<Flag>
  {
    if name != "" && name in cfg.registry then Some(cfg.registry[name]) else None
  }

  /** Whether setting the flag from this text succeeds. */
  predicate Accepts(cfg: Config, f: Flag, text: string)
  {
    !f.retired && (f.typ == StringType || f.typ == ListType || cfg.accepts(f, text))
  }

  /** DeduceUsageFlags: names that the help system answers to, tried for names that no flag has. */
  predicate IsUsageFlag(name: string)
  {
    if "help" <= name then name[4..] in {"", "match", "on", "full", "short", "package"}
    else name == "version" || name == "only_check_args"
  }

  // ---------------------------------------------------------------------------------------------
  // One argument
  // ---------------------------------------------------------------------------------------------

  /** Drops one occurrence of the prefix. */
  function Consume(s: string, prefix: string): string
  {
    if prefix <= s then s[|prefix|..] else s
  }

  datatype NameValue = NameValue(name: string, value: string, isEmptyValue: bool)

  /** Splits "foo=bar" or "-foo=bar"; an empty value after '=' is told apart from no value. */
  function SplitNameAndValue(arg0: string): NameValue
  {
    var arg := Consume(arg0, "-");
    var eq := Find(arg, '=');
    if eq == |arg| then NameValue(arg, "", false)
    else NameValue(arg[..eq], arg[eq + 1..], eq + 1 == |arg|)
  }

  datatype Located = Located(flag: Option<Flag>, isNegative: bool)

  function LocateFlag(cfg: Config, name: string): Located
  {
    if FindFlag(cfg, name).None? && "no" <= name then Located(FindFlag(cfg, name[2..]), true)
    else Located(FindFlag(cfg, name), false)
  }

  /** The value of a flag, and whether it is the next argument of the same list. */
  datatype Deduced = Deduced(ok: bool, value: string, usesNext: bool)

  function DeduceFlagValue(f: Flag, nv: NameValue, isNegative: bool, args: seq<string>, k: nat): Deduced
    requires k < |args|
  {
    if f.typ == BoolType then
      if nv.value == "" then
        if nv.isEmptyValue then Deduced(false, "", false)
        else Deduced(true, if isNegative then "0" else "1", false)
      else if isNegative then Deduced(false, "", false)
      else Deduced(true, nv.value, false)
    else if isNegative then Deduced(false, "", false)
    else if nv.value == "" && !nv.isEmptyValue then
      if k + 1 == |args| then Deduced(false, "", false)
      else Deduced(true, args[k + 1], true)
    else Deduced(true, nv.value, false)
  }

  datatype Action =
    | Positional
    | Terminator
    | UsageFlag(name: string)
    | Unrecognized(name: string)
    | Assign(flag: Flag, text: string, valueOk: bool, usesNext: bool)
  {
    function Width(): nat
    {
      if Assign? && usesNext then 2 else 1
    }
  }

  /** What the argument at position `k` asks for. */
  function ActionAt(cfg: Config, args: seq<string>, k: nat): (a: Action)
    requires k < |args|
    ensures k + a.Width() <= |args|
  {
    var arg := args[k];
    if !("-" <= arg) || arg == "-" then Positional
    else
      var nv := SplitNameAndValue(arg[1..]);
      if nv.name == "" then Terminator
      else
        var loc := LocateFlag(cfg, nv.name);
        if loc.flag.None? then
          if IsUsageFlag(nv.name) then UsageFlag(nv.name) else Unrecognized(nv.name)
        else
          var d := DeduceFlagValue(loc.flag.value, nv, loc.isNegative, args, k);
          Assign(loc.flag.value, d.value, d.ok, d.usesNext)
  }

  /** The flag takes the value. */
  predicate Sets(cfg: Config, a: Action)
  {
    a.Assign? && Accepts(cfg, a.flag, a.text)
  }

  /** No error is reported for the argument; a retired flag never takes a value and is not an error. */
  predicate Fine(cfg: Config, a: Action)
  {
    a.Assign? ==> a.valueOk && (Accepts(cfg, a.flag, a.text) || a.flag.retired)
  }

  // ---------------------------------------------------------------------------------------------
  // Lists of arguments brought in by generator flags
  // ---------------------------------------------------------------------------------------------

  datatype Source = File(name: string) | Env(names: seq<string>) | TryEnv(names: seq<string>)

  function FileSources(names: seq<string>): (srcs: seq<Source>)
    ensures |srcs| == |names|
  {
    seq(|names|, i requires 0 <= i < |names| => File(names[i]))
  }

  /** The lists that setting the flag brings in, first file first. */
  function Sources(cfg: Config, a: Action): seq<Source>
  {
    if !Sets(cfg, a) || ListOf(a.text) == [] then []
    else if a.flag.name == "flagfile" then FileSources(ListOf(a.text))
    else if a.flag.name == "fromenv" then [Env(ListOf(a.text))]
    else if a.flag.name == "tryfromenv" then [TryEnv(ListOf(a.text))]
    else []
  }

  /** The arguments that the lines of a flagfile hold: blank lines and comments are skipped, and any
      other line must start with '-' and not be "--". */
  function LineArgs(lines: seq<string>): Option<seq<string>>
  {
    if lines == [] then Some([])
    else
      var line := StripLeading(lines[0]);
      var rest := LineArgs(lines[1..]);
      if line == "" || line[0] == '#' then rest
      else if line[0] != '-' || line == "--" || rest.None? then None
      else Some([line] + rest.value)
  }

  function EnvArgs(cfg: Config, names: seq<string>, failOnAbsent: bool): Option<seq<string>>
  {
    if names == [] then Some([])
    else
      var n := names[0];
      var rest := EnvArgs(cfg, names[1..], failOnAbsent);
      if n == "fromenv" || n == "tryfromenv" || rest.None? then None
      else if "FLAGS_" + n !in cfg.env then if failOnAbsent then None else rest
      else Some(["--" + n + "=" + cfg.env["FLAGS_" + n]] + rest.value)
  }

  /** The arguments of a source, or None if reading it fails.  Position 0 holds a stand-in for argv[0]. */
  function SourceArgs(cfg: Config, src: Source): Option<seq<string>>
  {
    var body :=
      match src
      case File(name) => if name in cfg.files then LineArgs(cfg.files[name]) else None
      case Env(names) => EnvArgs(cfg, names, true)
      case TryEnv(names) => EnvArgs(cfg, names, false);
    if body.None? then None else Some([""] + body.value)
  }

  // ---------------------------------------------------------------------------------------------
  // Expansion
  // ---------------------------------------------------------------------------------------------

  /** One processed argument: `fromArgv` tells the command line apart from included lists. */
  datatype Event = Event(action: Action, fromArgv: bool, index: nat)

  /** How processing ends: every list read, a terminator on the command line before position `at`, a
      failed internal check, or a list included deeper than the expansion looks. */
  datatype Stop = Ran | Stopped(at: nat) | Aborted | TooDeep

  /** `readOk` says that every included list could be read; `steps` counts the turns of the main loop. */
  datatype Trace = Trace(events: seq<Event>, readOk: bool, stop: Stop, steps: nat)

  const NOTHING := Trace([], true, Ran, 0)
  const UNREAD := Trace([], false, Ran, 0)
  const ABORT := Trace([], false, Aborted, 1)
  const TOO_DEEP := Trace([], false, TooDeep, 0)

  function Then(t: Trace, u: Trace): Trace
  {
    if t.stop.Ran? then Trace(t.events + u.events, t.readOk && u.readOk, u.stop, t.steps + u.steps) else t
  }

  /** Neither aborted nor cut off. */
  predicate Smooth(t: Trace)
  {
    t.stop.Ran? || t.stop.Stopped?
  }

  /** The list from position `k` on, with lists inside each other down to the given depth. */
  function ExpandList(cfg: Config, depth: nat, args: seq<string>, k: nat, top: bool): Trace
    decreases depth, if k < |args| then |args| - k else 0, 0
  {
    hide ActionAt, Sources, SourceArgs;
    if k >= |args| then Trace([], true, Ran, 1)
    else
      var a := ActionAt(cfg, args, k);
      var here := Trace([Event(a, top, k)], true, Ran, 1);
      if (a.Positional? || a.Terminator?) && !top then ABORT
      else if a.Terminator? then here.(stop := Stopped(k + 1))
      else
        Then(Then(here, ExpandSources(cfg, depth, Sources(cfg, a))), ExpandList(cfg, depth, args, k + a.Width(), top))
  }

  function ExpandSource(cfg: Config, depth: nat, src: Source): Trace
    decreases depth, 0, 0
  {
    var args := SourceArgs(cfg, src);
    if args.None? then UNREAD
    else if depth == 0 then TOO_DEEP
    else ExpandList(cfg, depth - 1, args.value, 1, false)
  }

  function ExpandSources(cfg: Config, depth: nat, srcs: seq<Source>): Trace
    decreases depth, 0, |srcs|
  {
    if srcs == [] then NOTHING
    else Then(ExpandSource(cfg, depth, srcs[0]), ExpandSources(cfg, depth, srcs[1..]))
  }

  lemma ThenAssoc(t: Trace, u: Trace, v: Trace)
    ensures Then(Then(t, u), v) == Then(t, Then(u, v))
  {
    if t.stop.Ran? && u.stop.Ran? {
      assert (t.events + u.events) + v.events == t.events + (u.events + v.events);
    }
  }

  lemma ThenNothing(t: Trace)
    ensures Then(NOTHING, t) == t && Then(t, NOTHING) == t
  {
    assert [] + t.events == t.events && t.events + [] == t.events;
  }

  /** A trace that aborts or is cut off never counts as well read; included lists never meet a terminator and never
      yield positional arguments. */
  predicate Regular(t: Trace, top: bool)
  {
    && (t.stop.Aborted? || t.stop.TooDeep? ==> !t.readOk)
    && (t.stop.Stopped? ==> top)
    && (forall e :: e in t.events && e.action.Positional? ==> e.fromArgv)
  }

  lemma ThenRegular(t: Trace, u: Trace, top: bool)
    requires Regular(t, top) && Regular(u, top)
    ensures Regular(Then(t, u), top)
  {
  }

  lemma RegularTop(t: Trace)
    requires Regular(t, false)
    ensures Regular(t, true)
  {
  }

  lemma {:induction false} ListRegular(cfg: Config, depth: nat, args: seq<string>, k: nat, top: bool)
    ensures Regular(ExpandList(cfg, depth, args, k, top), top)
    decreases depth, if k < |args| then |args| - k else 0, 0
  {
    hide ActionAt, Sources, SourceArgs, Then;
    if k < |args| {
      var a := ActionAt(cfg, args, k);
      if !a.Terminator? && (a.Positional? ==> top) {
        var here := Trace([Event(a, top, k)], true, Ran, 1);
        var nested := ExpandSources(cfg, depth, Sources(cfg, a));
        SourcesRegular(cfg, depth, Sources(cfg, a));
        RegularTop(nested);
        ThenRegular(here, nested, top);
        ListRegular(cfg, depth, args, k + a.Width(), top);
        ThenRegular(Then(here, nested), ExpandList(cfg, depth, args, k + a.Width(), top), top);
      }
    }
  }

  lemma {:induction false} SourceRegular(cfg: Config, depth: nat, src: Source)
    ensures Regular(ExpandSource(cfg, depth, src), false)
    decreases depth, 0, 0
  {
    hide SourceArgs, ExpandList;
    if SourceArgs(cfg, src).Some? && depth > 0 {
      ListRegular(cfg, depth - 1, SourceArgs(cfg, src).value, 1, false);
    }
  }

  lemma {:induction false} SourcesRegular(cfg: Config, depth: nat, srcs: seq<Source>)
    ensures Regular(ExpandSources(cfg, depth, srcs), false)
    decreases depth, 0, |srcs|
  {
    hide ExpandSource, Then;
    if srcs != [] {
      SourceRegular(cfg, depth, srcs[0]);
      SourcesRegular(cfg, depth, srcs[1..]);
      ThenRegular(ExpandSource(cfg, depth, srcs[0]), ExpandSources(cfg, depth, srcs[1..]), false);
    }
  }

  // ---------------------------------------------------------------------------------------------
  // Looking deeper changes nothing
  // ---------------------------------------------------------------------------------------------

  lemma ThenDeep(t: Trace, u: Trace)
    ensures Then(t, u).stop.TooDeep? <==> t.stop.TooDeep? || (t.stop.Ran? && u.stop.TooDeep?)
  {
  }

  lemma HereDeep(here: Trace, nested: Trace, rest: Trace)
    requires here.stop.Ran?
    ensures Then(Then(here, nested), rest).stop.TooDeep?
       <==> nested.stop.TooDeep? || (nested.stop.Ran? && rest.stop.TooDeep?)
  {
  }

  lemma SameThen(t1: Trace, u1: Trace, t2: Trace, u2: Trace)
    requires t1 == t2 && (t1.stop.Ran? ==> u1 == u2)
    ensures Then(t1, u1) == Then(t2, u2)
  {
  }

  lemma SameHere(here: Trace, nested1: Trace, rest1: Trace, nested2: Trace, rest2: Trace)
    requires nested1 == nested2 && (nested1.stop.Ran? ==> rest1 == rest2)
    ensures Then(Then(here, nested1), rest1) == Then(Then(here, nested2), rest2)
  {
  }

  /** An expansion that is deep enough stays the same at every greater depth. */
  lemma {:induction false} ListDeeper(cfg: Config, low: nat, high: nat, args: seq<string>, k: nat, top: bool)
    requires low <= high && !ExpandList(cfg, low, args, k, top).stop.TooDeep?
    ensures ExpandList(cfg, high, args, k, top) == ExpandList(cfg, low, args, k, top)
    decreases low, if k < |args| then |args| - k else 0, 0
  {
    hide ActionAt, Sources, SourceArgs, Then;
    if k < |args| {
      var a := ActionAt(cfg, args, k);
      if !a.Terminator? && (a.Positional? ==> top) {
        var srcs, here := Sources(cfg, a), Trace([Event(a, top, k)], true, Ran, 1);
        var nested, rest := ExpandSources(cfg, low, srcs), ExpandList(cfg, low, args, k + a.Width(), top);
        HereDeep(here, nested, rest);
        SourcesDeeper(cfg, low, high, srcs);
        if nested.stop.Ran? {
          ListDeeper(cfg, low, high, args, k + a.Width(), top);
        }
        SameHere(here, nested, rest, ExpandSources(cfg, high, srcs),
                 ExpandList(cfg, high, args, k + a.Width(), top));
      }
    }
  }

  lemma {:induction false} SourceDeeper(cfg: Config, low: nat, high: nat, src: Source)
    requires low <= high && !ExpandSource(cfg, low, src).stop.TooDeep?
    ensures ExpandSource(cfg, high, src) == ExpandSource(cfg, low, src)
    decreases low, 0, 0
  {
    hide SourceArgs, ExpandList;
    if SourceArgs(cfg, src).Some? {
      ListDeeper(cfg, low - 1, high - 1, SourceArgs(cfg, src).value, 1, false);
    }
  }

  lemma {:induction false} SourcesDeeper(cfg: Config, low: nat, high: nat, srcs: seq<Source>)
    requires low <= high && !ExpandSources(cfg, low, srcs).stop.TooDeep?
    ensures ExpandSources(cfg, high, srcs) == ExpandSources(cfg, low, srcs)
    decreases low, 0, |srcs|
  {
    hide ExpandSource, Then;
    if srcs != [] {
      var first, rest := ExpandSource(cfg, low, srcs[0]), ExpandSources(cfg, low, srcs[1..]);
      ThenDeep(first, rest);
      SourceDeeper(cfg, low, high, srcs[0]);
      if first.stop.Ran? {
        SourcesDeeper(cfg, low, high, srcs[1..]);
      }
      SameThen(first, rest, ExpandSource(cfg, high, srcs[0]), ExpandSources(cfg, high, srcs[1..]));
    }
  }

  // ---------------------------------------------------------------------------------------------
  // The whole command line
  // ---------------------------------------------------------------------------------------------

  /** The command line `argv`, after sources that were already waiting when the parse began. */
  function Expand(cfg: Config, depth: nat, waiting: seq<Source>, argv: seq<string>): Trace
  {
    Then(ExpandSources(cfg, depth, waiting), ExpandList(cfg, depth, argv, 1, true))
  }

  /** The positions of argv that an event uses up. */
  function Positions(e: Event): seq<nat>
  {
    if !e.fromArgv then [] else if e.action.Width() == 2 then [e.index, e.index + 1] else [e.index]
  }

  function Used(events: seq<Event>): seq<nat>
  {
    if events == [] then [] else Positions(events[0]) + Used(events[1..])
  }

  function Range(from: nat, to: nat): seq<nat>
    decreases to - from
  {
    if from >= to then [] else [from] + Range(from + 1, to)
  }

  lemma {:induction false} UsedAppend(x: seq<Event>, y: seq<Event>)
    ensures Used(x + y) == Used(x) + Used(y)
    decreases |x|
  {
    if x == [] {
      assert x + y == y;
    } else {
      assert (x + y)[1..] == x[1..] + y;
      UsedAppend(x[1..], y);
    }
  }

  lemma {:induction false} RangeAppend(a: nat, b: nat, c: nat)
    requires a <= b <= c
    ensures Range(a, b) + Range(b, c) == Range(a, c)
    decreases b - a
  {
    if a < b {
      RangeAppend(a + 1, b, c);
    }
  }

  lemma UsedThen(t: Trace, u: Trace)
    ensures Used(Then(t, u).events) == if t.stop.Ran? then Used(t.events) + Used(u.events) else Used(t.events)
  {
    UsedAppend(t.events, u.events);
  }

  lemma {:induction false} NestedUseNothing(cfg: Config, depth: nat, args: seq<string>, k: nat)
    ensures Used(ExpandList(cfg, depth, args, k, false).events) == []
    decreases depth, if k < |args| then |args| - k else 0, 0
  {
    hide ActionAt, Sources, SourceArgs, Then;
    if k < |args| {
      var a := ActionAt(cfg, args, k);
      if !a.Terminator? && !a.Positional? {
        var here := Trace([Event(a, false, k)], true, Ran, 1);
        var nested := ExpandSources(cfg, depth, Sources(cfg, a));
        SourcesUseNothing(cfg, depth, Sources(cfg, a));
        NestedUseNothing(cfg, depth, args, k + a.Width());
        UsedThen(here, nested);
        UsedThen(Then(here, nested), ExpandList(cfg, depth, args, k + a.Width(), false));
      }
    }
  }

  lemma {:induction false} SourcesUseNothing(cfg: Config, depth: nat, srcs: seq<Source>)
    ensures Used(ExpandSources(cfg, depth, srcs).events) == []
    decreases depth, 0, |srcs|
  {
    hide SourceArgs, ExpandList, Then;
    if srcs != [] {
      var args := SourceArgs(cfg, srcs[0]);
      if args.Some? && depth > 0 {
        NestedUseNothing(cfg, depth - 1, args.value, 1);
      }
      SourcesUseNothing(cfg, depth, srcs[1..]);
      UsedThen(ExpandSource(cfg, depth, srcs[0]), ExpandSources(cfg, depth, srcs[1..]));
    }
  }

  /** Where the arguments that were looked at end. */
  function Reached(t: Trace, argv: seq<string>): nat
  {
    if t.stop.Stopped? then t.stop.at else |argv|
  }

  /** The positions from `k` on are used up in order, each exactly once. */
  predicate Covers(t: Trace, argv: seq<string>, k: nat)
  {
    Smooth(t) ==> k <= Reached(t, argv) <= |argv| && Used(t.events) == Range(k, Reached(t, argv))
  }

  lemma OneEvent(a: Action, k: nat)
    ensures Used([Event(a, true, k)]) == Range(k, k + a.Width())
  {
    assert Range(k, k + 1) == [k];
    assert Range(k, k + 2) == [k] + Range(k + 1, k + 2) == [k, k + 1];
    assert Used([Event(a, true, k)]) == Positions(Event(a, true, k)) + Used([]);
  }

  lemma CoversThen(here: Trace, nested: Trace, rest: Trace, argv: seq<string>, k: nat, w: nat)
    requires here.stop.Ran? && Used(here.events) == Range(k, k + w)
    requires Regular(nested, false) && Used(nested.events) == []
    requires Covers(rest, argv, k + w)
    ensures Covers(Then(Then(here, nested), rest), argv, k)
  {
    hide Used, Range;
    UsedThen(here, nested);
    UsedThen(Then(here, nested), rest);
    if nested.stop.Ran? && Smooth(rest) {
      RangeAppend(k, k + w, Reached(rest, argv));
    }
  }

  lemma {:induction false} ListCoverage(cfg: Config, depth: nat, argv: seq<string>, k: nat)
    requires k <= |argv|
    ensures Covers(ExpandList(cfg, depth, argv, k, true), argv, k)
    decreases |argv| - k
  {
    hide ActionAt, Sources, SourceArgs, Then, Regular;
    if k < |argv| {
      var a := ActionAt(cfg, argv, k);
      OneEvent(a, k);
      if !a.Terminator? {
        SourcesUseNothing(cfg, depth, Sources(cfg, a));
        SourcesRegular(cfg, depth, Sources(cfg, a));
        ListCoverage(cfg, depth, argv, k + a.Width());
        CoversThen(Trace([Event(a, true, k)], true, Ran, 1), ExpandSources(cfg, depth, Sources(cfg, a)),
                   ExpandList(cfg, depth, argv, k + a.Width(), true), argv, k, a.Width());
      }
    }
  }

  /** Unless the parse aborts or is cut off, the positions of argv from 1 on are used up one after another, each
      exactly once and in order, up to the terminator or the end. */
  lemma Coverage(cfg: Config, depth: nat, waiting: seq<Source>, argv: seq<string>)
    requires |argv| > 0
    ensures Covers(Expand(cfg, depth, waiting, argv), argv, 1)
    ensures Regular(Expand(cfg, depth, waiting, argv), true)
  {
    hide Then, Regular, Range, Used;
    var nested, rest := ExpandSources(cfg, depth, waiting), ExpandList(cfg, depth, argv, 1, true);
    SourcesUseNothing(cfg, depth, waiting);
    SourcesRegular(cfg, depth, waiting);
    ListRegular(cfg, depth, argv, 1, true);
    ListCoverage(cfg, depth, argv, 1);
    RegularTop(nested);
    ThenRegular(nested, rest, true);
    CoversAfter(nested, rest, argv);
  }

  lemma CoversAfter(nested: Trace, rest: Trace, argv: seq<string>)
    requires Regular(nested, false) && Used(nested.events) == [] && Covers(rest, argv, 1)
    ensures Covers(Then(nested, rest), argv, 1)
  {
    UsedThen(nested, rest);
  }
}

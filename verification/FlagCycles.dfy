/** Which lists of arguments keep the main loop of absl/flags/parse.cc going for ever. */
module FlagCycles {
  import opened FlagText
  import opened FlagExpansion
  import opened FlagStack
  import opened FlagResults
  import opened FlagCrashes
  import opened FlagTermination
  import opened FlagMeaning

  // ---------------------------------------------------------------------------------------------
  // Rankings
  // ---------------------------------------------------------------------------------------------

  predicate Below(rank: map<Source, nat>, bound: nat, srcs: set<Source>)
  {
    forall s :: s in srcs ==> s in rank && rank[s] < bound
  }

  /** The ranked sources only include sources of lower rank. */
  ghost predicate Ranked(cfg: Config, rank: map<Source, nat>)
  {
    forall s :: s in rank && SourceArgs(cfg, s).Some? ==>
      Below(rank, rank[s], Included(cfg, SourceArgs(cfg, s).value, 1, false))
  }

  /** The ranking covers the whole parse. */
  ghost predicate Ranks(cfg: Config, rank: map<Source, nat>, bound: nat, waiting: seq<Source>, argv: seq<string>)
  {
    && Ranked(cfg, rank)
    && Below(rank, bound, set s | s in waiting) && Below(rank, bound, Included(cfg, argv, 1, true))
  }

  lemma IncludedStep(cfg: Config, args: seq<string>, k: nat, top: bool)
    requires k < |args| && !Ends(ActionAt(cfg, args, k), top)
    ensures var a := ActionAt(cfg, args, k);
            Included(cfg, args, k, top) == (set s | s in Sources(cfg, a)) + Included(cfg, args, k + a.Width(), top)
  {
    hide ActionAt, Sources, Ends;
  }

  /** The rank bounds the depth that is needed. */
  lemma {:induction false} RankedList(cfg: Config, rank: map<Source, nat>, bound: nat, depth: nat, args: seq<string>,
                                      k: nat, top: bool)
    requires Ranked(cfg, rank) && Below(rank, bound, Included(cfg, args, k, top)) && bound <= depth
    ensures !ExpandList(cfg, depth, args, k, top).stop.TooDeep?
    decreases bound, if k < |args| then |args| - k else 0, 0
  {
    hide ActionAt, Sources, Then, ExpandSources, Included, Ranked;
    if k < |args| {
      ListActs(cfg, depth, args, k, top);
      var a := ActionAt(cfg, args, k);
      hide ExpandList;
      if !Ends(a, top) {
        IncludedStep(cfg, args, k, top);
        RankedSources(cfg, rank, bound, depth, Sources(cfg, a));
        RankedList(cfg, rank, bound, depth, args, k + a.Width(), top);
        HereDeep(Trace([Event(a, top, k)], true, Ran, 1), ExpandSources(cfg, depth, Sources(cfg, a)),
                 ExpandList(cfg, depth, args, k + a.Width(), top));
      }
    }
  }

  lemma {:induction false} RankedSources(cfg: Config, rank: map<Source, nat>, bound: nat, depth: nat,
                                         srcs: seq<Source>)
    requires Ranked(cfg, rank) && Below(rank, bound, set s | s in srcs) && bound <= depth
    ensures !ExpandSources(cfg, depth, srcs).stop.TooDeep?
    decreases bound, 0, |srcs|
  {
    hide SourceArgs, Then, ExpandList, Included;
    if srcs != [] {
      var args := SourceArgs(cfg, srcs[0]);
      assert srcs[0] in (set s | s in srcs);
      if args.Some? {
        RankedList(cfg, rank, rank[srcs[0]], depth - 1, args.value, 1, false);
      }
      RankedSources(cfg, rank, bound, depth, srcs[1..]);
      ThenDeep(ExpandSource(cfg, depth, srcs[0]), ExpandSources(cfg, depth, srcs[1..]));
    }
  }

  lemma RankedEnds(cfg: Config, rank: map<Source, nat>, bound: nat, waiting: seq<Source>, argv: seq<string>)
    requires Ranks(cfg, rank, bound, waiting, argv)
    ensures !Expand(cfg, bound, waiting, argv).stop.TooDeep?
  {
    hide Then, ExpandSources, ExpandList, Included, Ranked;
    RankedSources(cfg, rank, bound, bound, waiting);
    RankedList(cfg, rank, bound, bound, argv, 1, true);
    ThenDeep(ExpandSources(cfg, bound, waiting), ExpandList(cfg, bound, argv, 1, true));
  }

  // ---------------------------------------------------------------------------------------------
  // Heights
  // ---------------------------------------------------------------------------------------------

  predicate Shallow(cfg: Config, depth: nat, src: Source)
  {
    !ExpandSource(cfg, depth, src).stop.TooDeep?
  }

  /** The least depth, at most `depth`, that is enough for the source. */
  function Height(cfg: Config, src: Source, depth: nat): (h: nat)
    ensures h <= depth && (Shallow(cfg, depth, src) ==> Shallow(cfg, h, src))
  {
    if depth > 0 && Shallow(cfg, depth - 1, src) then Height(cfg, src, depth - 1) else depth
  }

  lemma {:induction false} HeightLeast(cfg: Config, src: Source, depth: nat, d: nat)
    requires d <= depth && Shallow(cfg, d, src)
    ensures Height(cfg, src, depth) <= d
    decreases depth
  {
    hide ExpandSource;
    if d < depth {
      SourceDeeper(cfg, d, depth - 1, src);
      HeightLeast(cfg, src, depth - 1, d);
    }
  }

  /** A list that is read to its end was deep enough for everything it includes. */
  lemma {:induction false} SmoothList(cfg: Config, depth: nat, args: seq<string>, k: nat, top: bool)
    requires Smooth(ExpandList(cfg, depth, args, k, top))
    ensures forall s :: s in Included(cfg, args, k, top) ==> Shallow(cfg, depth, s)
    decreases |args| - k
  {
    hide ActionAt, Sources, Then, ExpandList, ExpandSources, Shallow, Smooth;
    if k < |args| {
      ListActs(cfg, depth, args, k, top);
      var a := ActionAt(cfg, args, k);
      if !Ends(a, top) {
        SourcesRegular(cfg, depth, Sources(cfg, a));
        HereSmooth(Trace([Event(a, top, k)], true, Ran, 1), ExpandSources(cfg, depth, Sources(cfg, a)),
                   ExpandList(cfg, depth, args, k + a.Width(), top));
        SmoothSources(cfg, depth, Sources(cfg, a));
        SmoothList(cfg, depth, args, k + a.Width(), top);
      }
    }
  }

  lemma {:induction false} SmoothSources(cfg: Config, depth: nat, srcs: seq<Source>)
    requires Smooth(ExpandSources(cfg, depth, srcs))
    ensures forall s :: s in srcs ==> Shallow(cfg, depth, s)
    decreases |srcs|
  {
    hide Then, ExpandSource;
    if srcs != [] {
      SourceRegular(cfg, depth, srcs[0]);
      ThenSmooth(ExpandSource(cfg, depth, srcs[0]), ExpandSources(cfg, depth, srcs[1..]));
      SmoothSources(cfg, depth, srcs[1..]);
    }
  }

  /** The heights of the sources that are shallow enough. */
  function Heights(cfg: Config, all: set<Source>, depth: nat): map<Source, nat>
  {
    map s | s in all && Shallow(cfg, depth, s) :: Height(cfg, s, depth)
  }

  lemma HeightsRank(cfg: Config, all: set<Source>, depth: nat)
    requires Closed(cfg, all) && TripFree(cfg, all)
    ensures Ranked(cfg, Heights(cfg, all, depth))
  {
    hide SourceArgs, Included, Height, ExpandList, TripFree;
    var rank := Heights(cfg, all, depth);
    forall s | s in rank && SourceArgs(cfg, s).Some?
      ensures Below(rank, rank[s], Included(cfg, SourceArgs(cfg, s).value, 1, false))
    {
      var args, h := SourceArgs(cfg, s).value, Height(cfg, s, depth);
      NoAbortInside(cfg, all, h - 1, s);
      SmoothList(cfg, h - 1, args, 1, false);
      forall t | t in Included(cfg, args, 1, false)
        ensures t in rank && rank[t] < rank[s]
      {
        SourceDeeper(cfg, h - 1, depth, t);
        HeightLeast(cfg, t, depth, h - 1);
      }
    }
  }

  lemma NoAbortInside(cfg: Config, all: set<Source>, depth: nat, src: Source)
    requires Closed(cfg, all) && TripFree(cfg, all) && src in all && SourceArgs(cfg, src).Some?
    ensures !ExpandList(cfg, depth, SourceArgs(cfg, src).value, 1, false).stop.Aborted?
    ensures !ExpandList(cfg, depth, SourceArgs(cfg, src).value, 1, false).stop.Stopped?
  {
    hide SourceArgs, ExpandList, TripFree, Trips, Included;
    var args := SourceArgs(cfg, src).value;
    ListRegular(cfg, depth, args, 1, false);
    if ExpandList(cfg, depth, args, 1, false).stop.Aborted? {
      assert ExpandSource(cfg, depth + 1, src).stop.Aborted?;
      FirstAborts(cfg, depth + 1, src);
      var chain := BlameSources(cfg, depth + 1, [src]);
      ChainTrips(cfg, all, chain);
    }
  }

  lemma FirstAborts(cfg: Config, depth: nat, src: Source)
    requires ExpandSource(cfg, depth, src).stop.Aborted?
    ensures ExpandSources(cfg, depth, [src]).stop.Aborted?
  {
    hide ExpandSource;
  }

  /** When no list that may be included fails an internal check, the loop ends exactly when the sources can
      be ranked. */
  lemma EndsIffRanked(cfg: Config, waiting: seq<Source>, argv: seq<string>, all: set<Source>)
    requires argv != [] && Holds(cfg, all, waiting, argv) && TripFree(cfg, all)
    ensures LoopEnds(cfg, waiting, argv) <==> exists rank, bound :: Ranks(cfg, rank, bound, waiting, argv)
  {
    hide LoopEnds, Ranks, Expand, Heights, TripFree, Closed;
    EndsIffDeepEnough(cfg, waiting, argv);
    if depth :| !Expand(cfg, depth, waiting, argv).stop.TooDeep? {
      NoTripNoAbort(cfg, depth, waiting, argv, all);
      HeightsRank(cfg, all, depth);
      HeightsCover(cfg, all, depth, waiting, argv);
    }
    if rank, bound :| Ranks(cfg, rank, bound, waiting, argv) {
      RankedEnds(cfg, rank, bound, waiting, argv);
    }
  }

  lemma HeightsCover(cfg: Config, all: set<Source>, depth: nat, waiting: seq<Source>, argv: seq<string>)
    requires Holds(cfg, all, waiting, argv) && Ranked(cfg, Heights(cfg, all, depth))
    requires Smooth(Expand(cfg, depth, waiting, argv))
    ensures Ranks(cfg, Heights(cfg, all, depth), depth + 1, waiting, argv)
  {
    hide Included, ExpandSources, ExpandList, Then, Shallow, Height, Ranked, Closed, Smooth;
    SourcesRegular(cfg, depth, waiting);
    ThenSmooth(ExpandSources(cfg, depth, waiting), ExpandList(cfg, depth, argv, 1, true));
    SmoothSources(cfg, depth, waiting);
    SmoothList(cfg, depth, argv, 1, true);
  }

  // ---------------------------------------------------------------------------------------------
  // Looking as deep as there are sources is enough
  // ---------------------------------------------------------------------------------------------

  function AllShallow(cfg: Config, all: set<Source>, depth: nat): set<Source>
  {
    set s | s in all && Shallow(cfg, depth, s)
  }

  /** Depth `low` is as good as `high` for every source of the set. */
  predicate AsGood(cfg: Config, all: set<Source>, low: nat, high: nat)
  {
    forall s :: s in all && Shallow(cfg, high, s) ==> Shallow(cfg, low, s)
  }

  lemma {:induction false} AsGoodForList(cfg: Config, all: set<Source>, low: nat, high: nat, args: seq<string>, k: nat,
                                         top: bool)
    requires low <= high && AsGood(cfg, all, low, high) && Included(cfg, args, k, top) <= all
    requires !ExpandList(cfg, high, args, k, top).stop.TooDeep?
    ensures !ExpandList(cfg, low, args, k, top).stop.TooDeep?
    decreases |args| - k
  {
    hide ActionAt, Sources, Then, ExpandSources, Included, AsGood;
    if k < |args| {
      ListActs(cfg, low, args, k, top);
      ListActs(cfg, high, args, k, top);
      var a := ActionAt(cfg, args, k);
      hide ExpandList;
      if !Ends(a, top) {
        var srcs, here := Sources(cfg, a), Trace([Event(a, top, k)], true, Ran, 1);
        IncludedStep(cfg, args, k, top);
        HereDeep(here, ExpandSources(cfg, high, srcs), ExpandList(cfg, high, args, k + a.Width(), top));
        HereDeep(here, ExpandSources(cfg, low, srcs), ExpandList(cfg, low, args, k + a.Width(), top));
        AsGoodForSources(cfg, all, low, high, srcs);
        SourcesDeeper(cfg, low, high, srcs);
        if ExpandSources(cfg, low, srcs).stop.Ran? {
          AsGoodForList(cfg, all, low, high, args, k + a.Width(), top);
        }
      }
    }
  }

  lemma {:induction false} AsGoodForSources(cfg: Config, all: set<Source>, low: nat, high: nat, srcs: seq<Source>)
    requires low <= high && AsGood(cfg, all, low, high) && (forall s :: s in srcs ==> s in all)
    requires !ExpandSources(cfg, high, srcs).stop.TooDeep?
    ensures !ExpandSources(cfg, low, srcs).stop.TooDeep?
    decreases |srcs|
  {
    hide Then, ExpandSource;
    if srcs != [] {
      var first := ExpandSource(cfg, high, srcs[0]);
      ThenDeep(first, ExpandSources(cfg, high, srcs[1..]));
      assert srcs[0] in all && Shallow(cfg, high, srcs[0]);
      SourceDeeper(cfg, low, high, srcs[0]);
      if first.stop.Ran? {
        AsGoodForSources(cfg, all, low, high, srcs[1..]);
      }
      ThenDeep(first, ExpandSources(cfg, low, srcs[1..]));
    }
  }

  /** Once one more level adds no source, no level ever does. */
  lemma {:induction false} Settled(cfg: Config, all: set<Source>, low: nat, high: nat)
    requires Closed(cfg, all) && low < high && AsGood(cfg, all, low, low + 1)
    ensures AsGood(cfg, all, low, high)
    decreases high
  {
    hide Included, SourceArgs, ExpandList;
    if high > low + 1 {
      Settled(cfg, all, low, high - 1);
      forall s | s in all && Shallow(cfg, high, s)
        ensures Shallow(cfg, low, s)
      {
        if SourceArgs(cfg, s).Some? {
          AsGoodForList(cfg, all, low, high - 1, SourceArgs(cfg, s).value, 1, false);
          assert Shallow(cfg, low + 1, s);
        }
      }
    }
  }

  lemma ShallowGrows(cfg: Config, all: set<Source>, depth: nat)
    ensures AllShallow(cfg, all, depth) <= AllShallow(cfg, all, depth + 1) <= all
    ensures AllShallow(cfg, all, depth) == AllShallow(cfg, all, depth + 1) ==> AsGood(cfg, all, depth, depth + 1)
  {
    hide ExpandSource;
    forall s | s in AllShallow(cfg, all, depth)
      ensures s in AllShallow(cfg, all, depth + 1)
    {
      SourceDeeper(cfg, depth, depth + 1, s);
    }
    if AllShallow(cfg, all, depth) == AllShallow(cfg, all, depth + 1) {
      forall s | s in all && Shallow(cfg, depth + 1, s)
        ensures Shallow(cfg, depth, s)
      {
        assert s in AllShallow(cfg, all, depth + 1);
      }
    }
  }

  lemma {:induction false} SubsetSize(a: set<Source>, b: set<Source>)
    requires a <= b
    ensures |a| <= |b| && (|a| == |b| ==> a == b)
  {
    assert b == a + (b - a);
  }

  /** Each level adds a source, or nothing changes any more. */
  lemma {:induction false} LevelsGrow(cfg: Config, all: set<Source>, depth: nat)
    requires Closed(cfg, all)
    ensures |AllShallow(cfg, all, depth)| >= depth || AsGood(cfg, all, depth, depth + 1)
    decreases depth
  {
    hide AllShallow, AsGood, Closed, Shallow;
    if depth > 0 {
      var d := depth - 1;
      LevelsGrow(cfg, all, d);
      ShallowGrows(cfg, all, d);
      SubsetSize(AllShallow(cfg, all, d), AllShallow(cfg, all, depth));
      if AsGood(cfg, all, d, depth) {
        Settled(cfg, all, d, depth + 1);
        StillGood(cfg, all, d, depth, depth + 1);
      }
    }
  }

  lemma StillGood(cfg: Config, all: set<Source>, low: nat, mid: nat, high: nat)
    requires low <= mid <= high && AsGood(cfg, all, low, high)
    ensures AsGood(cfg, all, mid, high)
  {
    hide ExpandSource;
    forall s | s in all && Shallow(cfg, high, s)
      ensures Shallow(cfg, mid, s)
    {
      SourceDeeper(cfg, low, mid, s);
    }
  }

  /** If any depth is enough, the number of sources is. */
  lemma DepthSuffices(cfg: Config, waiting: seq<Source>, argv: seq<string>, all: set<Source>, depth: nat)
    requires Holds(cfg, all, waiting, argv) && !Expand(cfg, depth, waiting, argv).stop.TooDeep?
    ensures !Expand(cfg, |all|, waiting, argv).stop.TooDeep?
  {
    hide AllShallow, AsGood, Closed, Shallow, ExpandSources, ExpandList, Then, Included;
    var n := |all|;
    var srcs, list := ExpandSources(cfg, depth, waiting), ExpandList(cfg, depth, argv, 1, true);
    ThenDeep(srcs, list);
    ThenDeep(ExpandSources(cfg, n, waiting), ExpandList(cfg, n, argv, 1, true));
    if depth <= n {
      SourcesDeeper(cfg, depth, n, waiting);
      if srcs.stop.Ran? {
        ListDeeper(cfg, depth, n, argv, 1, true);
      }
    } else {
      AllLevels(cfg, all, depth);
      AsGoodForSources(cfg, all, n, depth, waiting);
      SourcesDeeper(cfg, n, depth, waiting);
      if srcs.stop.Ran? {
        AsGoodForList(cfg, all, n, depth, argv, 1, true);
      }
    }
  }

  lemma AllLevels(cfg: Config, all: set<Source>, depth: nat)
    requires Closed(cfg, all) && depth > |all|
    ensures AsGood(cfg, all, |all|, depth)
  {
    hide Closed, Shallow;
    var n := |all|;
    LevelsGrow(cfg, all, n);
    if |AllShallow(cfg, all, n)| >= n {
      SubsetSize(AllShallow(cfg, all, n), all);
      forall s | s in all
        ensures Shallow(cfg, n, s)
      {
        assert s in AllShallow(cfg, all, n);
      }
    } else {
      Settled(cfg, all, n, depth);
    }
  }

  // ---------------------------------------------------------------------------------------------
  // All sources there are
  // ---------------------------------------------------------------------------------------------

  /** The argument that the environment gives for a name. */
  function EnvArg(cfg: Config, n: string): string
    requires "FLAGS_" + n in cfg.env
  {
    "--" + n + "=" + cfg.env["FLAGS_" + n]
  }

  function FromFiles(cfg: Config): set<Source>
  {
    set n, s | n in cfg.files && SourceArgs(cfg, File(n)).Some?
               && s in Included(cfg, SourceArgs(cfg, File(n)).value, 1, false) :: s
  }

  function FromEnv(cfg: Config): set<Source>
  {
    set v, s | v in cfg.env && |v| >= 6 && "FLAGS_" + v[6..] == v
               && s in Sources(cfg, ActionAt(cfg, [EnvArg(cfg, v[6..])], 0)) :: s
  }

  /** Everything that waits, is named on the command line, or can be included by a file or a variable. */
  function Universe(cfg: Config, waiting: seq<Source>, argv: seq<string>): set<Source>
  {
    (set s | s in waiting) + Included(cfg, argv, 1, true) + FromFiles(cfg) + FromEnv(cfg)
  }

  /** An argument with a value after '=' does not look at the next one. */
  lemma ActsAlone(cfg: Config, args: seq<string>, k: nat, n: string, value: string)
    requires k < |args| && args[k] == "--" + n + "=" + value
    ensures ActionAt(cfg, args, k) == ActionAt(cfg, [args[k]], 0)
  {
    hide LocateFlag, IsUsageFlag, Find;
    var rest := args[k][1..];
    assert rest == "-" + (n + "=" + value);
    assert Consume(rest, "-") == n + "=" + value;
    assert (n + "=" + value)[|n|] == '=';
    var eq := Find(n + "=" + value, '=');
    assert eq <= |n|;
    assert SplitNameAndValue(rest).value == "" ==> SplitNameAndValue(rest).isEmptyValue;
  }

  ghost predicate FromVariable(cfg: Config, arg: string)
  {
    exists n :: "FLAGS_" + n in cfg.env && arg == EnvArg(cfg, n)
  }

  lemma {:induction false} EnvShape(cfg: Config, names: seq<string>, failOnAbsent: bool)
    requires EnvArgs(cfg, names, failOnAbsent).Some?
    ensures forall a :: a in EnvArgs(cfg, names, failOnAbsent).value ==> FromVariable(cfg, a)
    decreases |names|
  {
    if names != [] {
      EnvShape(cfg, names[1..], failOnAbsent);
      var n := names[0];
      if "FLAGS_" + n in cfg.env {
        assert FromVariable(cfg, EnvArg(cfg, n));
      }
    }
  }

  lemma EnvSource(cfg: Config, arg: string, args: seq<string>, k: nat)
    requires k < |args| && args[k] == arg && FromVariable(cfg, arg)
    ensures forall s :: s in Sources(cfg, ActionAt(cfg, args, k)) ==> s in FromEnv(cfg)
  {
    hide Sources, ActionAt;
    var n :| "FLAGS_" + n in cfg.env && arg == EnvArg(cfg, n);
    ActsAlone(cfg, args, k, n, cfg.env["FLAGS_" + n]);
    var v := "FLAGS_" + n;
    assert v[6..] == n;
    assert [args[k]] == [EnvArg(cfg, v[6..])];
  }

  lemma {:induction false} EnvIncludes(cfg: Config, args: seq<string>, k: nat)
    requires forall j :: k <= j < |args| ==> FromVariable(cfg, args[j])
    ensures Included(cfg, args, k, false) <= FromEnv(cfg)
    decreases |args| - k
  {
    hide FromVariable, FromEnv, ActionAt, Sources;
    if k < |args| {
      EnvSource(cfg, args[k], args, k);
      EnvIncludes(cfg, args, k + ActionAt(cfg, args, k).Width());
    }
  }

  lemma EnvList(cfg: Config, body: seq<string>)
    requires forall a :: a in body ==> FromVariable(cfg, a)
    ensures Included(cfg, [""] + body, 1, false) <= FromEnv(cfg)
  {
    hide FromVariable, FromEnv, Included;
    var args := [""] + body;
    forall j | 1 <= j < |args|
      ensures FromVariable(cfg, args[j])
    {
      assert args[j] in body;
    }
    EnvIncludes(cfg, args, 1);
  }

  lemma UniverseHolds(cfg: Config, waiting: seq<Source>, argv: seq<string>)
    ensures Holds(cfg, Universe(cfg, waiting, argv), waiting, argv)
  {
    hide Included, FromEnv, EnvArgs, LineArgs, FromVariable;
    var all := Universe(cfg, waiting, argv);
    forall s | s in all && SourceArgs(cfg, s).Some?
      ensures Included(cfg, SourceArgs(cfg, s).value, 1, false) <= all
    {
      match s
      case File(n) =>
        assert Included(cfg, SourceArgs(cfg, File(n)).value, 1, false) <= FromFiles(cfg);
      case Env(names) =>
        EnvShape(cfg, names, true);
        EnvList(cfg, EnvArgs(cfg, names, true).value);
      case TryEnv(names) =>
        EnvShape(cfg, names, false);
        EnvList(cfg, EnvArgs(cfg, names, false).value);
    }
  }

  /** For every command line, files and environment: the loop ends exactly when the expansion that looks as
      deep as there are sources is not cut off. */
  lemma EndsIff(cfg: Config, waiting: seq<Source>, argv: seq<string>)
    requires argv != []
    ensures LoopEnds(cfg, waiting, argv)
       <==> !Expand(cfg, |Universe(cfg, waiting, argv)|, waiting, argv).stop.TooDeep?
  {
    hide LoopEnds, Expand, Universe, Holds;
    EndsIffDeepEnough(cfg, waiting, argv);
    UniverseHolds(cfg, waiting, argv);
    if depth :| !Expand(cfg, depth, waiting, argv).stop.TooDeep? {
      DepthSuffices(cfg, waiting, argv, Universe(cfg, waiting, argv), depth);
    }
  }

  // ---------------------------------------------------------------------------------------------
  // Two inputs
  // ---------------------------------------------------------------------------------------------

  const NAMES_F: seq<string> := ["prog", "--flagfile=f"]

  lemma OneFile(cfg: Config, args: seq<string>, k: nat, name: char)
    requires "flagfile" in cfg.registry && cfg.registry["flagfile"] == Defined("flagfile")
    requires k < |args| && args[k] == "--flagfile=" + [name] && name != ','
    ensures var a := ActionAt(cfg, args, k); a.Assign? && a.Width() == 1 && Sources(cfg, a) == [File([name])]
  {
    hide ActionAt;
    assert args[k] == "--" + ("flagfile" + "=" + [name]);
    Given(cfg, args, k, "flagfile", [name]);
    assert ListOf([name]) == [[name]] by {
      assert [name][1..] == [];
    }
  }

  lemma {:induction false} SelfTooDeep(cfg: Config, depth: nat)
    requires cfg == Plain(map["f" := ["--flagfile=f"]], map[])
    ensures ExpandSource(cfg, depth, File("f")).stop.TooDeep?
    decreases depth
  {
    hide LineArgs, ActionAt, Sources, ExpandList, Then;
    OneLine("--flagfile=f");
    var args := ["", "--flagfile=f"];
    assert [""] + ["--flagfile=f"] == args;
    assert SourceArgs(cfg, File("f")) == Some(args);
    if depth > 0 {
      SelfTooDeep(cfg, depth - 1);
      FirstTooDeep(cfg, depth - 1, args, 1, false, File("f"), 'f');
    }
  }

  /** A list whose next argument names a file that is too deep is too deep. */
  lemma FirstTooDeep(cfg: Config, depth: nat, args: seq<string>, k: nat, top: bool, src: Source, name: char)
    requires "flagfile" in cfg.registry && cfg.registry["flagfile"] == Defined("flagfile")
    requires k < |args| && args[k] == "--flagfile=" + [name] && name != ',' && src == File([name])
    ensures ExpandSource(cfg, depth, src).stop.Ran? || ExpandList(cfg, depth, args, k, top).stop
         == ExpandSource(cfg, depth, src).stop
  {
    hide ActionAt, Sources, ExpandList, ExpandSource, Then;
    OneFile(cfg, args, k, name);
    ListActs(cfg, depth, args, k, top);
    var a := ActionAt(cfg, args, k);
    var first := ExpandSource(cfg, depth, src);
    assert [src][1..] == [];
    assert ExpandSources(cfg, depth, [src]) == Then(first, NOTHING);
    ThenNothing(first);
    if !first.stop.Ran? {
      HereStops(Trace([Event(a, top, k)], true, Ran, 1), first, ExpandList(cfg, depth, args, k + a.Width(), top));
    }
  }

  /** A flagfile that names itself: the stack is never empty. */
  lemma SelfInclusion(n: nat)
    ensures After(Plain(map["f" := ["--flagfile=f"]], map[]), Begun([], NAMES_F), n).stack != []
  {
    hide After, Expand;
    var cfg := Plain(map["f" := ["--flagfile=f"]], map[]);
    if After(cfg, Begun([], NAMES_F), n).stack == [] {
      EndsIffDeepEnough(cfg, [], NAMES_F);
      var depth :| !Expand(cfg, depth, [], NAMES_F).stop.TooDeep?;
      SelfTooDeep(cfg, depth);
      FirstTooDeep(cfg, depth, NAMES_F, 1, true, File("f"), 'f');
      OnlyArgv(cfg, depth, NAMES_F);
    }
  }

  lemma OnlyArgv(cfg: Config, depth: nat, argv: seq<string>)
    ensures Expand(cfg, depth, [], argv) == ExpandList(cfg, depth, argv, 1, true)
  {
    hide ExpandList;
    NoneWaiting(cfg, depth, ExpandList(cfg, depth, argv, 1, true));
  }

  function TwoFiles(): Config
  {
    Plain(map["f" := ["--flagfile=g", "--flagfile=f"], "g" := ["-"]], map[])
  }

  lemma TwoFilesArgs()
    ensures SourceArgs(TwoFiles(), File("f")) == Some(["", "--flagfile=g", "--flagfile=f"])
    ensures SourceArgs(TwoFiles(), File("g")) == Some(["", "-"])
  {
    hide LineArgs;
    OneLine("-");
    OneLine("--flagfile=f");
    assert [""] + ["-"] == ["", "-"];
    assert LineArgs(["--flagfile=g", "--flagfile=f"]) == Some(["--flagfile=g", "--flagfile=f"]) by {
      TwoLines("--flagfile=g", "--flagfile=f");
    }
    assert [""] + ["--flagfile=g", "--flagfile=f"] == ["", "--flagfile=g", "--flagfile=f"];
  }

  lemma TwoLines(first: string, second: string)
    requires first != "" && first[0] == '-' && first != "--" && LineArgs([second]) == Some([second])
    ensures LineArgs([first, second]) == Some([first, second])
  {
    assert [first, second][1..] == [second];
    assert StripLeading(first) == first;
    assert [first] + [second] == [first, second];
  }

  /** A cycle behind a failed check: the loop ends, in that check, although no ranking exists. */
  lemma EndsUnranked()
    ensures LoopEnds(TwoFiles(), [], NAMES_F) && Expand(TwoFiles(), 2, [], NAMES_F).stop.Aborted?
    ensures forall rank, bound :: !Ranks(TwoFiles(), rank, bound, [], NAMES_F)
  {
    hide ExpandList, ActionAt, Sources, LoopEnds, Ranked, SourceArgs, Plain, Trips;
    var cfg, args := TwoFiles(), ["", "--flagfile=g", "--flagfile=f"];
    TwoFilesArgs();
    RegistryOf();
    assert Trips("-") by { TripsDash(); }
    TripsEnds(cfg, ["", "-"], 1);
    ListActs(cfg, 0, ["", "-"], 1, false);
    FirstTooDeep(cfg, 1, args, 1, false, File("g"), 'g');
    FirstTooDeep(cfg, 2, NAMES_F, 1, true, File("f"), 'f');
    OnlyArgv(cfg, 2, NAMES_F);
    EndsIffDeepEnough(cfg, [], NAMES_F);
    OneFile(cfg, args, 1, 'g');
    OneFile(cfg, args, 2, 'f');
    OneFile(cfg, NAMES_F, 1, 'f');
    assert File("f") in Included(cfg, args, 2, false);
    assert File("f") in Included(cfg, args, 1, false);
    assert File("f") in Included(cfg, NAMES_F, 1, true);
    forall rank, bound
      ensures !Ranks(cfg, rank, bound, [], NAMES_F)
    {
      if Ranks(cfg, rank, bound, [], NAMES_F) {
        RankedSource(cfg, rank, File("f"));
      }
    }
  }

  lemma RegistryOf()
    ensures "flagfile" in TwoFiles().registry && TwoFiles().registry["flagfile"] == Defined("flagfile")
  {
  }

  lemma TripsDash()
    ensures Trips("-")
  {
  }

  lemma RankedSource(cfg: Config, rank: map<Source, nat>, src: Source)
    requires Ranked(cfg, rank) && src in rank && SourceArgs(cfg, src).Some?
    ensures Below(rank, rank[src], Included(cfg, SourceArgs(cfg, src).value, 1, false))
  {
  }
}

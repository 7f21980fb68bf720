/** The command-line parser of absl/flags/parse.cc. */
module FlagParser {
  import opened FlagText
  import opened FlagExpansion
  import opened FlagStack
  import NameOrder

  datatype FlagValue = Text(text: string) | Items(items: seq<string>)

  datatype UnknownFlag = UnknownFlag(fromArgv: bool, name: string)

  /** What ParseAbseilFlagsOnlyImpl leaves for its caller.  Positional arguments are positions in argv,
      as the original returns the argv pointers themselves. */
  datatype Outcome =
    | Crashed
    | Parsed(positional: seq<nat>, unrecognized: seq<UnknownFlag>, success: bool)

  /** The local variables of the main loop. */
  datatype Locals = Locals(stack: seq<ArgsList>, flagfileValue: seq<string>, positional: seq<nat>,
                           unrecognized: seq<UnknownFlag>, success: bool)

  /** How a turn of the loop ends: it goes on, leaves at a terminator, or fails an internal check. */
  datatype Next = Go | Leave | Crash

  // ---------------------------------------------------------------------------------------------
  // Reading a trace
  // ---------------------------------------------------------------------------------------------

  function ValueOf(f: Flag, text: string): FlagValue
  {
    if f.typ == ListType then Items(ListOf(text)) else Text(text)
  }

  /** The flag values after the events, starting from `values`. */
  function ValuesAfter(cfg: Config, values: map<string, FlagValue>, events: seq<Event>): map<string, FlagValue>
    decreases |events|
  {
    if events == [] then values
    else
      var n := |events| - 1;
      var before := ValuesAfter(cfg, values, events[..n]);
      var a := events[n].action;
      if Sets(cfg, a) then before[a.flag.name := ValueOf(a.flag, a.text)] else before
  }

  /** The flags that were set, in order, with repetitions. */
  function FlagsSet(cfg: Config, events: seq<Event>): seq<Flag>
    decreases |events|
  {
    if events == [] then []
    else
      var n := |events| - 1;
      FlagsSet(cfg, events[..n]) + if Sets(cfg, events[n].action) then [events[n].action.flag] else []
  }

  function Positionals(events: seq<Event>): seq<nat>
    decreases |events|
  {
    if events == [] then []
    else
      var n := |events| - 1;
      Positionals(events[..n]) + if events[n].action.Positional? then [events[n].index] else []
  }

  function Unknowns(events: seq<Event>): seq<UnknownFlag>
    decreases |events|
  {
    if events == [] then []
    else
      var n := |events| - 1;
      Unknowns(events[..n])
      + if events[n].action.Unrecognized? then [UnknownFlag(events[n].fromArgv, events[n].action.name)] else []
  }

  function Flagfiles(cfg: Config, a: Action): seq<string>
  {
    if Sets(cfg, a) && a.flag.name == "flagfile" then ListOf(a.text) else []
  }

  /** The flagfiles named on the command line itself. */
  function TopFlagfiles(cfg: Config, events: seq<Event>): seq<string>
    decreases |events|
  {
    if events == [] then []
    else
      var n := |events| - 1;
      TopFlagfiles(cfg, events[..n]) + if events[n].fromArgv then Flagfiles(cfg, events[n].action) else []
  }

  predicate AllFine(cfg: Config, events: seq<Event>)
  {
    forall e :: e in events ==> Fine(cfg, e.action)
  }

  /** How each reading grows by one event. */
  lemma Snoc(cfg: Config, values: map<string, FlagValue>, events: seq<Event>, e: Event)
    ensures ValuesAfter(cfg, values, events + [e])
         == var before := ValuesAfter(cfg, values, events);
            (if Sets(cfg, e.action) then before[e.action.flag.name := ValueOf(e.action.flag, e.action.text)]
             else before)
    ensures FlagsSet(cfg, events + [e])
         == if Sets(cfg, e.action) then FlagsSet(cfg, events) + [e.action.flag] else FlagsSet(cfg, events)
    ensures Positionals(events + [e])
         == if e.action.Positional? then Positionals(events) + [e.index] else Positionals(events)
    ensures Unknowns(events + [e])
         == if e.action.Unrecognized? then Unknowns(events) + [UnknownFlag(e.fromArgv, e.action.name)]
            else Unknowns(events)
    ensures TopFlagfiles(cfg, events + [e])
         == if e.fromArgv && Flagfiles(cfg, e.action) != [] then TopFlagfiles(cfg, events) + Flagfiles(cfg, e.action)
            else TopFlagfiles(cfg, events)
    ensures AllFine(cfg, events + [e]) == (AllFine(cfg, events) && Fine(cfg, e.action))
  {
    hide Sets, Fine, Flagfiles, ValueOf;
    assert (events + [e])[..|events|] == events;
  }

  // ---------------------------------------------------------------------------------------------
  // What a parse leaves behind
  // ---------------------------------------------------------------------------------------------

  const NameOf: Flag -> string := (f: Flag) => f.name

  function ResetValues(values: map<string, FlagValue>, flagfileValue: seq<string>): map<string, FlagValue>
  {
    var files := if flagfileValue != [] then values["flagfile" := Items(flagfileValue)] else values;
    files["fromenv" := Items([])]["tryfromenv" := Items([])]
  }

  /** CanIgnoreUndefinedFlag. */
  predicate CanIgnore(name: string, undefok: seq<string>)
  {
    name in undefok || ("no" <= name && name[2..] in undefok)
  }

  function Kept(unknown: seq<UnknownFlag>, undefok: seq<string>): seq<UnknownFlag>
    decreases |unknown|
  {
    if unknown == [] then []
    else
      var n := |unknown| - 1;
      Kept(unknown[..n], undefok) + if CanIgnore(unknown[n].name, undefok) then [] else [unknown[n]]
  }

  method FilterUnknown(unknown: seq<UnknownFlag>, undefok: seq<string>) returns (kept: seq<UnknownFlag>)
    ensures kept == Kept(unknown, undefok)
  {
    kept := [];
    for i := 0 to |unknown|
      invariant kept == Kept(unknown[..i], undefok)
    {
      assert unknown[..i + 1][..i] == unknown[..i];
      if !CanIgnore(unknown[i].name, undefok) {
        kept := kept + [unknown[i]];
      }
    }
    assert unknown[..|unknown|] == unknown;
  }

  // ---------------------------------------------------------------------------------------------
  // Steps of the proof
  // ---------------------------------------------------------------------------------------------

  lemma StepsLeft(done: Trace, total: Trace, rest: Trace)
    requires done.stop.Ran? && Then(done, rest) == total
    ensures total.steps >= done.steps
  {
  }

  lemma Collected(value: seq<string>, files0: seq<string>, before: seq<string>, more: seq<string>)
    requires value == files0 + before
    ensures value + more == files0 + (before + more)
  {
  }

  lemma ActionRegistered(cfg: Config, args: seq<string>, k: nat)
    requires WellFormed(cfg) && k < |args| && ActionAt(cfg, args, k).Assign?
    ensures var f := ActionAt(cfg, args, k).flag; f.name in cfg.registry && cfg.registry[f.name] == f
  {
    hide SplitNameAndValue, DeduceFlagValue, IsUsageFlag;
  }

  /** Only assignments bring in sources or can go wrong. */
  lemma PlainAction(cfg: Config, a: Action)
    ensures !a.Assign? ==> !Sets(cfg, a) && Fine(cfg, a) && Sources(cfg, a) == [] && Flagfiles(cfg, a) == []
    ensures a.Assign? ==> Fine(cfg, a) == (a.valueOk && (Accepts(cfg, a.flag, a.text) || a.flag.retired))
  {
  }

  lemma TickThen(done: Trace, rest: Trace)
    requires done.stop.Ran?
    ensures Then(done, Then(Trace([], true, Ran, 1), rest)) == Then(done.(steps := done.steps + 1), rest)
  {
    assert [] + rest.events == rest.events;
  }

  lemma EventThen(done: Trace, e: Event, rest: Trace)
    requires done.stop.Ran?
    ensures Then(done, Then(Trace([e], true, Ran, 1), rest))
         == Then(Trace(done.events + [e], done.readOk, Ran, done.steps + 1), rest)
  {
    assert done.events + ([e] + rest.events) == (done.events + [e]) + rest.events;
  }

  lemma StopThen(done: Trace, e: Event, at: nat)
    requires done.stop.Ran?
    ensures Then(done, Trace([e], true, Stopped(at), 1))
         == Trace(done.events + [e], done.readOk, Stopped(at), done.steps + 1)
  {
  }

  lemma AbortThen(done: Trace)
    requires done.stop.Ran?
    ensures Then(done, ABORT).stop.Aborted?
  {
  }

  lemma ReadSoFar(done: Trace, ok: bool, rest: Trace)
    requires done.stop.Ran?
    ensures Then(done, Then(Trace([], ok, Ran, 0), rest)) == Then(done.(readOk := done.readOk && ok), rest)
  {
    assert [] + rest.events == rest.events;
  }

  lemma NoSources(cfg: Config, depth: nat, rest: Trace)
    ensures Then(ExpandSources(cfg, depth, []), rest) == rest
  {
    ThenNothing(rest);
  }

  // ---------------------------------------------------------------------------------------------
  // The parser
  // ---------------------------------------------------------------------------------------------

  class Parser {
    const cfg: Config
    var values: map<string, FlagValue>
    var flagfilePending: bool
    var fromenvPending: bool
    var tryfromenvPending: bool
    /** None until the first parse. */
    var specified: Option<seq<Flag>>

    ghost predicate Valid()
      reads this
    {
      && WellFormed(cfg)
      && (forall n :: n in GENERATORS || n == "undefok" ==> n in values && values[n].Items?)
    }

    function Get(name: string): seq<string>
      requires Valid() && (name in GENERATORS || name == "undefok")
      reads this
    {
      values[name].items
    }

    /** The sources that wait to be read, in the order in which they will be processed. */
    function Waiting(): seq<Source>
      requires Valid()
      reads this
    {
      (if tryfromenvPending then [TryEnv(Get("tryfromenv"))] else [])
      + (if fromenvPending then [Env(Get("fromenv"))] else [])
      + (if flagfilePending then FileSources(Get("flagfile")) else [])
    }

    predicate NothingPending()
      reads this
    {
      !flagfilePending && !fromenvPending && !tryfromenvPending
    }

    // -------------------------------------------------------------------------------------------
    // Reading sources
    // -------------------------------------------------------------------------------------------

    method ReadFromFlagfile(name: string) returns (ok: bool, list: ArgsList)
      ensures ok == SourceArgs(cfg, File(name)).Some?
      ensures ok ==> list == ArgsList(SourceArgs(cfg, File(name)).value, 0)
    {
      list := ArgsList([""], 0);
      if name !in cfg.files {
        return false, list;
      }
      var lines := cfg.files[name];
      var args := [];
      ok := true;
      var i := 0;
      while i < |lines|
        invariant 0 <= i <= |lines|
        invariant LineArgs(lines).Some? == (ok && LineArgs(lines[i..]).Some?)
        invariant ok && LineArgs(lines[i..]).Some? ==> LineArgs(lines).value == args + LineArgs(lines[i..]).value
      {
        hide StripLeading;
        var line := StripLeading(lines[i]);
        assert lines[i..][1..] == lines[i + 1..];
        i := i + 1;
        if line == "" || line[0] == '#' {
          continue;
        }
        if line[0] == '-' {
          if line == "--" {
            ok := false;
            break;
          }
          args := args + [line];
          continue;
        }
        ok := false;
      }
      list := ArgsList([""] + args, 0);
    }

    /** Pushes the lists in reverse, so that the first file is processed first. */
    method ReadFlagfiles(names: seq<string>, stack0: seq<ArgsList>) returns (ok: bool, stack: seq<ArgsList>)
      ensures ok == AllRead(cfg, FileSources(names))
      ensures stack == Pushed(cfg, stack0, FileSources(names))
      ensures ok <==> forall i :: 0 <= i < |names| ==> SourceArgs(cfg, File(names[i])).Some?
      ensures ok ==> |stack| == |stack0| + |names| && stack0 <= stack
      ensures ok ==> forall i :: 0 <= i < |names| ==>
                       stack[|stack| - 1 - i] == ArgsList(SourceArgs(cfg, File(names[i])).value, 0)
    {
      hide SourceArgs, Pushed, AllRead;
      ok, stack := true, stack0;
      PushedNone(cfg, stack0);
      var i := |names|;
      while i > 0
        invariant 0 <= i <= |names|
        invariant ok == AllRead(cfg, FileSources(names[i..]))
        invariant stack == Pushed(cfg, stack0, FileSources(names[i..]))
        invariant ok <==> forall j :: i <= j < |names| ==> SourceArgs(cfg, File(names[j])).Some?
        invariant ok ==> |stack| == |stack0| + (|names| - i) && stack0 <= stack
        invariant ok ==> forall j :: i <= j < |names| ==>
                           stack[|stack| - 1 - (j - i)] == ArgsList(SourceArgs(cfg, File(names[j])).value, 0)
      {
        i := i - 1;
        PushedFirst(cfg, stack0, File(names[i]), FileSources(names[i + 1..]));
        assert FileSources(names[i..]) == [File(names[i])] + FileSources(names[i + 1..]);
        var read, list := ReadFromFlagfile(names[i]);
        if read {
          stack := stack + [list];
        } else {
          ok := false;
        }
      }
      assert names[0..] == names;
    }

    method ReadFlagsFromEnv(names: seq<string>, stack0: seq<ArgsList>, failOnAbsent: bool)
      returns (ok: bool, stack: seq<ArgsList>)
      ensures var src := if failOnAbsent then Env(names) else TryEnv(names);
              ok == AllRead(cfg, [src]) && stack == Pushed(cfg, stack0, [src])
    {
      var args := [];
      ok := true;
      for i := 0 to |names|
        invariant EnvArgs(cfg, names, failOnAbsent).Some? == (ok && EnvArgs(cfg, names[i..], failOnAbsent).Some?)
        invariant ok && EnvArgs(cfg, names[i..], failOnAbsent).Some? ==>
                    EnvArgs(cfg, names, failOnAbsent).value == args + EnvArgs(cfg, names[i..], failOnAbsent).value
      {
        var n := names[i];
        assert names[i..][1..] == names[i + 1..];
        if n == "fromenv" || n == "tryfromenv" {
          ok := false;
        } else if "FLAGS_" + n !in cfg.env {
          if failOnAbsent {
            ok := false;
          }
        } else {
          args := args + ["--" + n + "=" + cfg.env["FLAGS_" + n]];
        }
      }
      PushedOne(cfg, stack0, if failOnAbsent then Env(names) else TryEnv(names));
      assert names[|names|..] == [] && args + [] == args;
      stack := stack0;
      if ok {
        stack := stack + [ArgsList([""] + args, 0)];
      }
    }

    /** Reads whatever waits; flagfiles named while only argv is on the stack are collected. */
    method HandleGeneratorFlags(stack0: seq<ArgsList>, flagfileValue0: seq<string>)
      returns (ok: bool, stack: seq<ArgsList>, flagfileValue: seq<string>)
      requires Valid()
      modifies this
      ensures Valid() && NothingPending() && values == old(values) && specified == old(specified)
      ensures ok == AllRead(cfg, old(Waiting()))
      ensures stack == Pushed(cfg, stack0, old(Waiting()))
      ensures var files := if old(flagfilePending) then FileSources(Get("flagfile")) else [];
              var env := if old(fromenvPending) then [Env(Get("fromenv"))] else [];
              var tryenv := if old(tryfromenvPending) then [TryEnv(Get("tryfromenv"))] else [];
              stack == Pushed(cfg, Pushed(cfg, Pushed(cfg, stack0, files), env), tryenv)
      ensures flagfileValue == flagfileValue0 + if old(flagfilePending) && |stack0| == 1 then Get("flagfile") else []
    {
      hide Pushed, AllRead, WellFormed, FileSources;
      ok, stack, flagfileValue := true, stack0, flagfileValue0;
      ghost var files := if flagfilePending then FileSources(Get("flagfile")) else [];
      ghost var env := if fromenvPending then [Env(Get("fromenv"))] else [];
      ghost var tryenv := if tryfromenvPending then [TryEnv(Get("tryfromenv"))] else [];
      PushedThree(cfg, stack0, tryenv, env, files);
      PushedNone(cfg, stack0);
      if flagfilePending {
        if |stack| == 1 {
          flagfileValue := flagfileValue + Get("flagfile");
        }
        ok, stack := ReadFlagfiles(Get("flagfile"), stack);
        flagfilePending := false;
      }
      assert stack == Pushed(cfg, stack0, files) && ok == AllRead(cfg, files);
      PushedNone(cfg, stack);
      if fromenvPending {
        var read;
        read, stack := ReadFlagsFromEnv(Get("fromenv"), stack, true);
        ok, fromenvPending := ok && read, false;
      }
      assert stack == Pushed(cfg, Pushed(cfg, stack0, files), env) && ok == (AllRead(cfg, files) && AllRead(cfg, env));
      PushedNone(cfg, stack);
      if tryfromenvPending {
        var read;
        read, stack := ReadFlagsFromEnv(Get("tryfromenv"), stack, false);
        ok, tryfromenvPending := ok && read, false;
      }
    }

    // -------------------------------------------------------------------------------------------
    // Setting flags
    // -------------------------------------------------------------------------------------------

    /** Sets a flag from text; updating a generator flag to a nonempty list marks it as pending. */
    method ParseFrom(f: Flag, text: string) returns (ok: bool)
      requires Valid() && NothingPending()
      requires f.name in cfg.registry && cfg.registry[f.name] == f
      modifies this
      ensures Valid() && specified == old(specified)
      ensures ok == Accepts(cfg, f, text)
      ensures values == if ok then old(values)[f.name := ValueOf(f, text)] else old(values)
      ensures Waiting() == Sources(cfg, Assign(f, text, true, false))
      ensures flagfilePending == (Flagfiles(cfg, Assign(f, text, true, false)) != [])
    {
      ok := Accepts(cfg, f, text);
      if !ok {
        return;
      }
      values := values[f.name := ValueOf(f, text)];
      if f.name in GENERATORS && ListOf(text) != [] {
        if f.name == "flagfile" {
          flagfilePending := true;
        } else if f.name == "fromenv" {
          fromenvPending := true;
        } else {
          tryfromenvPending := true;
        }
      }
    }

    // -------------------------------------------------------------------------------------------
    // The main loop
    // -------------------------------------------------------------------------------------------

    /** The results so far, read off the events so far. */
    ghost predicate Reports(p: Locals, done: Trace, start: map<string, FlagValue>)
      reads this
    {
      && p.success == (done.readOk && AllFine(cfg, done.events))
      && p.positional == [0] + Positionals(done.events)
      && p.unrecognized == Unknowns(done.events)
      && specified == Some(FlagsSet(cfg, done.events))
      && values == ValuesAfter(cfg, start, done.events)
    }

    /** The local state of the loop says what the events so far amount to, and the events so far
        followed by what is left are the whole expansion. */
    ghost predicate Progress(p: Locals, done: Trace, total: Trace, start: map<string, FlagValue>, files0: seq<string>,
                             depth: nat, argv: seq<string>)
      reads this
    {
      && Valid() && StackOk(p.stack) && !total.stop.TooDeep?
      && (p.stack == [] ==> NothingPending())
      && (p.stack != [] ==> p.stack[0].args == argv)
      && done.stop.Ran?
      && Then(done, Then(ExpandSources(cfg, depth, Waiting()), Rest(cfg, depth, p.stack))) == total
      && Reports(p, done, start)
      && p.flagfileValue + (if flagfilePending && |p.stack| == 1 then Get("flagfile") else [])
      == files0 + TopFlagfiles(cfg, done.events)
    }

    /** The first part of a turn: whatever waits is read and pushed. */
    method Generate(p: Locals, ghost done: Trace, ghost total: Trace, ghost start: map<string, FlagValue>,
                    ghost files0: seq<string>, ghost depth: nat, ghost argv: seq<string>)
      returns (q: Locals, ghost after: Trace)
      requires Progress(p, done, total, start, files0, depth, argv) && p.stack != []
      modifies this
      ensures Progress(q, after, total, start, files0, depth, argv) && q.stack != [] && NothingPending()
      ensures q.stack == Pushed(cfg, p.stack, old(Waiting())) && after.steps == done.steps
    {
      hide StackOk, Pushed, AllRead, WellFormed, Then, Rest, ExpandSources, ExpandList, AllFine;
      ghost var waiting := Waiting();
      PushedOk(cfg, p.stack, waiting);
      ThenDeep(done, Then(ExpandSources(cfg, depth, waiting), Rest(cfg, depth, p.stack)));
      PushedRest(cfg, depth, p.stack, waiting);
      var ok, stack, flagfileValue := HandleGeneratorFlags(p.stack, p.flagfileValue);
      q := p.(stack := stack, flagfileValue := flagfileValue, success := p.success && ok);
      after := done.(readOk := done.readOk && ok);
      ReadSoFar(done, ok, Rest(cfg, depth, stack));
      NoSources(cfg, depth, Rest(cfg, depth, stack));
      assert Waiting() == [];
    }

    /** Sets the flag of an assignment; failing on a retired flag is not an error. */
    method SetFlag(a: Action) returns (fine: bool)
      requires Valid() && NothingPending() && specified.Some?
      requires a.Assign? && a.flag.name in cfg.registry && cfg.registry[a.flag.name] == a.flag
      modifies this
      ensures Valid()
      ensures fine == (Accepts(cfg, a.flag, a.text) || a.flag.retired)
      ensures values == if Sets(cfg, a) then old(values)[a.flag.name := ValueOf(a.flag, a.text)] else old(values)
      ensures specified == Some(if Sets(cfg, a) then old(specified.value) + [a.flag] else old(specified.value))
      ensures Waiting() == Sources(cfg, a)
      ensures flagfilePending == (Flagfiles(cfg, a) != [])
      ensures flagfilePending ==> Get("flagfile") == Flagfiles(cfg, a)
    {
      hide ListOf, Accepts;
      var ok := ParseFrom(a.flag, a.text);
      fine := ok;
      if ok {
        specified := Some(specified.value + [a.flag]);
      } else if a.flag.retired {
        fine := true;
      }
    }

    lemma Dropped(p: Locals, done: Trace, total: Trace, start: map<string, FlagValue>, files0: seq<string>,
                  depth: nat, argv: seq<string>)
      requires Progress(p, done, total, start, files0, depth, argv) && p.stack != [] && NothingPending()
      requires p.stack[|p.stack| - 1].PopFront().next == |p.stack[|p.stack| - 1].args|
      ensures Progress(p.(stack := p.stack[..|p.stack| - 1]), done.(steps := done.steps + 1), total, start, files0,
                       depth, argv)
    {
      hide StackOk, WellFormed, Then, Rest, ExpandSources, ExpandList, AllFine;
      assert Waiting() == [];
      var n := |p.stack| - 1;
      StackOkTop(p.stack, p.stack[n]);
      NoSources(cfg, depth, Rest(cfg, depth, p.stack));
      TurnDrops(cfg, depth, p.stack);
      TickThen(done, Rest(cfg, depth, p.stack[..n]));
      NoSources(cfg, depth, Rest(cfg, depth, p.stack[..n]));
    }

    lemma TerminatorReports(p: Locals, a: Action, top: bool, index: nat, done: Trace, start: map<string, FlagValue>)
      requires Reports(p, done, start) && a.Terminator?
      ensures forall q: Locals :: q == p.(stack := q.stack) ==>
                Reports(q, Trace(done.events + [Event(a, top, index)], done.readOk, Ran, done.steps + 1), start)
      ensures TopFlagfiles(cfg, done.events + [Event(a, top, index)]) == TopFlagfiles(cfg, done.events)
    {
      hide AllFine, Fine, Sets, Flagfiles, ValuesAfter, FlagsSet, Positionals, Unknowns, TopFlagfiles, ValueOf;
      Snoc(cfg, start, done.events, Event(a, top, index));
      PlainAction(cfg, a);
    }

    /** Carries out one action of a list and records it. */
    method Act(p: Locals, stack: seq<ArgsList>, a: Action, top: bool, index: nat, ghost done: Trace,
               ghost start: map<string, FlagValue>, ghost files0: seq<string>)
      returns (q: Locals, ghost after: Trace)
      requires Valid() && NothingPending() && Reports(p, done, start)
      requires p.flagfileValue == files0 + TopFlagfiles(cfg, done.events)
      requires !a.Terminator?
      requires a.Assign? ==> a.flag.name in cfg.registry && cfg.registry[a.flag.name] == a.flag
      modifies this
      ensures Valid() && Waiting() == Sources(cfg, a)
      ensures after == Trace(done.events + [Event(a, top, index)], done.readOk, Ran, done.steps + 1)
      ensures Reports(q, after, start)
      ensures q.stack == stack
      ensures q.flagfileValue + (if flagfilePending && top then Get("flagfile") else [])
           == files0 + TopFlagfiles(cfg, after.events)
    {
      hide WellFormed, AllFine, Fine, Sets, ListOf, Sources, Flagfiles, ValuesAfter, FlagsSet, Positionals, Unknowns,
           TopFlagfiles, ValueOf;
      q := p.(stack := stack);
      ghost var e := Event(a, top, index);
      after := Trace(done.events + [e], done.readOk, Ran, done.steps + 1);
      Snoc(cfg, start, done.events, e);
      PlainAction(cfg, a);
      Collected(p.flagfileValue, files0, TopFlagfiles(cfg, done.events), Flagfiles(cfg, a));
      match a {
        case Positional =>
          q := q.(positional := p.positional + [index]);
          assert Waiting() == [];
        case UsageFlag(_) =>
          assert Waiting() == [];
        case Unrecognized(name) =>
          q := q.(unrecognized := p.unrecognized + [UnknownFlag(top, name)]);
          assert Waiting() == [];
        case Assign(_, _, valueOk, _) =>
          var fine := SetFlag(a);
          q := q.(success := p.success && valueOk && fine);
      }
    }

    /** The second part of a turn: the next argument of the list on top. */
    method Turn(p: Locals, ghost done: Trace, ghost total: Trace, ghost start: map<string, FlagValue>,
                ghost files0: seq<string>, ghost depth: nat, ghost argv: seq<string>)
      returns (next: Next, q: Locals, ghost after: Trace)
      requires Progress(p, done, total, start, files0, depth, argv) && p.stack != [] && NothingPending()
      modifies this
      ensures next.Go? ==> Progress(q, after, total, start, files0, depth, argv) && after.steps == done.steps + 1
      ensures next.Leave? ==>
                && Valid() && NothingPending() && Reports(q, after, start)
                && |q.stack| == 1 && q.stack[0].next <= |argv| && total == after.(stop := Stopped(q.stack[0].next))
                && q.flagfileValue == files0 + TopFlagfiles(cfg, after.events)
      ensures next.Crash? ==> total.stop.Aborted?
      ensures Loop(p.stack, []).Valid()
      ensures LoopTurn(cfg, Loop(p.stack, [])) == if next.Go? then Loop(q.stack, Waiting()) else ENDED
    {
      hide StackOk, AllRead, WellFormed, Then, Rest, ExpandSources, ExpandList, AllFine, Fine, Sets,
           ActionAt, ListOf, Sources, Flagfiles, TopFlagfiles, ValueOf, Reports, FileSources, LoopTurn, Pushed;
      q, after := p, done;
      assert Waiting() == [];
      var n := |p.stack| - 1;
      StackOkTop(p.stack, p.stack[n]);
      LoopActs(cfg, p.stack);
      NoSources(cfg, depth, Rest(cfg, depth, p.stack));
      var curr := p.stack[n].PopFront();
      if curr.Size() == 0 {
        Dropped(p, done, total, start, files0, depth, argv);
        q := p.(stack := p.stack[..n]);
        after := done.(steps := done.steps + 1);
        return Go, q, after;
      }
      TurnActs(cfg, depth, p.stack);
      var a := ActionAt(cfg, curr.args, curr.next);
      var top := n == 0;
      if (a.Positional? || a.Terminator?) && !top {
        AbortThen(done);
        return Crash, q, after;
      }
      ghost var e := Event(a, top, curr.next);
      if a.Terminator? {
        TerminatorReports(p, a, top, curr.next, done, start);
        after := Trace(done.events + [e], done.readOk, Ran, done.steps + 1);
        q := p.(stack := [curr.PopFront()]);
        StopThen(done, e, curr.next + 1);
        return Leave, q, after;
      }
      var moved := WithTop(p.stack, curr.(next := curr.next + a.Width() - 1));
      StackOkTop(p.stack, curr.(next := curr.next + a.Width() - 1));
      EventThen(done, e, Then(ExpandSources(cfg, depth, Sources(cfg, a)), Rest(cfg, depth, moved)));
      if a.Assign? {
        ActionRegistered(cfg, curr.args, curr.next);
      }
      q, after := Act(p, moved, a, top, curr.next, done, start, files0);
      next := Go;
    }

    /** A whole turn. */
    method Round(p: Locals, ghost done: Trace, ghost total: Trace, ghost start: map<string, FlagValue>,
                 ghost files0: seq<string>, ghost depth: nat, ghost argv: seq<string>)
      returns (next: Next, q: Locals, ghost after: Trace)
      requires Progress(p, done, total, start, files0, depth, argv) && p.stack != []
      modifies this
      ensures next.Go? ==> Progress(q, after, total, start, files0, depth, argv) && after.steps == done.steps + 1
      ensures next.Leave? ==>
                && Valid() && NothingPending() && Reports(q, after, start)
                && |q.stack| == 1 && q.stack[0].next <= |argv| && total == after.(stop := Stopped(q.stack[0].next))
                && q.flagfileValue == files0 + TopFlagfiles(cfg, after.events)
      ensures next.Crash? ==> total.stop.Aborted?
      ensures Loop(p.stack, old(Waiting())).Valid()
      ensures next.Go? ==> Loop(q.stack, Waiting()) == LoopTurn(cfg, Loop(p.stack, old(Waiting())))
      ensures !next.Go? ==> LoopTurn(cfg, Loop(p.stack, old(Waiting()))) == ENDED
    {
      hide StackOk, WellFormed, Then, Rest, ExpandSources, ExpandList, AllFine, Reports, Pushed, LoopTurn;
      LoopReads(cfg, Loop(p.stack, Waiting()));
      q, after := Generate(p, done, total, start, files0, depth, argv);
      next, q, after := Turn(q, after, total, start, files0, depth, argv);
    }

    // -------------------------------------------------------------------------------------------
    // The parse
    // -------------------------------------------------------------------------------------------

    /** Puts the collected flagfiles back and empties the environment flags. */
    method ResetGeneratorFlags(flagfileValue: seq<string>)
      requires Valid()
      modifies this
      ensures Valid() && specified == old(specified)
      ensures values == ResetValues(old(values), flagfileValue)
      ensures flagfilePending == (old(flagfilePending) && flagfileValue == [])
      ensures !fromenvPending && !tryfromenvPending
    {
      if flagfileValue != [] {
        values := values["flagfile" := Items(flagfileValue)];
        flagfilePending := true;
        flagfilePending := false;
      }
      if Get("fromenv") != [] {
        values := values["fromenv" := Items([])];
      }
      if Get("tryfromenv") != [] {
        values := values["tryfromenv" := Items([])];
      }
      fromenvPending, tryfromenvPending := false, false;
    }

    ghost predicate SpecifiedSorted()
      reads this
    {
      specified.Some? && NameOrder.SortedByName(specified.value, NameOf)
    }

    /** Everything a parse leaves behind, read off the expansion of its command line. */
    ghost predicate Delivers(outcome: Outcome, t: Trace, argv: seq<string>, start: map<string, FlagValue>,
                             files0: seq<string>)
      requires Valid()
      reads this
    {
      && outcome.Parsed?
      && outcome.success == (t.readOk && AllFine(cfg, t.events))
      && outcome.positional == [0] + Positionals(t.events) + Range(Reached(t, argv), |argv|)
      && values == ResetValues(ValuesAfter(cfg, start, t.events), files0 + TopFlagfiles(cfg, t.events))
      && outcome.unrecognized == Kept(Unknowns(t.events), Get("undefok"))
      && NothingPending()
      && Get("fromenv") == [] && Get("tryfromenv") == []
      && (files0 + TopFlagfiles(cfg, t.events) != [] ==> Get("flagfile") == files0 + TopFlagfiles(cfg, t.events))
      && SpecifiedSorted()
      && multiset(specified.value) == multiset(FlagsSet(cfg, t.events))
    }

    lemma Finished(p: Locals, done: Trace, total: Trace, start: map<string, FlagValue>, files0: seq<string>,
                   depth: nat, argv: seq<string>)
      requires Progress(p, done, total, start, files0, depth, argv) && p.stack == []
      ensures total == done && p.flagfileValue == files0 + TopFlagfiles(cfg, done.events)
    {
      hide WellFormed, Then, ExpandList, Reports;
      assert Waiting() == [];
      ThenNothing(NOTHING);
      ThenNothing(done);
    }

    method Begin(argv: seq<string>, ghost total: Trace, ghost depth: nat)
      returns (p: Locals, ghost done: Trace)
      requires Valid() && argv != []
      requires total == Expand(cfg, depth, Waiting(), argv) && !total.stop.TooDeep?
      modifies this
      ensures Progress(p, done, total, old(values), if old(flagfilePending) then old(Get("flagfile")) else [],
                       depth, argv)
      ensures done == NOTHING && Waiting() == old(Waiting()) && p.stack == [ArgsList(argv, 0)]
    {
      hide WellFormed, Then, ExpandSources, ExpandList;
      specified := Some([]);
      p := Locals([ArgsList(argv, 0)], [], [0], [], true);
      done := NOTHING;
      assert p.stack[..0] == [];
      var alone := ExpandList(cfg, depth, argv, 1, true);
      ThenNothing(alone);
      assert Rest(cfg, depth, p.stack) == Then(alone, Rest(cfg, depth, []));
      ThenNothing(total);
      var files := if flagfilePending then Get("flagfile") else [];
      assert [] + files == files && files + [] == files;
    }

    method Finish(p: Locals, ghost done: Trace, ghost total: Trace, argv: seq<string>,
                  ghost start: map<string, FlagValue>, ghost files0: seq<string>)
      returns (outcome: Outcome)
      requires Valid() && NothingPending() && Reports(p, done, start)
      requires p.flagfileValue == files0 + TopFlagfiles(cfg, done.events)
      requires |p.stack| <= 1 && (p.stack != [] ==> p.stack[0].next <= |argv|)
      requires total == if p.stack == [] then done else done.(stop := Stopped(p.stack[0].next))
      requires !total.stop.Aborted?
      requires p.stack == [] ==> total.stop.Ran?
      modifies this
      ensures Valid() && Delivers(outcome, total, argv, start, files0)
    {
      hide WellFormed, AllFine, TopFlagfiles, FlagsSet, Positionals, Unknowns, ValuesAfter;
      ResetGeneratorFlags(p.flagfileValue);
      var positional: seq<nat> := p.positional;
      if p.stack != [] {
        ghost var from := p.stack[0].next;
        for i := p.stack[0].next to |argv|
          invariant positional + Range(i, |argv|) == p.positional + Range(from, |argv|)
        {
          assert Range(i, |argv|) == [i] + Range(i + 1, |argv|);
          assert positional + ([i] + Range(i + 1, |argv|)) == (positional + [i]) + Range(i + 1, |argv|);
          positional := positional + [i];
        }
      }
      var sorted := NameOrder.Sort(specified.value, NameOf);
      specified := Some(sorted);
      var kept := FilterUnknown(p.unrecognized, Get("undefok"));
      outcome := Parsed(positional, kept, p.success);
    }

    /** ParseAbseilFlagsOnlyImpl.  The ghost argument witnesses that the loop ends. */
    method Parse(argv: seq<string>, ghost depth: nat) returns (outcome: Outcome)
      requires Valid() && (argv != [] ==> !Expand(cfg, depth, Waiting(), argv).stop.TooDeep?)
      modifies this
      ensures argv == [] ==> outcome.Crashed?
      ensures argv != [] && Expand(cfg, depth, old(Waiting()), argv).stop.Aborted? ==> outcome.Crashed?
      ensures argv != [] && !Expand(cfg, depth, old(Waiting()), argv).stop.Aborted? ==>
                && Valid()
                && Delivers(outcome, Expand(cfg, depth, old(Waiting()), argv), argv, old(values),
                            if old(flagfilePending) then old(Get("flagfile")) else [])
    {
      hide StackOk, WellFormed, Then, Rest, ExpandSources, ExpandList, AllFine, Reports, Range, LoopTurn, After;
      if argv == [] {
        return Crashed;
      }
      ghost var total := Expand(cfg, depth, Waiting(), argv);
      ghost var start := values;
      ghost var files0 := if flagfilePending then Get("flagfile") else [];
      var p, done := Begin(argv, total, depth);
      var next := Go;
      ghost var began := Loop(p.stack, Waiting());
      AfterNext(cfg, began, 0);
      while p.stack != []
        invariant next.Go? && Progress(p, done, total, start, files0, depth, argv)
        invariant Loop(p.stack, Waiting()).Valid() && Loop(p.stack, Waiting()) == After(cfg, began, done.steps)
        decreases total.steps - done.steps
      {
        StepsLeft(done, total, Then(ExpandSources(cfg, depth, Waiting()), Rest(cfg, depth, p.stack)));
        AfterNext(cfg, began, done.steps);
        next, p, done := Round(p, done, total, start, files0, depth, argv);
        if next.Crash? {
          return Crashed;
        }
        if next.Leave? {
          break;
        }
      }
      if next.Go? {
        Finished(p, done, total, start, files0, depth, argv);
      }
      outcome := Finish(p, done, total, argv, start, files0);
    }

    /** WasPresentOnCommandLine. */
    method WasPresent(name: string) returns (found: bool)
      requires SpecifiedSorted()
      ensures found <==> exists f: Flag :: f in specified.value && f.name == name
    {
      found := NameOrder.BinarySearch(specified.value, NameOf, name);
      assert forall f: Flag :: f in specified.value ==> NameOf(f) == f.name;
    }
  }
}

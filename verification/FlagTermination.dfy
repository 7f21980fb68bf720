/** When the main loop of absl/flags/parse.cc ends.

    Lists that include each other in a cycle keep the loop going for ever, unless it fails an internal
    check before the cycle closes. */
module FlagTermination {
  import opened FlagText
  import opened FlagExpansion
  import opened FlagStack
  import opened FlagResults
  import opened FlagCrashes

  // ---------------------------------------------------------------------------------------------
  // Turns of the loop and depth of the expansion
  // ---------------------------------------------------------------------------------------------

  function Begun(waiting: seq<Source>, argv: seq<string>): (l: Loop)
    requires argv != []
    ensures l.Valid()
  {
    Loop([ArgsList(argv, 0)], waiting)
  }

  ghost predicate LoopEnds(cfg: Config, waiting: seq<Source>, argv: seq<string>)
    requires argv != []
  {
    exists n: nat :: After(cfg, Begun(waiting, argv), n).stack == []
  }

  /** What is left to do. */
  function Left(cfg: Config, depth: nat, l: Loop): Trace
  {
    Then(ExpandSources(cfg, depth, l.waiting), Rest(cfg, depth, l.stack))
  }

  lemma BegunLeft(cfg: Config, depth: nat, waiting: seq<Source>, argv: seq<string>)
    requires argv != []
    ensures Left(cfg, depth, Begun(waiting, argv)) == Expand(cfg, depth, waiting, argv)
  {
    hide ExpandSources, ExpandList, Then;
    var stack := [ArgsList(argv, 0)];
    assert stack[..0] == [];
    assert Rest(cfg, depth, stack) == Then(ExpandList(cfg, depth, argv, 1, true), Rest(cfg, depth, []));
    ThenNothing(ExpandList(cfg, depth, argv, 1, true));
  }

  lemma EndedLeft(cfg: Config, depth: nat)
    ensures Left(cfg, depth, ENDED) == NOTHING
  {
    hide ExpandSource, ExpandList, Then;
    assert ExpandSources(cfg, depth, []) == Rest(cfg, depth, []) == NOTHING;
    ThenNothing(NOTHING);
  }

  lemma ThenSteps(t: Trace, u: Trace)
    ensures t.stop.Ran? ==> Then(t, u).stop == u.stop && Then(t, u).steps == t.steps + u.steps
  {
  }

  /** The turn of a loop with nothing waiting: one step, and what is left after it. */
  lemma ActLeft(cfg: Config, depth: nat, stack: seq<ArgsList>)
    requires StackOk(stack) && stack != []
    ensures Loop(stack, []).Valid()
    ensures var left := Left(cfg, depth, LoopTurn(cfg, Loop(stack, [])));
            && Rest(cfg, depth, stack).steps == left.steps + 1
            && Rest(cfg, depth, stack).stop.TooDeep? == left.stop.TooDeep?
  {
    hide LoopTurn, Rest, ExpandSources, Then, ActionAt, Sources;
    LoopActs(cfg, stack);
    EndedLeft(cfg, depth);
    StackOkTop(stack, stack[|stack| - 1]);
    var curr := Turn(stack);
    if !curr.Valid() {
      TurnDrops(cfg, depth, stack);
      var rest := Rest(cfg, depth, stack[..|stack| - 1]);
      NoneWaiting(cfg, depth, rest);
      ThenSteps(Trace([], true, Ran, 1), rest);
    } else {
      TurnActs(cfg, depth, stack);
      var a := ActionAt(cfg, curr.args, curr.next);
      ThenSteps(Trace([Event(a, |stack| == 1, curr.next)], true, Ran, 1),
                Left(cfg, depth, LoopTurn(cfg, Loop(stack, []))));
    }
  }

  lemma NoneWaiting(cfg: Config, depth: nat, rest: Trace)
    ensures Then(ExpandSources(cfg, depth, []), rest) == rest
  {
    ThenNothing(rest);
  }

  /** A turn takes one step off what is left. */
  lemma TurnLeft(cfg: Config, depth: nat, l: Loop)
    requires l.Valid() && l.stack != [] && !Left(cfg, depth, l).stop.TooDeep?
    ensures var left := Left(cfg, depth, LoopTurn(cfg, l));
            !left.stop.TooDeep? && Left(cfg, depth, l).steps == left.steps + 1
  {
    hide LoopTurn, Rest, ExpandSources, Then, AllRead, Pushed;
    PushedOk(cfg, l.stack, l.waiting);
    LoopReads(cfg, l);
    PushedRest(cfg, depth, l.stack, l.waiting);
    var stack := Pushed(cfg, l.stack, l.waiting);
    ThenSteps(Trace([], AllRead(cfg, l.waiting), Ran, 0), Rest(cfg, depth, stack));
    ActLeft(cfg, depth, stack);
  }

  /** If what is left after a turn can be expanded, so could what was left before, one level deeper. */
  lemma TurnRight(cfg: Config, depth: nat, l: Loop)
    requires l.Valid() && l.stack != [] && !Left(cfg, depth, LoopTurn(cfg, l)).stop.TooDeep?
    ensures !Left(cfg, depth + 1, l).stop.TooDeep?
  {
    hide LoopTurn, Rest, ExpandSources, Then, Pushed;
    PushedOk(cfg, l.stack, l.waiting);
    LoopReads(cfg, l);
    ActLeft(cfg, depth, Pushed(cfg, l.stack, l.waiting));
    UnpushedRest(cfg, depth, l.stack, l.waiting);
  }

  lemma {:induction false} RestDeeper(cfg: Config, low: nat, high: nat, stack: seq<ArgsList>)
    requires low <= high && !Rest(cfg, low, stack).stop.TooDeep?
    ensures Rest(cfg, high, stack) == Rest(cfg, low, stack)
    decreases |stack|
  {
    hide ExpandList, Then;
    if stack != [] {
      var n := |stack| - 1;
      var list := ExpandList(cfg, low, stack[n].args, stack[n].next + 1, n == 0);
      var rest := Rest(cfg, low, stack[..n]);
      ThenDeep(list, rest);
      ListDeeper(cfg, low, high, stack[n].args, stack[n].next + 1, n == 0);
      if list.stop.Ran? {
        RestDeeper(cfg, low, high, stack[..n]);
      }
      SameThen(list, rest, list, Rest(cfg, high, stack[..n]));
    }
  }

  lemma {:induction false} UnpushedRest(cfg: Config, depth: nat, stack: seq<ArgsList>, srcs: seq<Source>)
    requires StackOk(stack) && stack != [] && !Rest(cfg, depth, Pushed(cfg, stack, srcs)).stop.TooDeep?
    ensures !Then(ExpandSources(cfg, depth + 1, srcs), Rest(cfg, depth + 1, stack)).stop.TooDeep?
    decreases |srcs|
  {
    hide SourceArgs, ExpandList, Then, Rest, StackOk;
    var rest := Rest(cfg, depth + 1, stack);
    if srcs == [] {
      RestDeeper(cfg, depth, depth + 1, stack);
      ThenNothing(rest);
    } else {
      var more := srcs[1..];
      var below, args := Pushed(cfg, stack, more), SourceArgs(cfg, srcs[0]);
      var list, others := ExpandSource(cfg, depth + 1, srcs[0]), ExpandSources(cfg, depth + 1, more);
      PushedOk(cfg, stack, more);
      if args.Some? {
        RestTop(cfg, depth, below, ArgsList(args.value, 0));
        ThenDeep(list, Rest(cfg, depth, below));
      }
      if list.stop.Ran? {
        UnpushedRest(cfg, depth, stack, more);
      }
      ThenAssoc(list, others, rest);
      ThenDeep(list, Then(others, rest));
    }
  }

  lemma {:induction false} AfterFirst(cfg: Config, l: Loop, n: nat)
    requires l.Valid()
    ensures After(cfg, l, n + 1) == After(cfg, LoopTurn(cfg, l), n)
    decreases n
  {
    hide LoopTurn;
    if n > 0 {
      AfterFirst(cfg, l, n - 1);
    }
  }

  lemma {:induction false} EndsOnTime(cfg: Config, depth: nat, l: Loop, n: nat)
    requires l.Valid() && !Left(cfg, depth, l).stop.TooDeep? && n <= Left(cfg, depth, l).steps
    ensures After(cfg, l, n).stack == [] <==> n == Left(cfg, depth, l).steps
    decreases n
  {
    hide LoopTurn, Left, After;
    AfterNext(cfg, l, 0);
    if l.stack == [] {
      EndedLeft(cfg, depth);
    } else {
      TurnLeft(cfg, depth, l);
      if n > 0 {
        AfterFirst(cfg, l, n - 1);
        EndsOnTime(cfg, depth, LoopTurn(cfg, l), n - 1);
      }
    }
  }

  lemma {:induction false} DeepEnough(cfg: Config, l: Loop, n: nat)
    requires l.Valid() && After(cfg, l, n).stack == []
    ensures !Left(cfg, n, l).stop.TooDeep?
    decreases n
  {
    hide LoopTurn, Left, After;
    AfterNext(cfg, l, 0);
    EndedLeft(cfg, n);
    if n > 0 && l.stack != [] {
      AfterFirst(cfg, l, n - 1);
      DeepEnough(cfg, LoopTurn(cfg, l), n - 1);
      TurnRight(cfg, n - 1, l);
    }
  }

  /** An expansion that is deep enough counts the turns of the loop exactly. */
  lemma TurnsOfLoop(cfg: Config, depth: nat, waiting: seq<Source>, argv: seq<string>, n: nat)
    requires argv != [] && !Expand(cfg, depth, waiting, argv).stop.TooDeep?
    requires n <= Expand(cfg, depth, waiting, argv).steps
    ensures After(cfg, Begun(waiting, argv), n).stack == [] <==> n == Expand(cfg, depth, waiting, argv).steps
  {
    hide Expand, Left, After;
    BegunLeft(cfg, depth, waiting, argv);
    EndsOnTime(cfg, depth, Begun(waiting, argv), n);
  }

  /** The loop ends exactly when some depth is enough for the expansion. */
  lemma EndsIffDeepEnough(cfg: Config, waiting: seq<Source>, argv: seq<string>)
    requires argv != []
    ensures LoopEnds(cfg, waiting, argv) <==> exists depth :: !Expand(cfg, depth, waiting, argv).stop.TooDeep?
  {
    hide Expand, Left, After;
    if n: nat :| After(cfg, Begun(waiting, argv), n).stack == [] {
      DeepEnough(cfg, Begun(waiting, argv), n);
      BegunLeft(cfg, n, waiting, argv);
    }
    if depth :| !Expand(cfg, depth, waiting, argv).stop.TooDeep? {
      TurnsOfLoop(cfg, depth, waiting, argv, Expand(cfg, depth, waiting, argv).steps);
    }
  }
}

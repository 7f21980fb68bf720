/** The stack of argument lists that the main loop of absl/flags/parse.cc works on, and what is left
    to do for a given stack. */
module FlagStack {
  import opened FlagText
  import opened FlagExpansion

  /** A list of arguments and the position of the one looked at last. */
  datatype ArgsList = ArgsList(args: seq<string>, next: nat)
  {
    predicate Valid()
    {
      next < |args|
    }

    function Size(): nat
      requires next <= |args|
    {
      |args| - next
    }

    function PopFront(): ArgsList
    {
      this.(next := next + 1)
    }
  }

  /** Every list has its cursor inside. */
  predicate StackOk(stack: seq<ArgsList>)
  {
    forall i :: 0 <= i < |stack| ==> stack[i].Valid()
  }

  /** What the lists on the stack amount to, top first, each from the position after its cursor.  The
      list at the bottom is the command line. */
  function Rest(cfg: Config, depth: nat, stack: seq<ArgsList>): Trace
    decreases |stack|
  {
    if stack == [] then NOTHING
    else
      var n := |stack| - 1;
      Then(ExpandList(cfg, depth, stack[n].args, stack[n].next + 1, n == 0), Rest(cfg, depth, stack[..n]))
  }

  lemma RestTop(cfg: Config, depth: nat, below: seq<ArgsList>, top: ArgsList)
    ensures Rest(cfg, depth, below + [top])
         == Then(ExpandList(cfg, depth, top.args, top.next + 1, below == []), Rest(cfg, depth, below))
  {
    hide Then, ExpandList;
    assert (below + [top])[..|below|] == below;
  }

  /** The stack after the sources have been read and pushed so that the first ends up on top. */
  function Pushed(cfg: Config, stack: seq<ArgsList>, srcs: seq<Source>): seq<ArgsList>
    decreases |srcs|
  {
    if srcs == [] then stack
    else
      var below := Pushed(cfg, stack, srcs[1..]);
      var args := SourceArgs(cfg, srcs[0]);
      if args.None? then below else below + [ArgsList(args.value, 0)]
  }

  predicate AllRead(cfg: Config, srcs: seq<Source>)
  {
    forall s :: s in srcs ==> SourceArgs(cfg, s).Some?
  }

  lemma {:induction false} PushedAppend(cfg: Config, stack: seq<ArgsList>, srcs: seq<Source>, more: seq<Source>)
    ensures Pushed(cfg, stack, srcs + more) == Pushed(cfg, Pushed(cfg, stack, more), srcs)
    decreases |srcs|
  {
    hide SourceArgs;
    if srcs == [] {
      assert srcs + more == more;
    } else {
      assert (srcs + more)[1..] == srcs[1..] + more;
      PushedAppend(cfg, stack, srcs[1..], more);
    }
  }

  lemma PushedNone(cfg: Config, stack: seq<ArgsList>)
    ensures Pushed(cfg, stack, []) == stack && AllRead(cfg, [])
  {
  }

  lemma PushedOne(cfg: Config, stack: seq<ArgsList>, src: Source)
    ensures AllRead(cfg, [src]) == SourceArgs(cfg, src).Some?
    ensures Pushed(cfg, stack, [src])
         == if SourceArgs(cfg, src).Some? then stack + [ArgsList(SourceArgs(cfg, src).value, 0)] else stack
  {
    hide SourceArgs;
    assert [src][1..] == [];
  }

  lemma PushedFirst(cfg: Config, stack: seq<ArgsList>, src: Source, more: seq<Source>)
    ensures AllRead(cfg, [src] + more) == (SourceArgs(cfg, src).Some? && AllRead(cfg, more))
    ensures var below, args := Pushed(cfg, stack, more), SourceArgs(cfg, src);
            Pushed(cfg, stack, [src] + more) == if args.Some? then below + [ArgsList(args.value, 0)] else below
  {
    hide SourceArgs;
    assert ([src] + more)[1..] == more;
  }

  lemma PushedThree(cfg: Config, stack: seq<ArgsList>, first: seq<Source>, second: seq<Source>, third: seq<Source>)
    ensures Pushed(cfg, stack, first + second + third)
         == Pushed(cfg, Pushed(cfg, Pushed(cfg, stack, third), second), first)
    ensures AllRead(cfg, first + second + third) == (AllRead(cfg, first) && AllRead(cfg, second) && AllRead(cfg, third))
  {
    hide Pushed, SourceArgs;
    PushedAppend(cfg, stack, first + second, third);
    PushedAppend(cfg, Pushed(cfg, stack, third), first, second);
  }

  lemma {:induction false} PushedOk(cfg: Config, stack: seq<ArgsList>, srcs: seq<Source>)
    requires StackOk(stack)
    ensures StackOk(Pushed(cfg, stack, srcs)) && stack <= Pushed(cfg, stack, srcs)
    decreases |srcs|
  {
    if srcs != [] {
      PushedOk(cfg, stack, srcs[1..]);
    }
  }

  /** Pushing the sources leaves exactly their expansion in front of what was left before. */
  lemma {:induction false} PushedRest(cfg: Config, depth: nat, stack: seq<ArgsList>, srcs: seq<Source>)
    requires StackOk(stack) && stack != []
    requires !Then(ExpandSources(cfg, depth, srcs), Rest(cfg, depth, stack)).stop.TooDeep?
    ensures Then(Trace([], AllRead(cfg, srcs), Ran, 0), Rest(cfg, depth, Pushed(cfg, stack, srcs)))
         == Then(ExpandSources(cfg, depth, srcs), Rest(cfg, depth, stack))
    decreases |srcs|
  {
    hide SourceArgs, Then, StackOk, ExpandList;
    if srcs == [] {
    } else {
      var more := srcs[1..];
      var below := Pushed(cfg, stack, more);
      var args := SourceArgs(cfg, srcs[0]);
      PushedOk(cfg, stack, more);
      var later := Trace([], AllRead(cfg, more), Ran, 0);
      var l, es, rs := ExpandSource(cfg, depth, srcs[0]), ExpandSources(cfg, depth, more), Rest(cfg, depth, stack);
      var rb := Rest(cfg, depth, below);
      assert AllRead(cfg, srcs) == (args.Some? && AllRead(cfg, more));
      ThenAssoc(l, es, rs);
      ThenDeep(l, Then(es, rs));
      if l.stop.Ran? {
        PushedRest(cfg, depth, stack, more);
      }
      SameThen(l, Then(es, rs), l, Then(later, rb));
      if args.None? {
        ThenAssoc(UNREAD, later, rb);
        FailedThen(later);
      } else {
        PushedListRest(cfg, depth, below, srcs[0]);
        SourceRegular(cfg, depth, srcs[0]);
        ReadFlagMoves(l, AllRead(cfg, more), rb);
      }
    }
  }

  lemma FailedThen(t: Trace)
    requires t.events == [] && t.stop.Ran? && t.steps == 0
    ensures Then(UNREAD, t) == UNREAD
  {
    assert t == Trace([], t.readOk, Ran, 0);
    var none: seq<Event> := [];
    assert none + none == none;
  }

  lemma ReadFlagMoves(l: Trace, ok: bool, rest: Trace)
    requires Regular(l, false)
    ensures Then(Trace([], ok, Ran, 0), Then(l, rest)) == Then(l, Then(Trace([], ok, Ran, 0), rest))
  {
    assert [] + rest.events == rest.events;
    assert [] + (l.events + rest.events) == l.events + rest.events;
    assert [] + l.events == l.events;
  }

  lemma PushedListRest(cfg: Config, depth: nat, stack: seq<ArgsList>, src: Source)
    requires stack != [] && SourceArgs(cfg, src).Some? && !ExpandSource(cfg, depth, src).stop.TooDeep?
    ensures Rest(cfg, depth, stack + [ArgsList(SourceArgs(cfg, src).value, 0)])
         == Then(ExpandSource(cfg, depth, src), Rest(cfg, depth, stack))
  {
    hide Then, SourceArgs, ExpandList, Rest;
    var args := SourceArgs(cfg, src).value;
    RestTop(cfg, depth, stack, ArgsList(args, 0));
    ListDeeper(cfg, depth - 1, depth, args, 1, false);
  }

  // ---------------------------------------------------------------------------------------------
  // One turn of the main loop
  // ---------------------------------------------------------------------------------------------

  /** The list on top, moved to its next position. */
  function Turn(stack: seq<ArgsList>): ArgsList
    requires stack != []
  {
    stack[|stack| - 1].PopFront()
  }

  /** The stack with its top list replaced. */
  function WithTop(stack: seq<ArgsList>, top: ArgsList): seq<ArgsList>
    requires stack != []
  {
    stack[..|stack| - 1] + [top]
  }

  /** An exhausted list is dropped. */
  lemma TurnDrops(cfg: Config, depth: nat, stack: seq<ArgsList>)
    requires stack != [] && Turn(stack).next == |Turn(stack).args|
    ensures Rest(cfg, depth, stack) == Then(Trace([], true, Ran, 1), Rest(cfg, depth, stack[..|stack| - 1]))
  {
    hide Then, ExpandList, Rest;
    var last := stack[|stack| - 1];
    assert stack == stack[..|stack| - 1] + [last];
    RestTop(cfg, depth, stack[..|stack| - 1], last);
    assert ExpandList(cfg, depth, last.args, |last.args|, |stack| == 1) == Trace([], true, Ran, 1) by {
      ListDone(cfg, depth, last.args, |stack| == 1);
    }
  }

  lemma ListDone(cfg: Config, depth: nat, args: seq<string>, top: bool)
    ensures ExpandList(cfg, depth, args, |args|, top) == Trace([], true, Ran, 1)
  {
  }

  /** One argument of a list, spelled out. */
  lemma ListActs(cfg: Config, depth: nat, args: seq<string>, k: nat, top: bool)
    requires k < |args|
    ensures var a := ActionAt(cfg, args, k);
            var here := Trace([Event(a, top, k)], true, Ran, 1);
            var list := ExpandList(cfg, depth, args, k, top);
            if (a.Positional? || a.Terminator?) && !top then list == ABORT
            else if a.Terminator? then list == here.(stop := Stopped(k + 1))
            else
              list == Then(Then(here, ExpandSources(cfg, depth, Sources(cfg, a))),
                           ExpandList(cfg, depth, args, k + a.Width(), top))
  {
    hide ActionAt, Sources, Then, ExpandSources;
  }

  lemma StackOkTop(stack: seq<ArgsList>, top: ArgsList)
    requires StackOk(stack) && stack != []
    ensures stack[|stack| - 1].Valid() && StackOk(stack[..|stack| - 1])
    ensures top.Valid() ==> StackOk(WithTop(stack, top))
  {
  }

  /** Any other argument is acted on; what it brings in comes before the rest of its list. */
  lemma TurnActs(cfg: Config, depth: nat, stack: seq<ArgsList>)
    requires stack != [] && Turn(stack).Valid()
    ensures var curr := Turn(stack);
            var a := ActionAt(cfg, curr.args, curr.next);
            var top := |stack| == 1;
            var after := WithTop(stack, curr.(next := curr.next + a.Width() - 1));
            if (a.Positional? || a.Terminator?) && !top then
              Rest(cfg, depth, stack) == ABORT
            else if a.Terminator? then
              Rest(cfg, depth, stack) == Trace([Event(a, top, curr.next)], true, Stopped(curr.next + 1), 1)
            else
              Rest(cfg, depth, stack)
              == Then(Trace([Event(a, top, curr.next)], true, Ran, 1),
                      Then(ExpandSources(cfg, depth, Sources(cfg, a)), Rest(cfg, depth, after)))
  {
    hide ActionAt, Sources, Then, ExpandList, ExpandSources, Rest;
    var below, curr, top := stack[..|stack| - 1], Turn(stack), |stack| == 1;
    var a := ActionAt(cfg, curr.args, curr.next);
    var left := Rest(cfg, depth, below);
    assert stack == below + [stack[|stack| - 1]];
    RestTop(cfg, depth, below, stack[|stack| - 1]);
    ListActs(cfg, depth, curr.args, curr.next, top);
    if a.Terminator? || (a.Positional? && !top) {
      ThenStops(ExpandList(cfg, depth, curr.args, curr.next, top), left);
    } else {
      var here := Trace([Event(a, top, curr.next)], true, Ran, 1);
      var nested := ExpandSources(cfg, depth, Sources(cfg, a));
      var rest := ExpandList(cfg, depth, curr.args, curr.next + a.Width(), top);
      RestTop(cfg, depth, below, curr.(next := curr.next + a.Width() - 1));
      ThenAssoc(Then(here, nested), rest, left);
      ThenAssoc(here, nested, Then(rest, left));
    }
  }

  lemma ThenStops(t: Trace, u: Trace)
    requires !t.stop.Ran?
    ensures Then(t, u) == t
  {
  }

  /** Where the main loop stands between two turns; once it has ended no list is left. */
  datatype Loop = Loop(stack: seq<ArgsList>, waiting: seq<Source>)
  {
    predicate Valid()
    {
      StackOk(stack) && (stack == [] ==> waiting == [])
    }
  }

  const ENDED := Loop([], [])

  /** One turn: what waits is read and pushed, and the next argument of the list on top is acted on. */
  function LoopTurn(cfg: Config, l: Loop): (r: Loop)
    requires l.Valid()
    ensures r.Valid()
  {
    PushedOk(cfg, l.stack, l.waiting);
    var stack := Pushed(cfg, l.stack, l.waiting);
    if l.stack == [] then l
    else
      var curr := Turn(stack);
      if !curr.Valid() then Loop(stack[..|stack| - 1], [])
      else
        var a := ActionAt(cfg, curr.args, curr.next);
        if a.Terminator? || (a.Positional? && |stack| > 1) then ENDED
        else Loop(WithTop(stack, curr.(next := curr.next + a.Width() - 1)), Sources(cfg, a))
  }

  /** Reading what waits is part of the turn that follows. */
  lemma LoopReads(cfg: Config, l: Loop)
    requires l.Valid() && l.stack != []
    ensures Loop(Pushed(cfg, l.stack, l.waiting), []).Valid()
    ensures LoopTurn(cfg, l) == LoopTurn(cfg, Loop(Pushed(cfg, l.stack, l.waiting), []))
  {
    hide Pushed, ActionAt, Sources;
    PushedOk(cfg, l.stack, l.waiting);
    PushedNone(cfg, Pushed(cfg, l.stack, l.waiting));
  }

  lemma LoopActs(cfg: Config, stack: seq<ArgsList>)
    requires StackOk(stack) && stack != []
    ensures Loop(stack, []).Valid()
    ensures var curr := Turn(stack);
            var next := LoopTurn(cfg, Loop(stack, []));
            if !curr.Valid() then next == Loop(stack[..|stack| - 1], [])
            else
              var a := ActionAt(cfg, curr.args, curr.next);
              if a.Terminator? || (a.Positional? && |stack| > 1) then next == ENDED
              else next == Loop(WithTop(stack, curr.(next := curr.next + a.Width() - 1)), Sources(cfg, a))
  {
    hide Pushed, ActionAt, Sources;
    PushedNone(cfg, stack);
  }

  /** The loop after `n` turns. */
  function After(cfg: Config, l: Loop, n: nat): (r: Loop)
    requires l.Valid()
    ensures r.Valid()
  {
    if n == 0 then l else LoopTurn(cfg, After(cfg, l, n - 1))
  }

  lemma AfterNext(cfg: Config, l: Loop, n: nat)
    requires l.Valid()
    ensures After(cfg, l, 0) == l && After(cfg, l, n + 1) == LoopTurn(cfg, After(cfg, l, n))
  {
  }
}

/** The protocol behind absl::call_once (absl/base/call_once.h), with SpinLockWait
    (absl/base/internal/spinlock_wait.cc) over a futex, for any number of threads and every
    interleaving of their atomic steps.

    The control word is kept as its modification order.  A plain load may return any value that is
    not older than what the thread has already seen; only read-modify-write operations and the
    kernel are bound to the newest value.  An acquire load that reads a release write passes on what
    happened before that write. */
module CallOnce {

  const ONCE_INIT: int := 0
  const ONCE_RUNNING: int := 0x65C2937B
  const ONCE_WAITER: int := 0x05A308D2
  const ONCE_DONE: int := 221

  /** A row of the table that SpinLockWait follows. */
  datatype Transition = Transition(from: int, to: int, done: bool)

  const TRANSITIONS: seq<Transition> := [
    Transition(ONCE_INIT, ONCE_RUNNING, true),
    Transition(ONCE_RUNNING, ONCE_WAITER, false),
    Transition(ONCE_DONE, ONCE_DONE, true)
  ]

  /** The first matching row, or the length of the table. */
  function Match(v: int): nat
  {
    if v == TRANSITIONS[0].from then 0 else if v == TRANSITIONS[1].from then 1
    else if v == TRANSITIONS[2].from then 2 else 3
  }

  /** Where a thread is.  `Away` threads are not in a call. */
  datatype PC =
    | Away                    // has not called yet, or may call again
    | FastLoad                // call_once: the acquire load
    | DebugLoad               // CallOnceImpl: the check of debug builds
    | FirstCas                // the relaxed compare-exchange
    | WaitLoad                // SpinLockWait: the acquire load
    | WaitCas(seen: int)      // SpinLockWait: a matching row needs a compare-exchange
    | WaitDelay(seen: int)    // SpinLockWait: no matching row
    | Asleep                  // blocked in the futex
    | Start                   // won; fn is about to be invoked
    | InFn                    // fn is running
    | Publish                 // fn has returned; the exchange is next
    | Wake                    // the exchange returned kOnceWaiter
    | Back(ran: bool)         // the call has returned
    | Fatal                   // the check of debug builds failed

  datatype Write = Write(value: int, release: bool)

  /** `runner` remembers who won, `starts` counts invocations of fn, and `knows[t]` says that the
      effects of fn happen before the next step of thread `t`. */
  datatype State = State(
    word: seq<Write>,
    pc: seq<PC>,
    seen: seq<nat>,
    knows: seq<bool>,
    runner: int,
    starts: nat,
    finished: bool)

  const NOBODY := -1

  predicate WellShaped(s: State)
  {
    && |s.word| >= 1 && |s.seen| == |s.pc| == |s.knows|
    && forall t :: 0 <= t < |s.pc| ==> s.seen[t] < |s.word|
  }

  function Newest(s: State): int
    requires WellShaped(s)
  {
    s.word[|s.word| - 1].value
  }

  predicate Initial(s: State)
  {
    && WellShaped(s)
    && s.word == [Write(ONCE_INIT, false)]
    && (forall t :: 0 <= t < |s.pc| ==> s.pc[t] == Away && !s.knows[t])
    && s.runner == NOBODY && s.starts == 0 && !s.finished
  }

  // ---------------------------------------------------------------------------------------------
  // Atomic steps
  // ---------------------------------------------------------------------------------------------

  function Go(s: State, t: nat, pc: PC): State
    requires t < |s.pc|
  {
    s.(pc := s.pc[t := pc])
  }

  /** A load by `t` that reads write number `i`. */
  function Loaded(s: State, t: nat, i: nat, acquire: bool): State
    requires WellShaped(s) && t < |s.pc| && i < |s.word|
  {
    s.(seen := s.seen[t := i], knows := s.knows[t := s.knows[t] || (acquire && s.word[i].release)])
  }

  /** A read-modify-write by `t`: it reads the newest write and adds one of its own. */
  function Exchanged(s: State, t: nat, value: int, release: bool): State
    requires WellShaped(s) && t < |s.pc|
  {
    s.(word := s.word + [Write(value, release)], seen := s.seen[t := |s.word|])
  }

  /** Thread `t` makes one step.  `i` is the write that a load returns, when the step is one. */
  ghost predicate Step(s: State, t: nat, i: nat, s': State)
    requires WellShaped(s)
  {
    && t < |s.pc|
    && s.seen[t] <= i < |s.word|
    && var v := s.word[i].value;
       match s.pc[t]
       case Away => s' == Go(s, t, FastLoad)
       case Back(_) => s' == Go(s, t, FastLoad)
       case FastLoad => s' == Go(Loaded(s, t, i, true), t, if v == ONCE_DONE then Back(false) else DebugLoad)
       case DebugLoad =>
         s' == Go(Loaded(s, t, i, false), t,
                  if v in {ONCE_INIT, ONCE_RUNNING, ONCE_WAITER, ONCE_DONE} then FirstCas else Fatal)
       case FirstCas =>
         || (Newest(s) == ONCE_INIT && s' == Go(Exchanged(s, t, ONCE_RUNNING, false), t, Start).(runner := t))
         || (v != ONCE_INIT && s' == Go(Loaded(s, t, i, false), t, WaitLoad))
       case WaitLoad =>
         var row := Match(v);
         s' == Go(Loaded(s, t, i, true), t,
                  if row == 3 then WaitDelay(v)
                  else if TRANSITIONS[row].to == v then (if TRANSITIONS[row].done then Back(false) else WaitLoad)
                  else WaitCas(v))
       case WaitCas(from) =>
         var row := Match(from);
         row < 3 &&
         (|| (Newest(s) == from && TRANSITIONS[row].done
              && s' == Go(Exchanged(s, t, TRANSITIONS[row].to, false), t, Start).(runner := t))
          || (Newest(s) == from && !TRANSITIONS[row].done
              && s' == Go(Exchanged(s, t, TRANSITIONS[row].to, false), t, WaitLoad))
          || (v != from && s' == Go(Loaded(s, t, i, false), t, WaitLoad)))
       case WaitDelay(value) =>
         // the kernel sleeps only while the word still holds the value; the call may also do nothing
         || (Newest(s) == value && s' == Go(s, t, Asleep))
         || s' == Go(s, t, WaitLoad)
       case Asleep => s' == Go(s, t, WaitLoad)    // a spurious wake-up
       case Start => s' == Go(s, t, InFn).(starts := s.starts + 1)
       case InFn => s' == Go(s, t, Publish).(finished := true, knows := s.knows[t := true])
       case Publish =>
         s' == Go(Exchanged(s, t, ONCE_DONE, true), t, if Newest(s) == ONCE_WAITER then Wake else Back(true))
       case Wake => s' == Go(s.(pc := AllAwake(s.pc)), t, Back(true))
       case Fatal => false
  }

  function AllAwake(pc: seq<PC>): (r: seq<PC>)
    ensures |r| == |pc|
    ensures forall t :: 0 <= t < |pc| ==> r[t] == if pc[t].Asleep? then WaitLoad else pc[t]
  {
    seq(|pc|, t requires 0 <= t < |pc| => if pc[t].Asleep? then WaitLoad else pc[t])
  }

  ghost predicate Next(s: State, s': State)
    requires WellShaped(s)
  {
    exists t, i :: Step(s, t, i, s')
  }

  // ---------------------------------------------------------------------------------------------
  // The invariant
  // ---------------------------------------------------------------------------------------------

  /** The word goes from Init to Running, perhaps to Waiter, and to Done, where it stays; only the last
      of these writes is a release. */
  predicate WordShape(w: seq<Write>)
  {
    && 1 <= |w| <= 4
    && w[0] == Write(ONCE_INIT, false)
    && (|w| > 1 ==> w[1] == Write(ONCE_RUNNING, false))
    && (|w| > 2 ==> w[2] == Write(ONCE_WAITER, false) || (w[2] == Write(ONCE_DONE, true) && |w| == 3))
    && (|w| > 3 ==> w[3] == Write(ONCE_DONE, true))
  }

  predicate Running(pc: PC)
  {
    pc.Start? || pc.InFn? || pc.Publish?
  }

  predicate BeforeWaiting(pc: PC)
  {
    pc.Away? || pc.FastLoad? || pc.DebugLoad? || pc.FirstCas?
  }

  /** Where fn stands, for each value of the word. */
  predicate Stage(s: State)
    requires WellShaped(s)
  {
    if Newest(s) == ONCE_INIT then
      && s.runner == NOBODY && s.starts == 0 && !s.finished
      && (forall t :: 0 <= t < |s.pc| ==> BeforeWaiting(s.pc[t]))
    else
      && 0 <= s.runner < |s.pc|
      && if Newest(s) == ONCE_DONE then s.starts == 1 && s.finished && !Running(s.pc[s.runner])
         else
           && Running(s.pc[s.runner])
           && s.starts == (if s.pc[s.runner].Start? then 0 else 1)
           && s.finished == s.pc[s.runner].Publish?
  }

  /** What holds of each thread. */
  predicate ThreadOk(s: State, t: nat)
    requires WellShaped(s) && t < |s.pc|
  {
    var pc := s.pc[t];
    && !pc.Fatal?
    && (Running(pc) ==> t == s.runner)
    && (pc.Wake? ==> t == s.runner && Newest(s) == ONCE_DONE)
    && (pc.WaitCas? ==> pc.seen == ONCE_INIT || pc.seen == ONCE_RUNNING)
    && (pc.WaitDelay? ==> pc.seen == ONCE_WAITER)
    && (pc.Asleep? ==>
          || Newest(s) == ONCE_WAITER
          || (Newest(s) == ONCE_DONE && 0 <= s.runner < |s.pc| && s.pc[s.runner].Wake?))
    && (s.knows[t] ==> s.finished)
    && (pc.Back? ==> s.knows[t] && if pc.ran then t == s.runner else s.word[s.seen[t]] == Write(ONCE_DONE, true))
    && (t == s.runner && s.finished ==> s.knows[t])
  }

  ghost predicate Inv(s: State)
  {
    && WellShaped(s) && WordShape(s.word) && Stage(s)
    && forall t :: 0 <= t < |s.pc| ==> ThreadOk(s, t)
  }

  lemma InitialInv(s: State)
    requires Initial(s)
    ensures Inv(s)
  {
  }

  /** A step of `t` that leaves the word and fn alone. */
  lemma QuietInv(s: State, t: nat, pc: PC, i: nat, k: bool)
    requires Inv(s) && t < |s.pc| && i < |s.word|
    requires !Running(s.pc[t]) && !s.pc[t].Wake? && !Running(pc) && !pc.Wake?
    requires s.knows[t] ==> k
    requires Newest(s) == ONCE_INIT ==> BeforeWaiting(pc)
    requires var s' := s.(pc := s.pc[t := pc], seen := s.seen[t := i], knows := s.knows[t := k]);
             WellShaped(s') && ThreadOk(s', t)
    ensures Inv(s.(pc := s.pc[t := pc], seen := s.seen[t := i], knows := s.knows[t := k]))
  {
    hide WordShape;
    var s' := s.(pc := s.pc[t := pc], seen := s.seen[t := i], knows := s.knows[t := k]);
    assert Stage(s');
    forall u | 0 <= u < |s.pc|
      ensures ThreadOk(s', u)
    {
      assert ThreadOk(s, u);
    }
  }

  lemma NoReads(s: State, t: nat, pc: PC)
    requires WellShaped(s) && t < |s.pc|
    ensures Go(s, t, pc) == s.(pc := s.pc[t := pc], seen := s.seen[t := s.seen[t]], knows := s.knows[t := s.knows[t]])
  {
  }

  /** Reading kOnceDone means reading the release write. */
  lemma ReadValue(w: seq<Write>, i: nat)
    requires WordShape(w) && i < |w|
    ensures w[i].release == (w[i].value == ONCE_DONE)
    ensures w[i].value in {ONCE_INIT, ONCE_RUNNING, ONCE_WAITER, ONCE_DONE}
    ensures w[i].value == ONCE_DONE ==> w[|w| - 1].value == ONCE_DONE
    ensures w[|w| - 1].value == ONCE_INIT ==> w[i].value == ONCE_INIT
  {
  }

  lemma LoadInv(s: State, t: nat, i: nat, s': State)
    requires Inv(s) && Step(s, t, i, s')
    requires s.pc[t].Away? || s.pc[t].Back? || s.pc[t].FastLoad? || s.pc[t].DebugLoad? || s.pc[t].WaitLoad?
    ensures Inv(s')
  {
    hide WordShape, Stage;
    assert ThreadOk(s, t);
    ReadValue(s.word, i);
    StageFinished(s);
    if s.pc[t].Away? || s.pc[t].Back? {
      NoReads(s, t, FastLoad);
      QuietInv(s, t, FastLoad, s.seen[t], s.knows[t]);
    } else {
      var acquire := !s.pc[t].DebugLoad?;
      QuietInv(s, t, s'.pc[t], i, s.knows[t] || (acquire && s.word[i].release));
    }
  }

  lemma StageFinished(s: State)
    requires Inv(s)
    ensures Newest(s) == ONCE_DONE ==> s.finished
    ensures Newest(s) == ONCE_INIT ==> forall t :: 0 <= t < |s.pc| ==> BeforeWaiting(s.pc[t])
    ensures forall t :: 0 <= t < |s.pc| && s.finished && t == s.runner ==> s.knows[t]
  {
    forall t | 0 <= t < |s.pc| && s.finished && t == s.runner
      ensures s.knows[t]
    {
      assert ThreadOk(s, t);
    }
  }

  lemma SleepInv(s: State, t: nat, i: nat, s': State)
    requires Inv(s) && Step(s, t, i, s')
    requires s.pc[t].WaitDelay? || s.pc[t].Asleep?
    ensures Inv(s')
  {
    hide WordShape, Stage;
    assert ThreadOk(s, t);
    StageFinished(s);
    NoReads(s, t, s'.pc[t]);
    QuietInv(s, t, s'.pc[t], s.seen[t], s.knows[t]);
  }

  /** A thread falls asleep only in the futex call, and only while the word is still kOnceWaiter. */
  lemma FallsAsleep(run: seq<State>, k: nat, t: nat)
    requires Run(run) && k + 1 < |run| && t < |run[k].pc| && t < |run[k + 1].pc|
    requires !run[k].pc[t].Asleep? && run[k + 1].pc[t].Asleep?
    ensures WellShaped(run[k]) && run[k].pc[t] == WaitDelay(ONCE_WAITER) && Newest(run[k]) == ONCE_WAITER
  {
    Reachable(run, k);
    assert ThreadOk(run[k], t);
    hide Inv, ThreadOk, Step;
    assert Next(run[k], run[k + 1]);
    var u, i :| Step(run[k], u, i, run[k + 1]);
    SleepStep(run[k], u, i, run[k + 1], t);
  }

  lemma SleepStep(s: State, u: nat, i: nat, s': State, t: nat)
    requires WellShaped(s) && Step(s, u, i, s') && t < |s.pc| && t < |s'.pc| && ThreadOk(s, t)
    requires !s.pc[t].Asleep? && s'.pc[t].Asleep?
    ensures s.pc[t] == WaitDelay(ONCE_WAITER) && Newest(s) == ONCE_WAITER
  {
    match s.pc[u]
    case WaitDelay(value) =>
    case _ =>
  }

  /** Thread `t` wins: the word goes from Init to Running. */
  lemma WinInv(s: State, t: nat, s': State)
    requires Inv(s) && t < |s.pc| && Newest(s) == ONCE_INIT
    requires s' == Go(Exchanged(s, t, ONCE_RUNNING, false), t, Start).(runner := t)
    ensures Inv(s')
  {
    assert |s.word| == 1;
    forall u | 0 <= u < |s.pc|
      ensures ThreadOk(s', u)
    {
      assert ThreadOk(s, u) && BeforeWaiting(s.pc[u]);
    }
  }

  /** Thread `t` announces a waiter: the word goes from Running to Waiter. */
  lemma AnnounceInv(s: State, t: nat, s': State)
    requires Inv(s) && t < |s.pc| && Newest(s) == ONCE_RUNNING && s.pc[t].WaitCas?
    requires s' == Go(Exchanged(s, t, ONCE_WAITER, false), t, WaitLoad)
    ensures Inv(s')
  {
    assert |s.word| == 2;
    assert ThreadOk(s, t);
    forall u | 0 <= u < |s.pc|
      ensures ThreadOk(s', u)
    {
      assert ThreadOk(s, u);
    }
  }

  lemma CasInv(s: State, t: nat, i: nat, s': State)
    requires Inv(s) && Step(s, t, i, s')
    requires s.pc[t].FirstCas? || s.pc[t].WaitCas?
    ensures Inv(s')
  {
    hide WordShape, Stage;
    assert ThreadOk(s, t);
    ReadValue(s.word, i);
    StageFinished(s);
    if |s'.word| > |s.word| {
      if Newest(s) == ONCE_INIT {
        WinInv(s, t, s');
      } else {
        AnnounceInv(s, t, s');
      }
    } else {
      QuietInv(s, t, WaitLoad, i, s.knows[t]);
    }
  }

  lemma RunInv(s: State, t: nat, i: nat, s': State)
    requires Inv(s) && Step(s, t, i, s') && (s.pc[t].Start? || s.pc[t].InFn?)
    ensures Inv(s')
  {
    hide WordShape;
    assert ThreadOk(s, t);
    forall u | 0 <= u < |s.pc|
      ensures ThreadOk(s', u)
    {
      assert ThreadOk(s, u);
    }
  }

  lemma PublishInv(s: State, t: nat, i: nat, s': State)
    requires Inv(s) && Step(s, t, i, s') && s.pc[t].Publish?
    ensures Inv(s')
  {
    assert ThreadOk(s, t);
    assert Newest(s) == ONCE_RUNNING || Newest(s) == ONCE_WAITER;
    forall u | 0 <= u < |s.pc|
      ensures ThreadOk(s', u)
    {
      assert ThreadOk(s, u);
    }
  }

  lemma WakeInv(s: State, t: nat, i: nat, s': State)
    requires Inv(s) && Step(s, t, i, s') && s.pc[t].Wake?
    ensures Inv(s')
  {
    hide WordShape;
    assert ThreadOk(s, t);
    forall u | 0 <= u < |s.pc|
      ensures ThreadOk(s', u)
    {
      assert ThreadOk(s, u);
    }
  }

  lemma StepInv(s: State, t: nat, i: nat, s': State)
    requires Inv(s) && Step(s, t, i, s')
    ensures Inv(s')
  {
    match s.pc[t] {
      case Away => LoadInv(s, t, i, s');
      case Back(_) => LoadInv(s, t, i, s');
      case FastLoad => LoadInv(s, t, i, s');
      case DebugLoad => LoadInv(s, t, i, s');
      case WaitLoad => LoadInv(s, t, i, s');
      case FirstCas => CasInv(s, t, i, s');
      case WaitCas(_) => CasInv(s, t, i, s');
      case WaitDelay(_) => SleepInv(s, t, i, s');
      case Asleep => SleepInv(s, t, i, s');
      case Start => RunInv(s, t, i, s');
      case InFn => RunInv(s, t, i, s');
      case Publish => PublishInv(s, t, i, s');
      case Wake => WakeInv(s, t, i, s');
      case Fatal =>
    }
  }

  // ---------------------------------------------------------------------------------------------
  // Safety, over every run
  // ---------------------------------------------------------------------------------------------

  ghost predicate Steps(run: seq<State>)
  {
    && |run| > 0
    && forall k :: 0 <= k < |run| - 1 ==> WellShaped(run[k]) && Next(run[k], run[k + 1])
  }

  ghost predicate Run(run: seq<State>)
  {
    Steps(run) && Initial(run[0])
  }

  lemma {:induction false} Reachable(run: seq<State>, k: nat)
    requires Run(run) && k < |run|
    ensures Inv(run[k])
    decreases k
  {
    if k == 0 {
      InitialInv(run[0]);
    } else {
      Reachable(run, k - 1);
      assert Next(run[k - 1], run[k - 1 + 1]);
      var t, i :| Step(run[k - 1], t, i, run[k]);
      StepInv(run[k - 1], t, i, run[k]);
    }
  }

  /** fn starts at most once; the check of debug builds never fails. */
  lemma AtMostOnce(run: seq<State>, k: nat)
    requires Run(run) && k < |run|
    ensures run[k].starts <= 1
    ensures forall t :: 0 <= t < |run[k].pc| ==> !run[k].pc[t].Fatal?
  {
    Reachable(run, k);
    forall t | 0 <= t < |run[k].pc|
      ensures !run[k].pc[t].Fatal?
    {
      assert ThreadOk(run[k], t);
    }
  }

  /** Thread `t` starts fn in step `k`. */
  predicate StartsAt(run: seq<State>, k: nat, t: nat)
  {
    && k + 1 < |run| && t < |run[k].pc| && t < |run[k + 1].pc|
    && run[k].pc[t].Start? && run[k + 1].pc[t].InFn?
  }

  lemma StepCounts(s: State, t: nat, i: nat, s': State)
    requires WellShaped(s) && Step(s, t, i, s')
    ensures s.starts <= s'.starts
  {
  }

  lemma {:induction false} CountGrows(run: seq<State>, j: nat, k: nat)
    requires Steps(run) && j <= k < |run|
    ensures run[j].starts <= run[k].starts
    decreases k
  {
    hide Step, WellShaped;
    if j < k {
      CountGrows(run, j, k - 1);
      assert Next(run[k - 1], run[k - 1 + 1]);
      var t, i :| Step(run[k - 1], t, i, run[k]);
      StepCounts(run[k - 1], t, i, run[k]);
    }
  }

  /** In every run at most one step starts fn. */
  lemma StartsOnce(run: seq<State>, j: nat, t: nat, k: nat, u: nat)
    requires Run(run) && StartsAt(run, j, t) && StartsAt(run, k, u)
    ensures j == k && t == u
  {
    hide Run, Step;
    NotStartedTwice(run, j, t, k, u);
    NotStartedTwice(run, k, u, j, t);
    Reachable(run, j);
    assert ThreadOk(run[j], t);
    if j == k {
      assert ThreadOk(run[j], u);
    }
  }

  lemma NotStartedTwice(run: seq<State>, j: nat, t: nat, k: nat, u: nat)
    requires Run(run) && StartsAt(run, j, t) && StartsAt(run, k, u)
    ensures j >= k
  {
    hide Step, WordShape;
    if j < k {
      Reachable(run, j + 1);
      Reachable(run, k);
      assert ThreadOk(run[j + 1], t);
      assert ThreadOk(run[k], u);
      CountGrows(run, j + 1, k);
    }
  }

  /** When a call has returned, fn has been started exactly once and has finished, and its effects
      happen before whatever the thread does next: the thread ran fn itself, or it read the release
      write of kOnceDone with an acquire load. */
  lemma ReturnsAfterFn(run: seq<State>, k: nat, t: nat)
    requires Run(run) && k < |run| && t < |run[k].pc| && run[k].pc[t].Back?
    ensures var s := run[k];
            && WellShaped(s) && s.starts == 1 && s.finished && s.knows[t]
            && if s.pc[t].ran then t == s.runner
               else s.word[s.seen[t]] == Write(ONCE_DONE, true)
  {
    Reachable(run, k);
    assert ThreadOk(run[k], t);
  }

  /** No wake-up is lost: a sleeping thread is covered by the word still being kOnceWaiter, so that the
      runner's exchange will see it, or by a runner that is about to wake everybody. */
  lemma NoLostWakeup(run: seq<State>, k: nat, t: nat)
    requires Run(run) && k < |run| && t < |run[k].pc| && run[k].pc[t].Asleep?
    ensures var s := run[k];
            && WellShaped(s) && 0 <= s.runner < |s.pc|
            && (|| (Newest(s) == ONCE_WAITER && Running(s.pc[s.runner]))
                || (Newest(s) == ONCE_DONE && s.pc[s.runner].Wake?))
  {
    Reachable(run, k);
    assert ThreadOk(run[k], t);
  }

  /** While fn runs, only one thread runs it and the word says so. */
  lemma RunsAlone(run: seq<State>, k: nat, t: nat, u: nat)
    requires Run(run) && k < |run| && t < |run[k].pc| && u < |run[k].pc|
    requires Running(run[k].pc[t])
    ensures WellShaped(run[k]) && Newest(run[k]) in {ONCE_RUNNING, ONCE_WAITER}
    ensures Running(run[k].pc[u]) || run[k].pc[u].Wake? ==> u == t
    ensures !run[k].pc[u].Back?
  {
    Reachable(run, k);
    assert ThreadOk(run[k], t);
    assert ThreadOk(run[k], u);
    StageFinished(run[k]);
    ReadValue(run[k].word, |run[k].word| - 1);
    ReadValue(run[k].word, run[k].seen[u]);
  }

  // ---------------------------------------------------------------------------------------------
  // Progress
  // ---------------------------------------------------------------------------------------------

  predicate InCall(pc: PC)
  {
    !pc.Away? && !pc.Back?
  }

  /** Steps on which completion must not rest: the futex ends a sleep, or declines one, for no reason. */
  ghost predicate Spurious(s: State, t: nat, s': State)
    requires WellShaped(s) && t < |s.pc|
  {
    || s.pc[t].Asleep?
    || (s.pc[t].WaitDelay? && Newest(s) == s.pc[t].seen && s' == Go(s, t, WaitLoad))
  }

  /** A step of thread `t` inside a call that is not spurious and reads, if it loads, the newest write. */
  ghost predicate FirmStep(s: State, t: nat, s': State)
    requires WellShaped(s)
  {
    t < |s.pc| && Step(s, t, |s.word| - 1, s') && InCall(s.pc[t]) && !Spurious(s, t, s')
  }

  ghost predicate Firm(s: State, s': State)
    requires WellShaped(s)
  {
    exists t: nat :: FirmStep(s, t, s')
  }

  ghost predicate HasFirmStep(s: State)
    requires WellShaped(s)
  {
    exists s' :: Firm(s, s')
  }

  /** From state `n` on all steps are firm. */
  ghost predicate FirmFrom(path: seq<State>, n: nat)
  {
    forall k :: n <= k < |path| - 1 ==> WellShaped(path[k]) && Firm(path[k], path[k + 1])
  }

  ghost predicate FirmSteps(path: seq<State>)
  {
    |path| > 0 && FirmFrom(path, 0)
  }

  /** How many steps a thread can make before the word changes, when it reads nothing but `v`. */
  function Weight(v: int, pc: PC): (w: nat)
    ensures w <= 6
  {
    match pc
    case Away => 0
    case Back(_) => 0
    case Fatal => 0
    case Wake => 1
    case Publish => 1
    case InFn => 2
    case Start => 3
    case Asleep => if v == ONCE_DONE then 2 else 0
    case WaitDelay(seen) => if seen == v then 1 else 3
    case WaitCas(seen) => if seen == v then 1 else 3
    case WaitLoad => 2
    case FirstCas => 4
    case DebugLoad => 5
    case FastLoad => 6
  }

  function TotalWeight(v: int, pc: seq<PC>): (w: nat)
    ensures w <= 6 * |pc|
  {
    if pc == [] then 0 else Weight(v, pc[0]) + TotalWeight(v, pc[1..])
  }

  /** How often the word can still change. */
  function Changes(v: int): (n: nat)
    ensures n <= 3
  {
    if v == ONCE_INIT then 3 else if v == ONCE_RUNNING then 2 else if v == ONCE_WAITER then 1 else 0
  }

  /** How far a state is from every call having returned. */
  function Distance(s: State): (d: nat)
    requires WellShaped(s)
    ensures d <= 24 * |s.pc| + 3
  {
    var d := TotalWeight(Newest(s), s.pc);
    match Changes(Newest(s))
    case 0 => d
    case 1 => (6 * |s.pc| + 1) + d
    case 2 => 2 * (6 * |s.pc| + 1) + d
    case _ => 3 * (6 * |s.pc| + 1) + d
  }

  lemma {:induction false} WeightUpdate(v: int, pc: seq<PC>, t: nat, p: PC)
    requires t < |pc|
    ensures TotalWeight(v, pc[t := p]) + Weight(v, pc[t]) == TotalWeight(v, pc) + Weight(v, p)
    decreases |pc|
  {
    if t > 0 {
      assert pc[t := p][1..] == pc[1..][t - 1 := p];
      WeightUpdate(v, pc[1..], t - 1, p);
    } else {
      assert pc[t := p][1..] == pc[1..];
    }
  }

  lemma {:induction false} WeightAwake(pc: seq<PC>)
    ensures TotalWeight(ONCE_DONE, AllAwake(pc)) <= TotalWeight(ONCE_DONE, pc)
    decreases |pc|
  {
    if pc != [] {
      assert AllAwake(pc)[1..] == AllAwake(pc[1..]);
      WeightAwake(pc[1..]);
    }
  }

  /** The word changes only forwards. */
  lemma WordForwards(s: State, t: nat, s': State)
    requires Inv(s) && FirmStep(s, t, s') && s'.word != s.word
    ensures WellShaped(s') && |s'.pc| == |s.pc| && Changes(Newest(s')) < Changes(Newest(s))
  {
    hide WordShape;
    assert ThreadOk(s, t);
    ReadValue(s.word, |s.word| - 1);
    StepInv(s, t, |s.word| - 1, s');
  }

  /** As long as the word stays the same, the thread that moves gets lighter. */
  lemma Lighter(s: State, t: nat, s': State)
    requires Inv(s) && FirmStep(s, t, s') && s'.word == s.word && !s.pc[t].Wake?
    ensures |s'.pc| == |s.pc| && s'.pc == s.pc[t := s'.pc[t]]
    ensures Weight(Newest(s), s'.pc[t]) < Weight(Newest(s), s.pc[t])
  {
    hide WordShape, Stage;
    assert ThreadOk(s, t);
    StageFinished(s);
    ReadValue(s.word, |s.word| - 1);
  }

  /** Every firm step, of every thread, brings completion closer. */
  lemma FirmCloser(s: State, t: nat, s': State)
    requires Inv(s) && FirmStep(s, t, s')
    ensures Inv(s') && |s'.pc| == |s.pc| && Distance(s') < Distance(s)
  {
    hide Step, Spurious, Stage, WordShape, AllAwake, TotalWeight, Weight, Changes;
    StepInv(s, t, |s.word| - 1, s');
    if s'.word != s.word {
      WordForwards(s, t, s');
    } else if s.pc[t].Wake? {
      assert ThreadOk(s, t);
      WakeStep(s, t, s');
      WeightAwake(s.pc);
      WeightUpdate(ONCE_DONE, AllAwake(s.pc), t, Back(true));
      WakeWeighs(s.pc, t);
    } else {
      Lighter(s, t, s');
      WeightUpdate(Newest(s), s.pc, t, s'.pc[t]);
    }
  }

  lemma WakeStep(s: State, t: nat, s': State)
    requires WellShaped(s) && FirmStep(s, t, s') && s.pc[t].Wake?
    ensures s'.pc == AllAwake(s.pc)[t := Back(true)]
  {
  }

  lemma WakeWeighs(pc: seq<PC>, t: nat)
    requires t < |pc| && pc[t].Wake?
    ensures Weight(ONCE_DONE, AllAwake(pc)[t]) == 1 && Weight(ONCE_DONE, Back(true)) == 0
  {
  }

  /** The thread that moves next on the way to completion. */
  function Mover(s: State, t: nat): nat
    requires t < |s.pc|
  {
    if 0 <= s.runner < |s.pc| && (Running(s.pc[s.runner]) || s.pc[s.runner].Wake?) then s.runner else t
  }

  /** What the mover's next step leads to when it reads the newest write. */
  function Moved(s: State, t: nat): State
    requires Inv(s) && t < |s.pc| && InCall(s.pc[t])
  {
    var i := |s.word| - 1;
    var v := s.word[i].value;
    match s.pc[t]
    case FastLoad => Go(Loaded(s, t, i, true), t, if v == ONCE_DONE then Back(false) else DebugLoad)
    case DebugLoad => Go(Loaded(s, t, i, false), t, FirstCas)
    case FirstCas =>
      if v == ONCE_INIT then Go(Exchanged(s, t, ONCE_RUNNING, false), t, Start).(runner := t)
      else Go(Loaded(s, t, i, false), t, WaitLoad)
    case WaitLoad => Go(Loaded(s, t, i, true), t, Back(false))
    case WaitCas(_) => Go(Loaded(s, t, i, false), t, WaitLoad)
    case WaitDelay(_) => Go(s, t, WaitLoad)
    case Start => Go(s, t, InFn).(starts := s.starts + 1)
    case InFn => Go(s, t, Publish).(finished := true, knows := s.knows[t := true])
    case Publish => Go(Exchanged(s, t, ONCE_DONE, true), t, if v == ONCE_WAITER then Wake else Back(true))
    case Wake => Go(s.(pc := AllAwake(s.pc)), t, Back(true))
    case Asleep => s
    case Fatal => s
  }

  lemma MovedIsStep(s: State, t: nat)
    requires Inv(s) && t < |s.pc| && InCall(s.pc[t])
    ensures InCall(s.pc[Mover(s, t)]) && Step(s, Mover(s, t), |s.word| - 1, Moved(s, Mover(s, t)))
    ensures !Spurious(s, Mover(s, t), Moved(s, Mover(s, t)))
  {
    var m := Mover(s, t);
    assert ThreadOk(s, t);
    assert ThreadOk(s, m);
    ReadValue(s.word, |s.word| - 1);
  }

  /** While a call is under way, some thread in a call has a firm step.  Sleepers cannot wake by themselves here, so
      this rests on the wake-up by the runner. */
  lemma Progress(s: State, t: nat) returns (s': State)
    requires Inv(s) && t < |s.pc| && InCall(s.pc[t])
    ensures Firm(s, s') && Inv(s') && Distance(s') < Distance(s)
  {
    hide Step, Spurious, Distance;
    var m := Mover(s, t);
    MovedIsStep(s, t);
    s' := Moved(s, m);
    FirmCloser(s, m, s');
  }

  predicate Quiet(s: State)
  {
    forall t :: 0 <= t < |s.pc| ==> !InCall(s.pc[t])
  }

  lemma FirmCons(s: State, rest: seq<State>)
    requires FirmSteps(rest) && WellShaped(s) && Firm(s, rest[0])
    ensures FirmSteps([s] + rest)
  {
    hide WellShaped, Firm;
    var path := [s] + rest;
    forall k | 0 <= k < |path| - 1
      ensures WellShaped(path[k]) && Firm(path[k], path[k + 1])
    {
      if k > 0 {
        assert path[k] == rest[k - 1] && path[k + 1] == rest[k - 1 + 1];
      }
    }
  }

  lemma {:induction false} Completion(s: State) returns (path: seq<State>)
    requires Inv(s)
    ensures FirmSteps(path) && path[0] == s && Quiet(path[|path| - 1])
    decreases Distance(s)
  {
    if t: nat :| t < |s.pc| && InCall(s.pc[t]) {
      var s' := Progress(s, t);
      var rest := Completion(s');
      path := [s] + rest;
      FirmCons(s, rest);
    } else {
      path := [s];
    }
  }

  lemma FirmIsNext(s: State, s': State)
    requires WellShaped(s) && Firm(s, s')
    ensures Next(s, s')
  {
    hide Step, Spurious;
    var t: nat :| FirmStep(s, t, s');
    assert Step(s, t, |s.word| - 1, s');
  }

  lemma StepsJoin(a: seq<State>, b: seq<State>)
    requires Steps(a) && FirmSteps(b) && a[|a| - 1] == b[0]
    ensures Steps(a + b[1..])
    ensures FirmFrom(a + b[1..], |a| - 1)
  {
    hide WellShaped, Next, Firm;
    var whole := a + b[1..];
    forall k | 0 <= k < |whole| - 1
      ensures WellShaped(whole[k]) && Next(whole[k], whole[k + 1])
      ensures k >= |a| - 1 ==> Firm(whole[k], whole[k + 1])
    {
      if k < |a| - 1 {
        assert whole[k] == a[k] && whole[k + 1] == a[k + 1];
      } else {
        var j := k - (|a| - 1);
        assert whole[k] == b[j] && whole[k + 1] == b[j + 1];
        FirmIsNext(b[j], b[j + 1]);
      }
    }
  }

  /** Nothing can get stuck: every run extends, without any spurious step, to one in which every call has
      returned. */
  lemma NeverStuck(run: seq<State>) returns (whole: seq<State>)
    requires Run(run)
    ensures Run(whole) && run <= whole && Quiet(whole[|whole| - 1])
    ensures FirmFrom(whole, |run| - 1)
  {
    hide Steps, Inv, Initial, Quiet, FirmSteps, FirmFrom;
    StepsNonempty(run);
    var n := |run| - 1;
    Reachable(run, n);
    var path := Completion(run[n]);
    FirmNonempty(path);
    StepsJoin(run, path);
    whole := run + path[1..];
  }

  lemma StepsNonempty(run: seq<State>)
    requires Steps(run)
    ensures |run| > 0
  {
  }

  lemma FirmNonempty(path: seq<State>)
    requires FirmSteps(path)
    ensures |path| > 0
  {
  }

  /** A schedule of firm steps is no longer than the distance it starts from. */
  lemma {:induction false} FirmBounded(path: seq<State>, n: nat, k: nat)
    requires FirmFrom(path, n) && n <= k < |path| && Inv(path[n])
    ensures Inv(path[k]) && |path[k].pc| == |path[n].pc| && Distance(path[k]) + (k - n) <= Distance(path[n])
    decreases k
  {
    hide Inv, FirmStep, Distance, WellShaped;
    if k > n {
      FirmBounded(path, n, k - 1);
      assert Firm(path[k - 1], path[k - 1 + 1]);
      var t: nat :| FirmStep(path[k - 1], t, path[k]);
      FirmCloser(path[k - 1], t, path[k]);
    }
  }

  /** Every schedule completes: from any point of any run, however the threads take turns, at most 24 firm steps for
      each thread and 3 more can follow one another, and as long as a call is under way there is another one. */
  lemma EveryScheduleEnds(run: seq<State>, n: nat)
    requires Run(run) && n < |run| && FirmFrom(run, n)
    ensures |run| - 1 - n <= 24 * |run[n].pc| + 3
    ensures WellShaped(run[|run| - 1])
    ensures Quiet(run[|run| - 1]) || HasFirmStep(run[|run| - 1])
  {
    hide Run, Inv, FirmFrom, Firm, Distance;
    Reachable(run, n);
    FirmBounded(run, n, |run| - 1);
    var s := run[|run| - 1];
    ShapeOf(run[n]);
    ShapeOf(s);
    if t: nat :| t < |s.pc| && InCall(s.pc[t]) {
      var s' := Progress(s, t);
    }
  }

  lemma ShapeOf(s: State)
    requires Inv(s)
    ensures WellShaped(s)
  {
  }

  // ---------------------------------------------------------------------------------------------
  // Calls happen
  // ---------------------------------------------------------------------------------------------

  /** A thread that has made a call is never again as if it had not. */
  lemma NotAwayAgain(s: State, u: nat, i: nat, s': State, t: nat)
    requires WellShaped(s) && Step(s, u, i, s') && t < |s.pc| && !s.pc[t].Away?
    ensures |s'.pc| == |s.pc| && !s'.pc[t].Away?
  {
  }

  lemma {:induction false} NeverAwayAgain(run: seq<State>, n: nat, k: nat, t: nat)
    requires Steps(run) && n <= k < |run| && t < |run[n].pc| && !run[n].pc[t].Away?
    ensures t < |run[k].pc| && !run[k].pc[t].Away?
    decreases k
  {
    hide Step, WellShaped;
    if k > n {
      NeverAwayAgain(run, n, k - 1, t);
      assert Next(run[k - 1], run[k - 1 + 1]);
      var u, i :| Step(run[k - 1], u, i, run[k]);
      NotAwayAgain(run[k - 1], u, i, run[k], t);
    }
  }

  /** A thread that is not in a call can enter one. */
  lemma EntersCall(s: State, t: nat)
    requires WellShaped(s) && t < |s.pc| && !InCall(s.pc[t])
    ensures Next(s, Go(s, t, FastLoad))
  {
    assert Step(s, t, s.seen[t], Go(s, t, FastLoad));
  }

  lemma RunOn(run: seq<State>, s: State)
    requires Run(run) && WellShaped(run[|run| - 1]) && Next(run[|run| - 1], s)
    ensures Run(run + [s])
  {
    hide WellShaped, Next, Initial;
    var longer := run + [s];
    forall k | 0 <= k < |longer| - 1
      ensures WellShaped(longer[k]) && Next(longer[k], longer[k + 1])
    {
      if k < |run| - 1 {
        assert longer[k] == run[k] && longer[k + 1] == run[k + 1];
      }
    }
  }

  /** Once fn is done, a call that reads the newest write returns from its first load, without touching the word. */
  lemma FastPath(s: State, t: nat, s': State)
    requires Inv(s) && Newest(s) == ONCE_DONE && t < |s.pc| && s.pc[t].FastLoad?
    requires Step(s, t, |s.word| - 1, s')
    ensures |s'.pc| == |s.pc| && s'.pc[t] == Back(false) && s'.word == s.word && s'.starts == s.starts
  {
    hide WordShape, Stage, ThreadOk;
  }

  /** Whenever a thread is not in a call, for the first time or after earlier calls, it can call next, and the
      call returns with fn run exactly once and finished. */
  lemma CallReturns(run: seq<State>, t: nat) returns (whole: seq<State>)
    requires Run(run) && t < |run[|run| - 1].pc| && !InCall(run[|run| - 1].pc[t])
    ensures Run(whole) && run < whole && FirmFrom(whole, |run|)
    ensures t < |whole[|run|].pc| && whole[|run|].pc[t] == FastLoad
    ensures var last := whole[|whole| - 1];
            t < |last.pc| && last.pc[t].Back? && last.starts == 1 && last.finished
  {
    hide Inv, Initial, Step, FirmFrom;
    var s := run[|run| - 1];
    Reachable(run, |run| - 1);
    ShapeOf(s);
    var called := Go(s, t, FastLoad);
    EntersCall(s, t);
    RunOn(run, called);
    whole := NeverStuck(run + [called]);
    assert whole[|run|] == called && run < whole;
    var last := |whole| - 1;
    NeverAwayAgain(whole, |run|, last, t);
    assert !InCall(whole[last].pc[t]);
    ReturnsAfterFn(whole, last, t);
  }
}

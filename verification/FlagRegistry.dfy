/** The flag registry of absl/flags/reflection.cc: a map that is frozen into a sorted array.

    Registration may go on after the registry was frozen, and a lookup reads the "frozen" bit before it
    takes the lock, so other threads may act in between. */
module FlagRegistry {
  import opened FlagText
  import opened NameOrder

  datatype Flag = Flag(id: nat, name: string, typeId: nat, retired: bool, filename: string)

  function NameOf(f: Flag): string
  {
    f.name
  }

  /** The first flag of that name. */
  function First(s: seq<Flag>, name: string): Option<Flag>
  {
    if s == [] then None else if s[0].name == name then Some(s[0]) else First(s[1..], name)
  }

  ghost predicate DistinctNames(s: seq<Flag>)
  {
    forall i, j :: 0 <= i < j < |s| ==> s[i].name != s[j].name
  }

  function ByName(s: seq<Flag>): map<string, Flag>
  {
    if s == [] then map[] else ByName(s[..|s| - 1])[s[|s| - 1].name := s[|s| - 1]]
  }

  /** The registry with its history: `log` holds the flags of all registrations that returned, `kept` those
      that entered the map, and `cut` how many of those were in it when it was frozen. */
  datatype State = State(flags: map<string, Flag>, flat: seq<Flag>, finalized: bool,
                         log: seq<Flag>, kept: seq<Flag>, cut: nat)

  ghost predicate Ok(s: State)
  {
    && s.cut <= |s.kept|
    && (!s.finalized ==> s.cut == 0)
    && DistinctNames(s.kept[..s.cut]) && DistinctNames(s.kept[s.cut..])
    && s.flags == ByName(s.kept[s.cut..])
    && multiset(s.flat) == multiset(s.kept[..s.cut]) && SortedByName(s.flat, NameOf)
    && forall name :: First(s.log, name) == First(s.kept, name)
  }

  datatype Outcome = Registered | RetiredAgain | Exits

  /** What registering a flag does; every duplicate is fatal except that of a retired flag of the same type. */
  function Registering(flags: map<string, Flag>, f: Flag, filename: Option<string>): Outcome
  {
    if filename.Some? && f.filename != filename.value then Exits
    else if f.name !in flags then Registered
    else if f.retired && flags[f.name].retired && f.typeId == flags[f.name].typeId then RetiredAgain
    else Exits
  }

  /** A second flag of a name is let through exactly when both are retired and have the same type. */
  lemma DuplicateExits(flags: map<string, Flag>, f: Flag)
    requires f.name in flags
    ensures Registering(flags, f, Some(f.filename)) == Registering(flags, f, None)
    ensures Registering(flags, f, None).Exits?
       <==> f.retired != flags[f.name].retired || f.typeId != flags[f.name].typeId || !flags[f.name].retired
  {
  }

  ghost function AfterRegister(s: State, f: Flag, outcome: Outcome): State
  {
    match outcome
    case Registered => s.(flags := s.flags[f.name := f], kept := s.kept + [f], log := s.log + [f])
    case RetiredAgain => s.(log := s.log + [f])
    case Exits => s
  }

  ghost predicate Frozen(s: State, s': State)
  {
    if s.finalized then s' == s
    else
      && multiset(s'.flat) == multiset(s.kept) && SortedByName(s'.flat, NameOf)
      && s' == s.(flags := map[], flat := s'.flat, finalized := true, cut := |s.kept|)
  }

  datatype Event = Register(flag: Flag, filename: Option<string>) | Finalize

  ghost predicate Step(s: State, e: Event, s': State)
  {
    match e
    case Register(f, filename) =>
      var outcome := Registering(s.flags, f, filename);
      !outcome.Exits? && s' == AfterRegister(s, f, outcome)
    case Finalize => Frozen(s, s')
  }

  // Lookups by position and by map.

  lemma {:induction false} FirstAppend(a: seq<Flag>, b: seq<Flag>, name: string)
    ensures First(a + b, name) == if First(a, name).Some? then First(a, name) else First(b, name)
  {
    if a == [] {
      assert a + b == b;
    } else {
      FirstAppend(a[1..], b, name);
      assert (a + b)[1..] == a[1..] + b;
    }
  }

  lemma {:induction false} FirstIs(s: seq<Flag>, name: string)
    ensures First(s, name).Some? ==> First(s, name).value in s && First(s, name).value.name == name
    ensures First(s, name).None? ==> forall f :: f in s ==> f.name != name
  {
    if s != [] {
      FirstIs(s[1..], name);
    }
  }

  /** With distinct names, a flag of the sequence is the first of its name. */
  lemma OnlyOne(s: seq<Flag>, f: Flag)
    requires DistinctNames(s) && f in s
    ensures First(s, f.name) == Some(f)
  {
    FirstIs(s, f.name);
    var i :| 0 <= i < |s| && s[i] == f;
    var g := First(s, f.name).value;
    var j :| 0 <= j < |s| && s[j] == g;
  }

  lemma {:induction false} ByNameFinds(s: seq<Flag>, name: string)
    requires DistinctNames(s)
    ensures name in ByName(s) <==> First(s, name).Some?
    ensures name in ByName(s) ==> First(s, name) == Some(ByName(s)[name])
  {
    if s != [] {
      var front, last := s[..|s| - 1], s[|s| - 1];
      assert s == front + [last];
      ByNameFinds(front, name);
      FirstAppend(front, [last], name);
      FirstIs(front, name);
      if name == last.name {
        OnlyOne(s, last);
      }
    }
  }

  lemma Filed(s: seq<Flag>, name: string)
    requires DistinctNames(s) && name in ByName(s)
    ensures ByName(s)[name].name == name
  {
    ByNameFinds(s, name);
    FirstIs(s, name);
  }

  function InMap(flags: map<string, Flag>, name: string): Option<Flag>
  {
    if name in flags then Some(flags[name]) else None
  }

  lemma {:induction false} CountInMap(s: seq<Flag>, f: Flag)
    requires DistinctNames(s)
    ensures multiset(s)[f] == if InMap(ByName(s), f.name) == Some(f) then 1 else 0
  {
    if s != [] {
      var front, last := s[..|s| - 1], s[|s| - 1];
      assert s == front + [last];
      CountInMap(front, f);
      ByNameFinds(front, last.name);
      FirstIs(front, last.name);
    }
  }

  /** The sequence holds the flags of the map whose names are not left, once each. */
  ghost predicate Listed(flags: map<string, Flag>, left: set<string>, r: seq<Flag>)
  {
    forall f :: multiset(r)[f] == if InMap(flags, f.name) == Some(f) && f.name !in left then 1 else 0
  }

  lemma ListedNext(flags: map<string, Flag>, left: set<string>, r: seq<Flag>, name: string)
    requires Listed(flags, left, r) && name in left && name in flags && flags[name].name == name
    ensures Listed(flags, left - {name}, r + [flags[name]])
  {
  }

  lemma NothingListed(flags: map<string, Flag>)
    ensures Listed(flags, flags.Keys, [])
  {
  }

  lemma ListedAll(s: seq<Flag>, r: seq<Flag>)
    requires DistinctNames(s) && Listed(ByName(s), {}, r)
    ensures multiset(r) == multiset(s)
  {
    forall f
      ensures multiset(r)[f] == multiset(s)[f]
    {
      CountInMap(s, f);
    }
  }

  lemma DistinctAppend(s: seq<Flag>, f: Flag)
    requires DistinctNames(s) && First(s, f.name).None?
    ensures DistinctNames(s + [f])
  {
    FirstIs(s, f.name);
    assert forall i :: 0 <= i < |s| ==> s[i] in s;
  }

  lemma StepOk(s: State, e: Event, s': State)
    requires Ok(s) && Step(s, e, s')
    ensures Ok(s')
    ensures s.log <= s'.log && (s.finalized ==> s'.finalized && s'.flat == s.flat && s'.cut == s.cut)
  {
    match e
    case Register(f, filename) =>
      var outcome := Registering(s.flags, f, filename);
      RegisterOk(s, f, outcome);
    case Finalize =>
      if !s.finalized {
        assert s.kept[s.cut..] == s.kept && s.kept[..|s.kept|] == s.kept && s.kept[|s.kept|..] == [];
      }
  }

  lemma FirstsAgree(s: State, f: Flag, name: string)
    requires Ok(s)
    ensures First(s.log + [f], name) == First(s.kept + [f], name)
    ensures f.name in s.flags ==> First(s.log + [f], name) == First(s.kept, name)
  {
    assert First(s.log, name) == First(s.kept, name);
    hide First, ByName, DistinctNames, SortedByName;
    FirstAppend(s.log, [f], name);
    FirstAppend(s.kept, [f], name);
    FirstIs([f], name);
    if f.name in s.flags {
      InKept(s.kept[..s.cut], s.kept[s.cut..], f.name);
      assert s.kept == s.kept[..s.cut] + s.kept[s.cut..];
    }
  }

  lemma InKept(head: seq<Flag>, tail: seq<Flag>, name: string)
    requires DistinctNames(tail) && name in ByName(tail)
    ensures First(head + tail, name).Some?
  {
    FirstAppend(head, tail, name);
    ByNameFinds(tail, name);
  }

  lemma KeptGrows(kept: seq<Flag>, cut: nat, f: Flag)
    requires cut <= |kept|
    ensures (kept + [f])[..cut] == kept[..cut] && (kept + [f])[cut..] == kept[cut..] + [f]
  {
  }

  lemma TailGrows(tail: seq<Flag>, f: Flag)
    requires DistinctNames(tail) && f.name !in ByName(tail)
    ensures DistinctNames(tail + [f]) && ByName(tail + [f]) == ByName(tail)[f.name := f]
  {
    ByNameFinds(tail, f.name);
    DistinctAppend(tail, f);
    assert (tail + [f])[..|tail|] == tail;
  }

  lemma RegisterOk(s: State, f: Flag, outcome: Outcome)
    requires Ok(s) && !outcome.Exits?
    requires if outcome.Registered? then f.name !in s.flags else f.name in s.flags
    ensures Ok(AfterRegister(s, f, outcome))
  {
    hide First, ByName, DistinctNames, SortedByName;
    forall name
      ensures First(s.log + [f], name) == First(s.kept + [f], name)
      ensures f.name in s.flags ==> First(s.log + [f], name) == First(s.kept, name)
    {
      FirstsAgree(s, f, name);
    }
    if outcome.Registered? {
      KeptGrows(s.kept, s.cut, f);
      TailGrows(s.kept[s.cut..], f);
    }
  }

  /** A run of registrations and freezes by any threads; each holds the lock. */
  ghost predicate Run(states: seq<State>, events: seq<Event>)
  {
    && |states| == |events| + 1 && states[0] == State(map[], [], false, [], [], 0)
    && forall i :: 0 <= i < |events| ==> Step(states[i], events[i], states[i + 1])
  }

  lemma {:induction false} RunOk(states: seq<State>, events: seq<Event>, k: nat)
    requires Run(states, events) && k < |states|
    ensures Ok(states[k])
  {
    if k > 0 {
      RunOk(states, events, k - 1);
      StepOk(states[k - 1], events[k - 1], states[k]);
    }
  }

  /** Once frozen the array never changes, and the history only grows. */
  lemma {:induction false} FrozenStays(states: seq<State>, events: seq<Event>, i: nat, k: nat)
    requires Run(states, events) && i <= k < |states|
    ensures states[i].log <= states[k].log
    ensures states[i].finalized ==>
              states[k].finalized && states[k].flat == states[i].flat && states[k].cut == states[i].cut
    ensures SortedByName(states[k].flat, NameOf)
  {
    RunOk(states, events, k);
    if i < k {
      FrozenStays(states, events, i, k - 1);
      RunOk(states, events, k - 1);
      StepOk(states[k - 1], events[k - 1], states[k]);
    }
  }

  /** The array holds the flags that were in the map when it was frozen. */
  lemma FlatFinds(s: State, name: string)
    requires Ok(s)
    ensures First(s.flat, name) == First(s.kept[..s.cut], name)
  {
    FirstIs(s.flat, name);
    FirstIs(s.kept[..s.cut], name);
    assert forall f :: f in s.flat <==> f in multiset(s.kept[..s.cut]);
    if First(s.flat, name).Some? {
      OnlyOne(s.kept[..s.cut], First(s.flat, name).value);
    }
  }

  /** What FindFlag returns when it reads the bit in one state and takes the lock in another. */
  ghost function Found(checked: State, locked: State, name: string): Option<Flag>
  {
    if checked.finalized && First(checked.flat, name).Some? then First(checked.flat, name)
    else InMap(locked.flags, name)
  }

  lemma KeptLookup(s: State, name: string)
    requires Ok(s)
    ensures First(s.log, name) == if First(s.flat, name).Some? then First(s.flat, name) else InMap(s.flags, name)
  {
    FlatFinds(s, name);
    assert s.kept == s.kept[..s.cut] + s.kept[s.cut..];
    FirstAppend(s.kept[..s.cut], s.kept[s.cut..], name);
    ByNameFinds(s.kept[s.cut..], name);
  }

  /** Undisturbed, a lookup returns the first flag registered under the name, in either phase. */
  lemma FindsFirst(s: State, name: string)
    requires Ok(s)
    ensures Found(s, s, name) == First(s.log, name)
  {
    KeptLookup(s, name);
    FlatFinds(s, name);
  }

  ghost predicate DistinctFlags(s: seq<Flag>)
  {
    forall i, j :: 0 <= i < j < |s| ==> s[i] != s[j]
  }

  /** A lookup that other threads overtake is right at the time it takes the lock exactly when no freeze fell
      in between, or the frozen array does not hold the name. */
  lemma FindRace(states: seq<State>, events: seq<Event>, i: nat, k: nat, name: string)
    requires Run(states, events) && i <= k < |states| && DistinctFlags(states[k].kept)
    ensures Found(states[i], states[k], name) == First(states[k].log, name) <==>
            states[i].finalized == states[k].finalized || First(states[k].flat, name).None?
  {
    var s, t := states[i], states[k];
    FrozenStays(states, events, i, k);
    RunOk(states, events, i);
    RunOk(states, events, k);
    KeptLookup(t, name);
    if !s.finalized && t.finalized && First(t.flat, name).Some? {
      FlatFinds(t, name);
      Apart(t, name);
    } else if !t.finalized {
      FlatFinds(t, name);
    }
  }

  /** The flag found in the array is not the one in the map. */
  lemma Apart(s: State, name: string)
    requires Ok(s) && DistinctFlags(s.kept) && First(s.kept[..s.cut], name).Some?
    ensures InMap(s.flags, name) != First(s.kept[..s.cut], name)
  {
    var head, tail := s.kept[..s.cut], s.kept[s.cut..];
    FirstIs(head, name);
    ByNameFinds(tail, name);
    FirstIs(tail, name);
    var i :| 0 <= i < |head| && head[i] == First(head, name).value;
    assert forall j :: 0 <= j < |tail| ==> tail[j] == s.kept[s.cut + j] && s.kept[s.cut + j] != s.kept[i];
  }

  /** The loss is real: a flag registered before the freeze is not found. */
  lemma LostLookup(f: Flag)
    ensures var states := [State(map[], [], false, [], [], 0),
                           State(map[f.name := f], [], false, [f], [f], 0),
                           State(map[], [f], true, [f], [f], 1)];
            && Run(states, [Register(f, None), Finalize])
            && Found(states[1], states[2], f.name) == None
            && First(states[2].log, f.name) == Some(f)
            && Seen(states[1], states[2]) == multiset{}
  {
    assert [] + [f] == [f];
    assert map[][f.name := f] == map[f.name := f];
  }

  lemma {:induction false} FirstGrows(a: seq<Flag>, b: seq<Flag>, name: string)
    requires a <= b && First(a, name).Some?
    ensures First(b, name) == First(a, name)
  {
    assert b == a + b[|a|..];
    FirstAppend(a, b[|a|..], name);
  }

  /** The answer of an overtaken lookup was the right one at some moment between its check and its lock exactly
      when no freeze fell in between, or the frozen array does not hold the name, or the name was still
      unknown at the check and is in no map at the lock. */
  lemma FindLinear(states: seq<State>, events: seq<Event>, i: nat, k: nat, name: string)
    requires Run(states, events) && i <= k < |states| && DistinctFlags(states[k].kept)
    ensures (exists m :: i <= m <= k && Found(states[i], states[k], name) == First(states[m].log, name)) <==>
            || states[i].finalized == states[k].finalized
            || First(states[k].flat, name).None?
            || (First(states[i].log, name).None? && name !in states[k].flags)
  {
    hide Run, Ok, DistinctFlags, First;
    FindRace(states, events, i, k, name);
    FrozenStays(states, events, i, k);
    var s, t := states[i], states[k];
    var found := Found(s, t, name);
    if !s.finalized && t.finalized && First(t.flat, name).Some? {
      RunOk(states, events, k);
      FlatFinds(t, name);
      KeptLookup(t, name);
      Apart(t, name);
      assert found == InMap(t.flags, name) && found != First(t.log, name);
      if First(s.log, name).None? && name !in t.flags {
        assert found == First(states[i].log, name);
      }
      forall m | i <= m <= k && found == First(states[m].log, name)
        ensures found.None? && First(s.log, name).None?
      {
        FrozenStays(states, events, i, m);
        FrozenStays(states, events, m, k);
        if found.Some? {
          FirstGrows(states[m].log, t.log, name);
        } else if First(s.log, name).Some? {
          FirstGrows(s.log, states[m].log, name);
        }
      }
    } else {
      assert found == First(states[k].log, name);
    }
  }

  /** The flags ForEachFlag visits when it reads the bit in one state and takes the lock in another. */
  ghost function Seen(checked: State, locked: State): multiset<Flag>
    requires locked.cut <= |locked.kept|
  {
    (if checked.finalized then multiset(checked.flat) else multiset{}) + multiset(locked.kept[locked.cut..])
  }

  /** An overtaken ForEachFlag visits every flag exactly once exactly when no freeze fell between its check and
      its lock, or nothing was frozen. */
  lemma VisitRace(states: seq<State>, events: seq<Event>, i: nat, k: nat)
    requires Run(states, events) && i <= k < |states|
    ensures states[k].cut <= |states[k].kept|
    ensures Seen(states[i], states[k]) == multiset(states[k].kept) <==>
            states[i].finalized == states[k].finalized || states[k].flat == []
  {
    var s, t := states[i], states[k];
    FrozenStays(states, events, i, k);
    RunOk(states, events, k);
    hide Run, First, ByName, SortedByName, DistinctNames;
    var head, tail := t.kept[..t.cut], t.kept[t.cut..];
    assert t.kept == head + tail;
    assert multiset(t.kept) == multiset(head) + multiset(tail);
    if s.finalized == t.finalized {
      if !s.finalized {
        assert head == [];
      }
    } else if t.flat == [] {
      assert |multiset(head)| == 0;
    } else {
      assert t.flat[0] in multiset(head);
      assert multiset(t.kept)[t.flat[0]] > multiset(tail)[t.flat[0]];
    }
  }

  /** A name that was registered before is accepted again exactly when its flag sits in the frozen array and
      not in the map; otherwise the duplicate is caught. */
  lemma DuplicateAccepted(s: State, f: Flag)
    requires Ok(s) && First(s.log, f.name).Some?
    ensures Registering(s.flags, f, Some(f.filename)).Registered? <==>
            s.finalized && First(s.flat, f.name).Some? && f.name !in s.flags
  {
    KeptLookup(s, f.name);
    FlatFinds(s, f.name);
  }

  /** Such a duplicate is real: two different flags of one name are both kept. */
  lemma DuplicateRun(f: Flag, g: Flag)
    requires f.name == g.name && f != g
    ensures var states := [State(map[], [], false, [], [], 0),
                           State(map[f.name := f], [], false, [f], [f], 0),
                           State(map[], [f], true, [f], [f], 1),
                           State(map[g.name := g], [f], true, [f, g], [f, g], 1)];
            && Run(states, [Register(f, None), Finalize, Register(g, None)])
            && First(states[2].log, g.name) == Some(f)
            && Found(states[3], states[3], g.name) == Some(f)
  {
    assert [] + [f] == [f] && [f] + [g] == [f, g];
    assert map[][f.name := f] == map[f.name := f] && map[][g.name := g] == map[g.name := g];
    var states := [State(map[], [], false, [], [], 0),
                   State(map[f.name := f], [], false, [f], [f], 0),
                   State(map[], [f], true, [f], [f], 1),
                   State(map[g.name := g], [f], true, [f, g], [f, g], 1)];
    var events := [Register(f, None), Finalize, Register(g, None)];
    assert Step(states[0], events[0], states[1]);
    assert Step(states[1], events[1], states[2]);
    assert Step(states[2], events[2], states[3]);
  }

  lemma FirstAtPoint(s: seq<Flag>, name: string, p: nat)
    requires SortedByName(s, NameOf) && p <= |s|
    requires forall i :: 0 <= i < p ==> Less(NameOf(s[i]), name)
    requires forall i :: p <= i < |s| ==> !Less(NameOf(s[i]), name)
    ensures First(s, name) == if p < |s| && s[p].name == name then Some(s[p]) else None
  {
    FoundAtPoint(s, NameOf, name, p);
    FirstIs(s, name);
    if p < |s| && s[p].name == name {
      LessTotal(name, name);
      FirstAppend(s[..p], s[p..], name);
      assert s == s[..p] + s[p..];
      FirstIs(s[..p], name);
    }
  }

  class Registry {
    var flags: map<string, Flag>
    var flat: seq<Flag>
    var finalized: bool
    ghost var log: seq<Flag>
    ghost var kept: seq<Flag>
    ghost var cut: nat

    ghost function Now(): State
      reads this
    {
      State(flags, flat, finalized, log, kept, cut)
    }

    ghost predicate Valid()
      reads this
    {
      Ok(Now())
    }

    constructor ()
      ensures Valid() && Now() == State(map[], [], false, [], [], 0)
    {
      flags, flat, finalized, log, kept, cut := map[], [], false, [], [], 0;
    }

    method RegisterFlag(f: Flag, filename: Option<string>) returns (outcome: Outcome)
      requires Valid()
      modifies this
      ensures outcome == Registering(old(flags), f, filename)
      ensures outcome.Exits? <==>
              || (filename.Some? && filename.value != f.filename)
              || (f.name in old(flags) &&
                  var before := old(flags)[f.name]; !f.retired || !before.retired || f.typeId != before.typeId)
      ensures outcome.Registered? ==> f.name !in old(flags) && flags == old(flags)[f.name := f]
      ensures !outcome.Registered? ==> flags == old(flags)
      ensures Valid() && Now() == AfterRegister(old(Now()), f, outcome)
      ensures !outcome.Exits? ==> Step(old(Now()), Register(f, filename), Now())
    {
      if filename.Some? && f.filename != filename.value {
        return Exits;
      }
      if f.name in flags {
        var before := flags[f.name];
        if f.retired != before.retired || f.typeId != before.typeId || !before.retired {
          return Exits;
        }
        outcome := RetiredAgain;
        RegisterOk(Now(), f, outcome);
      } else {
        outcome := Registered;
        RegisterOk(Now(), f, outcome);
        flags, kept := flags[f.name := f], kept + [f];
      }
      log := log + [f];
    }

    method FinalizeRegistry()
      requires Valid()
      modifies this
      ensures Valid() && Step(old(Now()), Finalize, Now())
    {
      if finalized {
        return;
      }
      var listed := ListFlags();
      flat := Sort(listed, NameOf);
      assert kept[..cut] == [] && kept[cut..] == kept;
      flags, cut := map[], |kept|;
      finalized := true;
      StepOk(old(Now()), Finalize, Now());
    }

    /** The values of the map in some order. */
    method ListFlags() returns (r: seq<Flag>)
      requires Valid()
      ensures multiset(r) == multiset(kept[cut..])
    {
      hide Listed, ByName, DistinctNames, First;
      var names := flags.Keys;
      r := [];
      NothingListed(flags);
      while names != {}
        invariant names <= flags.Keys
        invariant Listed(flags, names, r)
        decreases |names|
      {
        var name :| name in names;
        Filed(kept[cut..], name);
        ListedNext(flags, names, r, name);
        r := r + [flags[name]];
        names := names - {name};
      }
      ListedAll(kept[cut..], r);
    }

    /** The search of the frozen array, made without the lock. */
    method SearchFlat(name: string) returns (r: Option<Flag>)
      requires SortedByName(flat, NameOf)
      ensures r == First(flat, name)
    {
      var p := PartitionPoint(flat, NameOf, name);
      FirstAtPoint(flat, name, p);
      r := if p < |flat| && flat[p].name == name then Some(flat[p]) else None;
    }

    method FindFlag(name: string) returns (r: Option<Flag>)
      requires Valid()
      ensures r == First(log, name)
    {
      FindsFirst(Now(), name);
      if finalized {
        r := SearchFlat(name);
        if r.Some? {
          return;
        }
      }
      r := InMap(flags, name);
    }

    /** The flags in the order they are visited: the array, then the map. */
    method ForEachFlag() returns (visited: seq<Flag>)
      requires Valid()
      ensures multiset(visited) == Seen(Now(), Now()) == multiset(kept)
    {
      visited := [];
      if finalized {
        visited := flat;
      } else {
        assert kept[..cut] == [];
      }
      var rest := ListFlags();
      assert kept == kept[..cut] + kept[cut..];
      visited := visited + rest;
    }
  }
}

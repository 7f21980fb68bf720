/** What the results of a parse say about its command line. */
module FlagResults {
  import opened FlagText
  import opened FlagExpansion
  import opened FlagParser

  // ---------------------------------------------------------------------------------------------
  // Positional arguments
  // ---------------------------------------------------------------------------------------------

  predicate Increasing(s: seq<nat>)
  {
    forall i, j :: 0 <= i < j < |s| ==> s[i] < s[j]
  }

  predicate Within(s: seq<nat>, low: nat, high: nat)
  {
    forall i :: 0 <= i < |s| ==> low <= s[i] < high
  }

  lemma {:induction false} PositionalsCons(e: Event, rest: seq<Event>)
    ensures Positionals([e] + rest) == (if e.action.Positional? then [e.index] else []) + Positionals(rest)
    decreases |rest|
  {
    if rest == [] {
      assert [e] + rest == [e];
      assert [e][..0] == [];
    } else {
      var n := |rest| - 1;
      assert ([e] + rest)[..n + 1] == [e] + rest[..n];
      PositionalsCons(e, rest[..n]);
    }
  }

  lemma {:induction false} RangeValues(a: nat, b: nat)
    requires a <= b
    ensures |Range(a, b)| == b - a && forall i :: 0 <= i < b - a ==> Range(a, b)[i] == a + i
    decreases b - a
  {
    if a < b {
      RangeValues(a + 1, b);
    }
  }

  lemma IncreasingJoin(s: seq<nat>, t: seq<nat>, low: nat, mid: nat, high: nat)
    requires Increasing(s) && Within(s, low, mid) && Increasing(t) && Within(t, mid, high) && low <= mid <= high
    ensures Increasing(s + t) && Within(s + t, low, high)
  {
  }

  lemma FewValues(a: nat, w: nat)
    ensures Increasing([]) && Within([], a, a + w) && Increasing([a]) && Within([a], a, a + 1)
  {
  }

  /** Events that use up positions `a` to `b` in order report positional arguments in order. */
  lemma {:induction false} PositionalsIncrease(events: seq<Event>, a: nat, b: nat)
    requires a <= b && Used(events) == Range(a, b)
    requires forall e :: e in events && e.action.Positional? ==> e.fromArgv
    ensures Increasing(Positionals(events)) && Within(Positionals(events), a, b)
    decreases |events|
  {
    hide Positionals, Range, Used, Increasing, Within;
    if events == [] {
      NoEvents();
      FewValues(a, b - a);
    } else {
      var e, rest := events[0], events[1..];
      var w := |Positions(e)|;
      assert events == [e] + rest;
      UsedFirst(events, a, b);
      PositionalsIncrease(rest, a + w, b);
      PositionalsCons(e, rest);
      FewValues(a, w);
      if e.action.Positional? {
        assert e in events;
        assert Positions(e) == [e.index];
        IncreasingJoin([a], Positionals(rest), a, a + 1, b);
      } else {
        assert [] + Positionals(rest) == Positionals(rest);
        IncreasingJoin([], Positionals(rest), a, a + w, b);
      }
    }
  }

  lemma NoEvents()
    ensures Positionals([]) == []
  {
  }

  lemma UsedFirst(events: seq<Event>, a: nat, b: nat)
    requires events != [] && a <= b && Used(events) == Range(a, b)
    ensures var w := |Positions(events[0])|;
            a + w <= b && Used(events[1..]) == Range(a + w, b) && (w == 1 ==> Positions(events[0]) == [a])
  {
    var u, w := Positions(events[0]), |Positions(events[0])|;
    assert Used(events) == u + Used(events[1..]);
    hide Range, Used, Positions;
    RangeValues(a, b);
    assert |u + Used(events[1..])| == b - a;
    assert Used(events[1..]) == Range(a, b)[w..];
    RangeSuffix(a, w, b);
    if w == 1 {
      assert u[0] == Range(a, b)[0];
    }
  }

  lemma RangeSuffix(a: nat, w: nat, b: nat)
    requires a + w <= b
    ensures |Range(a, b)| == b - a && Range(a, b)[w..] == Range(a + w, b)
  {
    RangeValues(a, b);
    RangeValues(a + w, b);
  }

  /** The positional arguments are argv[0], then positions of argv in strictly increasing order, then
      everything after the terminator. */
  lemma PositionalOrder(cfg: Config, depth: nat, waiting: seq<Source>, argv: seq<string>)
    requires argv != [] && Smooth(Expand(cfg, depth, waiting, argv))
    ensures var t := Expand(cfg, depth, waiting, argv);
            var positional := [0] + Positionals(t.events) + Range(Reached(t, argv), |argv|);
            Increasing(positional) && Within(positional, 0, |argv|)
  {
    var t := Expand(cfg, depth, waiting, argv);
    Coverage(cfg, depth, waiting, argv);
    var r := Reached(t, argv);
    PositionalsIncrease(t.events, 1, r);
    IncreasingJoin([0], Positionals(t.events), 0, 1, r);
    RangeValues(r, |argv|);
    IncreasingJoin([0] + Positionals(t.events), Range(r, |argv|), 0, r, |argv|);
  }

  // ---------------------------------------------------------------------------------------------
  // Flags present on the command line
  // ---------------------------------------------------------------------------------------------

  lemma {:induction false} FlagsSetIff(cfg: Config, events: seq<Event>, f: Flag)
    ensures f in FlagsSet(cfg, events) <==> exists e :: e in events && Sets(cfg, e.action) && e.action.flag == f
    decreases |events|
  {
    hide Sets;
    if events != [] {
      var n := |events| - 1;
      FlagsSetIff(cfg, events[..n], f);
      assert events == events[..n] + [events[n]];
    }
  }

  /** A search among the sorted set flags finds a name exactly when some processed argument set a flag
      of that name. */
  lemma PresentIff(cfg: Config, events: seq<Event>, sorted: seq<Flag>, name: string)
    requires multiset(sorted) == multiset(FlagsSet(cfg, events))
    ensures (exists f: Flag :: f in sorted && f.name == name)
       <==> (exists e :: e in events && Sets(cfg, e.action) && e.action.flag.name == name)
  {
    assert forall f :: f in sorted <==> f in multiset(sorted);
    assert forall f :: f in FlagsSet(cfg, events) <==> f in multiset(FlagsSet(cfg, events));
    if f: Flag :| f in sorted && f.name == name {
      FlagsSetIff(cfg, events, f);
    }
    if e :| e in events && Sets(cfg, e.action) && e.action.flag.name == name {
      FlagsSetIff(cfg, events, e.action.flag);
      assert e.action.flag in sorted;
    }
  }

  // ---------------------------------------------------------------------------------------------
  // The documented forms of a flag
  // ---------------------------------------------------------------------------------------------

  predicate PlainName(name: string)
  {
    name != "" && '=' !in name
  }

  lemma {:induction false} FindAfter(name: string, rest: string)
    requires '=' !in name
    ensures Find(name + rest, '=') == |name| + Find(rest, '=')
    decreases |name|
  {
    if name == "" {
      assert name + rest == rest;
    } else {
      assert (name + rest)[1..] == name[1..] + rest;
      FindAfter(name[1..], rest);
    }
  }

  /** "name" and "name=value" split into name and value; a dash in front of them is dropped. */
  lemma SplitForms(name: string, value: string)
    requires PlainName(name)
    ensures SplitNameAndValue("-" + name) == NameValue(name, "", false)
    ensures SplitNameAndValue("-" + (name + "=" + value)) == NameValue(name, value, value == "")
    ensures name[0] != '-' ==> SplitNameAndValue(name) == SplitNameAndValue("-" + name)
    ensures name[0] != '-' ==> SplitNameAndValue(name + "=" + value) == SplitNameAndValue("-" + (name + "=" + value))
  {
    FindAfter(name, "");
    assert name + "" == name;
    FindAfter(name, "=" + value);
    var whole := name + "=" + value;
    assert whole == name + ("=" + value);
    assert Find("=" + value, '=') == 0;
    assert whole[..|name|] == name && whole[|name| + 1..] == value;
    ConsumeForms(name);
    ConsumeForms(whole);
  }

  lemma ConsumeForms(s: string)
    ensures Consume("-" + s, "-") == s
    ensures s != "" && s[0] != '-' ==> Consume(s, "-") == s
  {
    assert ("-" + s)[1..] == s;
  }

  /** The argument is a name after one or two dashes, with a value after '=' or without.  A name that starts with a
      dash itself takes two more. */
  predicate Writes(arg: string, name: string, value: Option<string>)
    requires name != ""
  {
    var body := if value.Some? then name + "=" + value.value else name;
    arg == "--" + body || (arg == "-" + body && name[0] != '-')
  }

  predicate PositionalText(arg: string)
  {
    arg == "" || arg[0] != '-' || arg == "-"
  }

  predicate TerminatorText(arg: string)
  {
    arg == "--" || "-=" <= arg || "--=" <= arg
  }

  lemma FlagBody(arg: string) returns (body: string)
    requires !PositionalText(arg) && !TerminatorText(arg)
    ensures body != "" && body[0] != '=' && (arg == "--" + body || (arg == "-" + body && body[0] != '-'))
  {
    if arg[1] == '-' {
      body := arg[2..];
      assert arg == "--" + body;
    } else {
      body := arg[1..];
      assert arg == "-" + body;
    }
  }

  lemma NameAndValue(body: string) returns (name: string, value: Option<string>)
    requires body != "" && body[0] != '='
    ensures PlainName(name) && name[0] == body[0]
    ensures body == if value.Some? then name + "=" + value.value else name
  {
    var eq := Find(body, '=');
    name, value := body[..eq], None;
    if eq < |body| {
      value := Some(body[eq + 1..]);
      assert body == name + "=" + value.value;
    }
  }

  /** Every argument is positional, a terminator, or a flag written in one of these ways. */
  lemma EveryArgument(arg: string) returns (name: string, value: Option<string>)
    ensures PositionalText(arg) || TerminatorText(arg) || (PlainName(name) && Writes(arg, name, value))
  {
    hide PositionalText, TerminatorText, PlainName;
    name, value := "", None;
    if !PositionalText(arg) && !TerminatorText(arg) {
      var body := FlagBody(arg);
      name, value := NameAndValue(body);
    }
  }

  /** What every documented way to write a flag asks for, said with the registry alone: the flag of that name if
      there is one, also when the name starts with "no"; otherwise the flag named after a leading "no", negated. */
  lemma FlagForms(cfg: Config, args: seq<string>, k: nat, name: string, value: Option<string>)
    requires k < |args| && PlainName(name) && Writes(args[k], name, value)
    ensures var a := ActionAt(cfg, args, k);
            if name in cfg.registry then
              var f := cfg.registry[name];
              match (f.typ, value)
              case (BoolType, None) => a == Assign(f, "1", true, false)
              case (BoolType, Some(v)) => a == Assign(f, v, v != "", false)
              case (_, Some(v)) => a == Assign(f, v, true, false)
              case (_, None) =>
                a == if k + 1 < |args| then Assign(f, args[k + 1], true, true) else Assign(f, "", false, false)
            else if "no" <= name && name != "no" && name[2..] in cfg.registry then
              var f := cfg.registry[name[2..]];
              a == if f.typ == BoolType && value.None? then Assign(f, "0", true, false) else Assign(f, "", false, false)
            else a == if IsUsageFlag(name) then UsageFlag(name) else Unrecognized(name)
  {
    hide IsUsageFlag, SplitNameAndValue;
    var v := if value.Some? then value.value else "";
    SplitForms(name, v);
    var body := if value.Some? then name + "=" + v else name;
    assert ("--" + body)[1..] == "-" + body && ("-" + body)[1..] == body;
    assert SplitNameAndValue(args[k][1..]) == NameValue(name, v, value == Some(""));
    assert "-" <= args[k] && args[k] != "-";
  }

  /** The negated form of a registered flag: a bool flag is set to "0", and anything else is an error. */
  lemma NegatedForm(cfg: Config, args: seq<string>, k: nat, n: string, value: Option<string>)
    requires k < |args| && n != "" && '=' !in n && Writes(args[k], "no" + n, value)
    requires n in cfg.registry && "no" + n !in cfg.registry
    ensures var f, a := cfg.registry[n], ActionAt(cfg, args, k);
            if f.typ == BoolType && value.None? then a == Assign(f, "0", true, false)
            else a == Assign(f, "", false, false)
  {
    hide ActionAt;
    assert ("no" + n)[2..] == n;
    FlagForms(cfg, args, k, "no" + n, value);
  }

  /** An argument is positional exactly when it does not start with a dash or is nothing else. */
  lemma PositionalIff(cfg: Config, args: seq<string>, k: nat)
    requires k < |args|
    ensures ActionAt(cfg, args, k).Positional? <==> PositionalText(args[k])
  {
    hide SplitNameAndValue, LocateFlag, DeduceFlagValue, IsUsageFlag;
  }
}

/** The suggestions for a misspelled flag (absl/flags/parse.cc, BestHints and GetMisspellingHints).

    The search keeps one best distance and shrinks the cap of the distance computation to it, so each
    comparison sees the real distance only as far as it matters. */
module MisspellingHints {
  import opened EditDistance

  const MAX_HINTS: nat := 100
  const MAX_DISTANCE: nat := 3

  datatype FlagInfo = FlagInfo(name: string, isBool: bool)

  /** A name to compare with and the text to suggest. */
  datatype Candidate = Candidate(name: string, shown: string)

  function FlagCandidates(f: FlagInfo): seq<Candidate>
  {
    [Candidate(f.name, f.name)] + if f.isBool then [Candidate("no" + f.name, "no" + f.name)] else []
  }

  function Undefok(name: string): Candidate
  {
    Candidate(name, name + " (undefok)")
  }

  /** All candidates in the order they are visited. */
  function AllFlags(flags: seq<FlagInfo>): seq<Candidate>
  {
    if flags == [] then [] else AllFlags(flags[..|flags| - 1]) + FlagCandidates(flags[|flags| - 1])
  }

  function AllUndefok(names: seq<string>): seq<Candidate>
  {
    if names == [] then [] else AllUndefok(names[..|names| - 1]) + [Undefok(names[|names| - 1])]
  }

  /** The candidates are the names of all flags and the negated names of the bool flags, shown as they are ... */
  lemma {:induction false} FlagCandidatesAre(flags: seq<FlagInfo>, c: Candidate)
    ensures c in AllFlags(flags)
       <==> (&& c.shown == c.name
             && exists f :: f in flags && (c.name == f.name || (f.isBool && c.name == "no" + f.name)))
    decreases |flags|
  {
    if flags != [] {
      var n := |flags| - 1;
      FlagCandidatesAre(flags[..n], c);
      assert flags == flags[..n] + [flags[n]];
      OwnCandidates(flags[n], c);
    }
  }

  lemma OwnCandidates(f: FlagInfo, c: Candidate)
    ensures c in FlagCandidates(f) <==> c.shown == c.name && (c.name == f.name || (f.isBool && c.name == "no" + f.name))
  {
  }

  /** ... and the names in undefok, with a remark. */
  lemma {:induction false} UndefokCandidatesAre(names: seq<string>, c: Candidate)
    ensures c in AllUndefok(names) <==> c.name in names && c.shown == c.name + " (undefok)"
    decreases |names|
  {
    if names != [] {
      var n := |names| - 1;
      UndefokCandidatesAre(names[..n], c);
      assert names == names[..n] + [names[n]];
    }
  }

  function Shown(cs: seq<Candidate>): seq<string>
  {
    seq(|cs|, i requires 0 <= i < |cs| => cs[i].shown)
  }

  /** The largest distance at which a hint is still given. */
  function Reach(flag: string): nat
  {
    Min(|flag| / 2 + 1, MAX_DISTANCE) + 1
  }

  /** The real distance; a string too long for the table counts as farther than any other. */
  function Far(flag: string, c: Candidate): nat
  {
    if |flag| > MAX_SIZE || |c.name| > MAX_SIZE then MAX_SIZE + 1 else Distance(flag, c.name, |flag|, |c.name|)
  }

  /** The least distance among the candidates, or `reach` when all are farther. */
  function Nearest(flag: string, cs: seq<Candidate>, reach: nat): nat
  {
    if cs == [] then reach else Min(Nearest(flag, cs[..|cs| - 1], reach), Far(flag, cs[|cs| - 1]))
  }

  function AtDistance(flag: string, cs: seq<Candidate>, d: nat): seq<Candidate>
  {
    if cs == [] then []
    else
      var front := AtDistance(flag, cs[..|cs| - 1], d);
      if Far(flag, cs[|cs| - 1]) == d then front + [cs[|cs| - 1]] else front
  }

  /** The candidates at the least distance, in order. */
  function Closest(flag: string, cs: seq<Candidate>, reach: nat): seq<Candidate>
  {
    AtDistance(flag, cs, Nearest(flag, cs, reach))
  }

  lemma {:induction false} NearestIsLeast(flag: string, cs: seq<Candidate>, reach: nat)
    ensures Nearest(flag, cs, reach) <= reach
    ensures forall k :: 0 <= k < |cs| ==> Nearest(flag, cs, reach) <= Far(flag, cs[k])
    ensures || Nearest(flag, cs, reach) == reach
            || exists k :: 0 <= k < |cs| && Far(flag, cs[k]) == Nearest(flag, cs, reach)
  {
    if cs != [] {
      var front := cs[..|cs| - 1];
      NearestIsLeast(flag, front, reach);
      assert forall k :: 0 <= k < |front| ==> front[k] == cs[k];
    }
  }

  /** The candidates at a distance are exactly those, in their order. */
  lemma {:induction false} AtDistanceIs(flag: string, cs: seq<Candidate>, d: nat)
    ensures forall c :: c in AtDistance(flag, cs, d) <==> c in cs && Far(flag, c) == d
    ensures |AtDistance(flag, cs, d)| <= |cs|
  {
    if cs != [] {
      AtDistanceIs(flag, cs[..|cs| - 1], d);
      assert cs == cs[..|cs| - 1] + [cs[|cs| - 1]];
    }
  }

  lemma {:induction false} NoneAt(flag: string, cs: seq<Candidate>, d: nat)
    requires forall k :: 0 <= k < |cs| ==> Far(flag, cs[k]) != d
    ensures AtDistance(flag, cs, d) == []
  {
    hide Far;
    if cs != [] {
      assert forall k :: 0 <= k < |cs| - 1 ==> cs[..|cs| - 1][k] == cs[k];
      NoneAt(flag, cs[..|cs| - 1], d);
    }
  }

  lemma ClosestNext(flag: string, cs: seq<Candidate>, c: Candidate, reach: nat)
    ensures Nearest(flag, cs + [c], reach) == Min(Nearest(flag, cs, reach), Far(flag, c))
    ensures Closest(flag, cs + [c], reach) ==
            if Far(flag, c) < Nearest(flag, cs, reach) then [c]
            else if Far(flag, c) == Nearest(flag, cs, reach) then Closest(flag, cs, reach) + [c]
            else Closest(flag, cs, reach)
  {
    assert (cs + [c])[..|cs|] == cs;
    if Far(flag, c) < Nearest(flag, cs, reach) {
      NearestIsLeast(flag, cs, reach);
      NoneAt(flag, cs, Far(flag, c));
    }
  }

  /** The candidates looked at before the list is full. */
  function Visited(flag: string, cs: seq<Candidate>, reach: nat): seq<Candidate>
  {
    if cs == [] then []
    else
      var front := Visited(flag, cs[..|cs| - 1], reach);
      if |Closest(flag, front, reach)| >= MAX_HINTS then front else front + [cs[|cs| - 1]]
  }

  lemma NothingClose(flag: string, reach: nat)
    ensures Closest(flag, [], reach) == []
  {
  }

  lemma {:induction false} VisitedIsPrefix(flag: string, cs: seq<Candidate>, reach: nat)
    ensures Visited(flag, cs, reach) <= cs
    ensures |Closest(flag, Visited(flag, cs, reach), reach)| <= MAX_HINTS
    ensures Visited(flag, cs, reach) == cs || |Closest(flag, Visited(flag, cs, reach), reach)| == MAX_HINTS
  {
    hide Closest, Nearest, Far;
    if cs == [] {
      NothingClose(flag, reach);
    } else {
      var front, c := cs[..|cs| - 1], cs[|cs| - 1];
      VisitedIsPrefix(flag, front, reach);
      assert cs == front + [c];
      hide Visited;
      VisitedNext(flag, front, c, reach);
      ClosestNext(flag, Visited(flag, front, reach), c, reach);
    }
  }

  lemma VisitedNext(flag: string, cs: seq<Candidate>, c: Candidate, reach: nat)
    ensures Visited(flag, cs + [c], reach) ==
            if |Closest(flag, Visited(flag, cs, reach), reach)| >= MAX_HINTS then Visited(flag, cs, reach)
            else Visited(flag, cs, reach) + [c]
  {
    assert (cs + [c])[..|cs|] == cs;
  }

  /** A capped comparison agrees with the real distance as far as the best one found so far. */
  lemma CapSuffices(flag: string, c: Candidate, best: nat)
    requires best <= MAX_DISTANCE + 1
    ensures Capped(flag, c.name, best) == Min(Far(flag, c), best + 1)
  {
  }

  class BestHints {
    var bestDistance: nat
    var hints: seq<string>

    constructor (max: nat)
      ensures bestDistance == max + 1 && hints == []
    {
      bestDistance, hints := max + 1, [];
    }

    method AddHint(hint: string, distance: nat) returns (open: bool)
      modifies this
      ensures open == (|old(hints)| < MAX_HINTS)
      ensures bestDistance == if open then Min(old(bestDistance), distance) else old(bestDistance)
      ensures hints == if !open || distance > old(bestDistance) then old(hints)
                       else if distance < old(bestDistance) then [hint]
                       else old(hints) + [hint]
    {
      if |hints| >= MAX_HINTS {
        return false;
      }
      if distance == bestDistance {
        hints := hints + [hint];
      }
      if distance < bestDistance {
        bestDistance := distance;
        hints := [hint];
      }
      return true;
    }

    /** The fields hold the best of the candidates visited so far. */
    ghost predicate Holds(flag: string, cs: seq<Candidate>)
      reads this
    {
      var seen := Visited(flag, cs, Reach(flag));
      bestDistance == Nearest(flag, seen, Reach(flag)) && hints == Shown(Closest(flag, seen, Reach(flag)))
    }

    method Consider(flag: string, c: Candidate, ghost cs: seq<Candidate>)
      requires Holds(flag, cs)
      modifies this
      ensures Holds(flag, cs + [c])
    {
      hide Closest, Nearest, Far, Visited, Capped;
      ghost var seen := Visited(flag, cs, Reach(flag));
      VisitedNext(flag, cs, c, Reach(flag));
      ClosestNext(flag, seen, c, Reach(flag));
      NearestIsLeast(flag, seen, Reach(flag));
      CapSuffices(flag, c, bestDistance);
      var distance := CappedDistance(flag, c.name, bestDistance);
      var _ := AddHint(c.shown, distance);
    }
  }

  /** Once the list is full nothing more is visited. */
  lemma {:induction false} FullStays(flag: string, cs: seq<Candidate>, more: seq<Candidate>, reach: nat)
    requires |Closest(flag, Visited(flag, cs, reach), reach)| >= MAX_HINTS
    ensures Visited(flag, cs + more, reach) == Visited(flag, cs, reach)
  {
    hide Closest;
    if more == [] {
      assert cs + more == cs;
    } else {
      var front := more[..|more| - 1];
      FullStays(flag, cs, front, reach);
      VisitedNext(flag, cs + front, more[|more| - 1], reach);
      assert cs + more == cs + front + [more[|more| - 1]];
    }
  }

  /** The visit to one flag. */
  method ConsiderFlag(best: BestHints, flag: string, f: FlagInfo, ghost cs: seq<Candidate>)
    requires best.Holds(flag, cs)
    modifies best
    ensures best.Holds(flag, cs + FlagCandidates(f))
  {
    hide Closest, Nearest, Visited;
    if |best.hints| >= MAX_HINTS {
      FullStays(flag, cs, FlagCandidates(f), Reach(flag));
      return;
    }
    best.Consider(flag, Candidate(f.name, f.name), cs);
    if f.isBool {
      var negated := "no" + f.name;
      best.Consider(flag, Candidate(negated, negated), cs + [Candidate(f.name, f.name)]);
      assert cs + FlagCandidates(f) == cs + [Candidate(f.name, f.name)] + [Candidate(negated, negated)];
    } else {
      assert FlagCandidates(f) == [Candidate(f.name, f.name)];
    }
  }

  method GetMisspellingHints(flag: string, flags: seq<FlagInfo>, undefok: seq<string>) returns (hints: seq<string>)
    ensures var seen := Visited(flag, AllFlags(flags) + AllUndefok(undefok), Reach(flag));
            hints == Shown(Closest(flag, seen, Reach(flag)))
    ensures |hints| <= MAX_HINTS
  {
    hide Closest, Far;
    var best := new BestHints(Min(|flag| / 2 + 1, MAX_DISTANCE));
    NothingClose(flag, Reach(flag));
    for i := 0 to |flags|
      invariant best.Holds(flag, AllFlags(flags[..i]))
    {
      ConsiderFlag(best, flag, flags[i], AllFlags(flags[..i]));
      assert flags[..i + 1][..i] == flags[..i];
    }
    assert flags[..|flags|] == flags;
    assert AllFlags(flags) + AllUndefok(undefok[..0]) == AllFlags(flags);
    for i := 0 to |undefok|
      invariant best.Holds(flag, AllFlags(flags) + AllUndefok(undefok[..i]))
    {
      ghost var cs := AllFlags(flags) + AllUndefok(undefok[..i]);
      assert undefok[..i + 1][..i] == undefok[..i];
      assert AllFlags(flags) + AllUndefok(undefok[..i + 1]) == cs + [Undefok(undefok[i])];
      if |best.hints| >= MAX_HINTS {
        FullStays(flag, cs, [Undefok(undefok[i])], Reach(flag));
      } else {
        best.Consider(flag, Undefok(undefok[i]), cs);
      }
    }
    assert undefok[..|undefok|] == undefok;
    VisitedIsPrefix(flag, AllFlags(flags) + AllUndefok(undefok), Reach(flag));
    hints := best.hints;
  }

  lemma {:induction false} AtDistanceSplit(flag: string, a: seq<Candidate>, b: seq<Candidate>, d: nat)
    ensures AtDistance(flag, a + b, d) == AtDistance(flag, a, d) + AtDistance(flag, b, d)
  {
    hide Far;
    if b == [] {
      assert a + b == a;
    } else {
      AtDistanceSplit(flag, a, b[..|b| - 1], d);
      assert (a + b)[..|a + b| - 1] == a + b[..|b| - 1];
    }
  }

  lemma {:induction false} NearestSplit(flag: string, a: seq<Candidate>, b: seq<Candidate>, reach: nat)
    ensures Nearest(flag, a + b, reach) == Nearest(flag, b, Nearest(flag, a, reach))
  {
    hide Far;
    if b == [] {
      assert a + b == a;
    } else {
      NearestSplit(flag, a, b[..|b| - 1], reach);
      assert (a + b)[..|a + b| - 1] == a + b[..|b| - 1];
    }
  }

  /** Further candidates leave the closest ones alone exactly when all of them are farther. */
  lemma ClosestKept(flag: string, a: seq<Candidate>, b: seq<Candidate>, reach: nat)
    requires Closest(flag, a, reach) != []
    ensures Closest(flag, a + b, reach) == Closest(flag, a, reach) <==>
            forall k :: 0 <= k < |b| ==> Far(flag, b[k]) > Nearest(flag, a, reach)
  {
    hide Far;
    var n := Nearest(flag, a, reach);
    var m := Nearest(flag, b, n);
    NearestSplit(flag, a, b, reach);
    NearestIsLeast(flag, b, n);
    AtDistanceSplit(flag, a, b, m);
    AtDistanceIs(flag, a, n);
    AtDistanceIs(flag, b, m);
    AtDistanceIs(flag, a + b, m);
    var first := Closest(flag, a, reach)[0];
    assert Far(flag, first) == n;
    if m < n {
      assert first !in AtDistance(flag, a + b, m);
    } else if k :| 0 <= k < |b| && Far(flag, b[k]) <= n {
      assert b[k] in AtDistance(flag, b, m);
    } else {
      NoneAt(flag, b, m);
    }
  }

  /** The hints are the closest of all candidates exactly when no candidate left out is as close. */
  lemma ExactIff(flag: string, cs: seq<Candidate>, reach: nat)
    ensures Visited(flag, cs, reach) <= cs
    ensures Closest(flag, Visited(flag, cs, reach), reach) == Closest(flag, cs, reach) <==>
            forall c :: c in cs[|Visited(flag, cs, reach)|..] ==>
              Far(flag, c) > Nearest(flag, Visited(flag, cs, reach), reach)
  {
    hide Far, Closest, Nearest, Visited;
    VisitedIsPrefix(flag, cs, reach);
    var seen := Visited(flag, cs, reach);
    var rest := cs[|seen|..];
    assert cs == seen + rest;
    if seen != cs {
      ClosestKept(flag, seen, rest, reach);
      assert forall c :: c in rest ==> exists k :: 0 <= k < |rest| && rest[k] == c;
    }
  }

  /** When nothing is within reach there are no hints; every hint is within reach, which is one more than
      the cutoff. */
  lemma HintsWithinReach(flag: string, cs: seq<Candidate>)
    ensures forall c :: c in Closest(flag, Visited(flag, cs, Reach(flag)), Reach(flag)) ==>
              c in cs && Far(flag, c) == Nearest(flag, Visited(flag, cs, Reach(flag)), Reach(flag)) <= Reach(flag)
    ensures (forall c :: c in cs ==> Far(flag, c) > Reach(flag)) ==>
              Closest(flag, Visited(flag, cs, Reach(flag)), Reach(flag)) == []
  {
    hide Far, Visited;
    VisitedIsPrefix(flag, cs, Reach(flag));
    var seen := Visited(flag, cs, Reach(flag));
    NearestIsLeast(flag, seen, Reach(flag));
    AtDistanceIs(flag, seen, Nearest(flag, seen, Reach(flag)));
    if Closest(flag, seen, Reach(flag)) != [] {
      var c := Closest(flag, seen, Reach(flag))[0];
      assert c in seen;
    }
  }

  /** Hints are given exactly when some candidate is within reach. */
  lemma HintsGivenIff(flag: string, cs: seq<Candidate>)
    ensures Closest(flag, Visited(flag, cs, Reach(flag)), Reach(flag)) != [] <==>
            exists c :: c in cs && Far(flag, c) <= Reach(flag)
  {
    hide Far, Visited, Nearest;
    VisitedIsPrefix(flag, cs, Reach(flag));
    HintsWithinReach(flag, cs);
    var seen := Visited(flag, cs, Reach(flag));
    NearestIsLeast(flag, seen, Reach(flag));
    AtDistanceIs(flag, seen, Nearest(flag, seen, Reach(flag)));
    if Closest(flag, seen, Reach(flag)) == [] {
      assert seen == cs;
      forall c | c in cs
        ensures Far(flag, c) > Reach(flag)
      {
        assert c !in AtDistance(flag, seen, Nearest(flag, seen, Reach(flag)));
      }
    } else {
      assert Closest(flag, seen, Reach(flag))[0] in Closest(flag, seen, Reach(flag));
    }
  }

  /** The hints keep to the documented bound exactly when there are none, or the nearest candidate visited is
      below it. */
  lemma DocumentedBoundIff(flag: string, cs: seq<Candidate>)
    ensures var seen := Visited(flag, cs, Reach(flag));
            (forall c :: c in Closest(flag, seen, Reach(flag)) ==> Far(flag, c) < MAX_DISTANCE) <==>
            || (forall c :: c in cs ==> Far(flag, c) > Reach(flag))
            || (exists c :: c in seen && Far(flag, c) < MAX_DISTANCE)
  {
    hide Far, Visited, Nearest, Reach;
    var reach := Reach(flag);
    var seen := Visited(flag, cs, reach);
    var hints := Closest(flag, seen, reach);
    HintsGivenIff(flag, cs);
    HintsWithinReach(flag, cs);
    NearestIsLeast(flag, seen, reach);
    AtDistanceIs(flag, seen, Nearest(flag, seen, reach));
    if hints != [] {
      assert hints[0] in hints && hints[0] in seen;
    }
    if c :| c in seen && Far(flag, c) < MAX_DISTANCE {
      var k :| 0 <= k < |seen| && seen[k] == c;
    }
  }

  /** A hint farther than documented: four letters, all different. */
  lemma HintAtDistanceFour()
    ensures var c := Candidate("wxyz", "wxyz");
            && AllFlags([FlagInfo("wxyz", false)]) + AllUndefok([]) == [c]
            && Far("abcd", c) == 4 > MAX_DISTANCE
            && Closest("abcd", Visited("abcd", [c], Reach("abcd")), Reach("abcd")) == [c]
  {
    hide Far, Closest, Nearest, Visited, Reach;
    var c := Candidate("wxyz", "wxyz");
    assert [FlagInfo("wxyz", false)][..0] == [];
    FourApart();
    NothingClose("abcd", 4);
    NothingVisited("abcd", 4);
    VisitedNext("abcd", [], c, 4);
    ClosestNext("abcd", [], c, 4);
    assert [] + [c] == [c];
  }

  lemma FourApart()
    ensures Far("abcd", Candidate("wxyz", "wxyz")) == 4 && Reach("abcd") == 4
  {
    hide Distance;
    NothingInCommon("abcd", "wxyz", 4, 4);
  }

  lemma NothingVisited(flag: string, reach: nat)
    ensures Visited(flag, [], reach) == [] && Nearest(flag, [], reach) == reach
  {
  }

  // A full list hides a better candidate: 100 names at distance 1, then the name itself.

  function Crowd(n: nat): seq<Candidate>
  {
    seq(n, _ => Undefok("ab"))
  }

  lemma {:induction false} CrowdCloses(n: nat)
    requires n <= MAX_HINTS
    ensures Visited("a", Crowd(n), Reach("a")) == Crowd(n)
    ensures Closest("a", Crowd(n), Reach("a")) == Crowd(n) && (0 < n ==> Nearest("a", Crowd(n), Reach("a")) == 1)
  {
    hide Far;
    if n > 0 {
      CrowdCloses(n - 1);
      assert Crowd(n) == Crowd(n - 1) + [Undefok("ab")];
      Neighbours();
      ClosestNext("a", Crowd(n - 1), Undefok("ab"), Reach("a"));
      VisitedNext("a", Crowd(n - 1), Undefok("ab"), Reach("a"));
    }
  }

  lemma Neighbours()
    ensures Far("a", Undefok("ab")) == 1 && Far("a", Undefok("a")) == 0 && Reach("a") == 2
  {
    hide Distance;
    Border("a", "ab", 0, 0);
    Border("a", "ab", 0, 1);
    Border("a", "ab", 0, 2);
    Unfolded("a", "ab", 1, 2);
    Unfolded("a", "ab", 1, 1);
    Border("a", "a", 0, 0);
    Unfolded("a", "a", 1, 1);
  }

  lemma FullListMissesExactName()
    ensures Far("a", Undefok("a")) == 0
    ensures Closest("a", Visited("a", Crowd(100) + [Undefok("a")], Reach("a")), Reach("a")) == Crowd(100)
  {
    hide Far;
    Neighbours();
    CrowdCloses(MAX_HINTS);
    VisitedNext("a", Crowd(MAX_HINTS), Undefok("a"), Reach("a"));
  }
}

/** The capped edit distance of absl/strings/internal/damerau_levenshtein_distance.cc.

    `Distance` is the plain recursion.  It is shown to be the least cost of any edit script, and the banded
    table is shown to compute it up to the cap. */
module EditDistance {
  import opened FlagText

  const MAX_SIZE: nat := 100

  function Min(x: nat, y: nat): nat
  {
    if x < y then x else y
  }

  function Gap(x: nat, y: nat): nat
  {
    if x < y then y - x else x - y
  }

  /** The last two characters of a[..i] are those of b[..j] the other way round. */
  predicate Crossed(a: string, b: string, i: nat, j: nat)
    requires i <= |a| && j <= |b|
  {
    i > 1 && j > 1 && a[i - 1] == b[j - 2] && a[i - 2] == b[j - 1]
  }

  function Mismatch(a: string, b: string, i: nat, j: nat): nat
    requires 0 < i <= |a| && 0 < j <= |b|
  {
    if a[i - 1] == b[j - 1] then 0 else 1
  }

  /** The distance between a[..i] and b[..j] when no character is edited twice. */
  function Distance(a: string, b: string, i: nat, j: nat): (d: nat)
    requires i <= |a| && j <= |b|
    decreases i + j
  {
    if i == 0 then j
    else if j == 0 then i
    else
      var plain := Min(Min(Distance(a, b, i - 1, j) + 1, Distance(a, b, i, j - 1) + 1),
                       Distance(a, b, i - 1, j - 1) + Mismatch(a, b, i, j));
      if Crossed(a, b, i, j) then Min(plain, Distance(a, b, i - 2, j - 2) + 1) else plain
  }

  /** One unfolding, as bounds and as the cases that reach them. */
  lemma Unfolded(a: string, b: string, i: nat, j: nat)
    requires 0 < i <= |a| && 0 < j <= |b|
    ensures Distance(a, b, i, j) <= Distance(a, b, i - 1, j) + 1
    ensures Distance(a, b, i, j) <= Distance(a, b, i, j - 1) + 1
    ensures Distance(a, b, i, j) <= Distance(a, b, i - 1, j - 1) + Mismatch(a, b, i, j)
    ensures Crossed(a, b, i, j) ==> Distance(a, b, i, j) <= Distance(a, b, i - 2, j - 2) + 1
    ensures || Distance(a, b, i, j) == Distance(a, b, i - 1, j) + 1
            || Distance(a, b, i, j) == Distance(a, b, i, j - 1) + 1
            || Distance(a, b, i, j) == Distance(a, b, i - 1, j - 1) + Mismatch(a, b, i, j)
            || (Crossed(a, b, i, j) && Distance(a, b, i, j) == Distance(a, b, i - 2, j - 2) + 1)
  {
  }

  lemma Border(a: string, b: string, i: nat, j: nat)
    requires i <= |a| && j <= |b|
    ensures i == 0 ==> Distance(a, b, i, j) == j
    ensures j == 0 ==> Distance(a, b, i, j) == i
  {
  }

  // Edit scripts.

  datatype Edit = Keep | Replace(c: char) | Delete | Insert(c: char) | Transpose

  function Cost(script: seq<Edit>): nat
  {
    if script == [] then 0
    else Cost(script[..|script| - 1]) + if script[|script| - 1].Keep? then 0 else 1
  }

  function Extend(text: Option<string>, tail: string): Option<string>
  {
    if text.Some? then Some(text.value + tail) else None
  }

  /** How many characters an edit takes. */
  function Takes(e: Edit): nat
  {
    match e
    case Insert(_) => 0
    case Transpose => 2
    case _ => 1
  }

  /** What an edit puts in place of the last characters of a[..i]. */
  function Gives(e: Edit, a: string, i: nat): string
    requires Takes(e) <= i <= |a|
  {
    match e
    case Keep => [a[i - 1]]
    case Replace(c) => [c]
    case Delete => ""
    case Insert(c) => [c]
    case Transpose => [a[i - 1], a[i - 2]]
  }

  /** What the script makes of a[..i]; its edits handle consecutive pieces, each exactly once. */
  function Edited(script: seq<Edit>, a: string, i: nat): Option<string>
    requires i <= |a|
  {
    if script == [] then
      if i == 0 then Some("") else None
    else
      var e := script[|script| - 1];
      if i < Takes(e) then None
      else Extend(Edited(script[..|script| - 1], a, i - Takes(e)), Gives(e, a, i))
  }

  lemma LastPiece(e: Edit, a: string, b: string, i: nat, j: nat)
    requires Takes(e) <= i <= |a| && j <= |b|
    requires |Gives(e, a, i)| <= j && Gives(e, a, i) == b[j - |Gives(e, a, i)|..j]
    ensures Distance(a, b, i, j) <= Distance(a, b, i - Takes(e), j - |Gives(e, a, i)|) + if e.Keep? then 0 else 1
  {
    hide Distance;
    Border(a, b, i, j);
    if e.Delete? {
      Border(a, b, i - 1, j);
    } else if e.Insert? {
      Border(a, b, i, j - 1);
    }
    if i > 0 && j > 0 {
      Unfolded(a, b, i, j);
    }
  }

  /** No script that turns a[..i] into b[..j] costs less than the distance. */
  lemma {:induction false} NoCheaperScript(script: seq<Edit>, a: string, b: string, i: nat, j: nat)
    requires i <= |a| && j <= |b| && Edited(script, a, i) == Some(b[..j])
    ensures Distance(a, b, i, j) <= Cost(script)
    decreases |script|
  {
    hide Distance;
    if script == [] {
      Border(a, b, i, j);
    } else {
      var rest, e := script[..|script| - 1], script[|script| - 1];
      Unextend(Edited(rest, a, i - Takes(e)), Gives(e, a, i), b, j);
      LastPiece(e, a, b, i, j);
      NoCheaperScript(rest, a, b, i - Takes(e), j - |Gives(e, a, i)|);
    }
  }

  lemma Unextend(text: Option<string>, tail: string, b: string, j: nat)
    requires j <= |b| && Extend(text, tail) == Some(b[..j])
    ensures |tail| <= j && text == Some(b[..j - |tail|]) && tail == b[j - |tail|..j]
  {
    assert b[..j] == text.value + tail;
    assert b[..j][..|text.value|] == b[..|text.value|] && b[..j][|text.value|..] == b[|text.value|..j];
  }

  lemma Appended(rest: seq<Edit>, e: Edit, a: string, b: string, i: nat, j: nat)
    requires Takes(e) <= i <= |a| && j <= |b|
    requires |Gives(e, a, i)| <= j && Gives(e, a, i) == b[j - |Gives(e, a, i)|..j]
    requires Edited(rest, a, i - Takes(e)) == Some(b[..j - |Gives(e, a, i)|])
    ensures Edited(rest + [e], a, i) == Some(b[..j])
    ensures Cost(rest + [e]) == Cost(rest) + if e.Keep? then 0 else 1
  {
    assert (rest + [e])[..|rest|] == rest;
    assert b[..j] == b[..j - |Gives(e, a, i)|] + Gives(e, a, i);
  }

  /** The last edit of a cheapest script. */
  lemma LastEdit(a: string, b: string, i: nat, j: nat) returns (e: Edit)
    requires i <= |a| && j <= |b| && 0 < i + j
    ensures Takes(e) <= i && |Gives(e, a, i)| <= j && 0 < Takes(e) + |Gives(e, a, i)|
    ensures Gives(e, a, i) == b[j - |Gives(e, a, i)|..j]
    ensures Distance(a, b, i, j) == Distance(a, b, i - Takes(e), j - |Gives(e, a, i)|) + if e.Keep? then 0 else 1
  {
    hide Distance, Gives, Takes;
    Border(a, b, i, j);
    if i == 0 {
      Border(a, b, i, j - 1);
      e := Insert(b[j - 1]);
      OnePiece(e, a, b, i, j);
    } else if j == 0 {
      Border(a, b, i - 1, j);
      e := Delete;
      OnePiece(e, a, b, i, j);
    } else {
      e := LastEditInside(a, b, i, j);
    }
  }

  lemma LastEditInside(a: string, b: string, i: nat, j: nat) returns (e: Edit)
    requires 0 < i <= |a| && 0 < j <= |b|
    ensures Takes(e) <= i && |Gives(e, a, i)| <= j && 0 < Takes(e) + |Gives(e, a, i)|
    ensures Gives(e, a, i) == b[j - |Gives(e, a, i)|..j]
    ensures Distance(a, b, i, j) == Distance(a, b, i - Takes(e), j - |Gives(e, a, i)|) + if e.Keep? then 0 else 1
  {
    hide Distance, Gives, Takes;
    Unfolded(a, b, i, j);
    if Distance(a, b, i, j) == Distance(a, b, i - 1, j) + 1 {
      e := Delete;
      OnePiece(e, a, b, i, j);
    } else if Distance(a, b, i, j) == Distance(a, b, i, j - 1) + 1 {
      e := Insert(b[j - 1]);
      OnePiece(e, a, b, i, j);
    } else if Distance(a, b, i, j) == Distance(a, b, i - 1, j - 1) + Mismatch(a, b, i, j) {
      e := if a[i - 1] == b[j - 1] then Keep else Replace(b[j - 1]);
      OnePiece(e, a, b, i, j);
    } else {
      e := Transpose;
      CrossedPiece(a, b, i, j);
    }
  }

  /** The edits that put at most one character in place produce the end of b[..j]. */
  lemma OnePiece(e: Edit, a: string, b: string, i: nat, j: nat)
    requires i <= |a| && j <= |b| && !e.Transpose? && (e.Insert? || 0 < i) && (e.Delete? || 0 < j)
    requires e.Keep? ==> a[i - 1] == b[j - 1]
    requires e.Replace? || e.Insert? ==> e.c == b[j - 1]
    ensures Takes(e) == (if e.Insert? then 0 else 1) && |Gives(e, a, i)| == (if e.Delete? then 0 else 1)
    ensures Gives(e, a, i) == b[j - |Gives(e, a, i)|..j]
  {
  }

  lemma CrossedPiece(a: string, b: string, i: nat, j: nat)
    requires i <= |a| && j <= |b| && Crossed(a, b, i, j)
    ensures Takes(Transpose) == 2 && |Gives(Transpose, a, i)| == 2
    ensures Gives(Transpose, a, i) == b[j - |Gives(Transpose, a, i)|..j]
  {
  }

  /** Some script turns a[..i] into b[..j] at exactly that cost. */
  lemma {:induction false} CheapestScript(a: string, b: string, i: nat, j: nat) returns (script: seq<Edit>)
    requires i <= |a| && j <= |b|
    ensures Edited(script, a, i) == Some(b[..j]) && Cost(script) == Distance(a, b, i, j)
    decreases i + j
  {
    if i == 0 && j == 0 {
      assert b[..j] == "";
      script := [];
    } else {
      hide Distance;
      var e := LastEdit(a, b, i, j);
      var rest := CheapestScript(a, b, i - Takes(e), j - |Gives(e, a, i)|);
      Appended(rest, e, a, b, i, j);
      script := rest + [e];
    }
  }

  lemma {:induction false} Symmetric(a: string, b: string, i: nat, j: nat)
    requires i <= |a| && j <= |b|
    ensures Distance(a, b, i, j) == Distance(b, a, j, i)
    decreases i + j
  {
    hide Distance;
    Border(a, b, i, j);
    Border(b, a, j, i);
    if i > 0 && j > 0 {
      Unfolded(a, b, i, j);
      Unfolded(b, a, j, i);
      Symmetric(a, b, i - 1, j);
      Symmetric(a, b, i, j - 1);
      Symmetric(a, b, i - 1, j - 1);
      if Crossed(a, b, i, j) {
        Symmetric(a, b, i - 2, j - 2);
      }
    }
  }

  lemma {:induction false} AtLeastGap(a: string, b: string, i: nat, j: nat)
    requires i <= |a| && j <= |b|
    ensures Gap(i, j) <= Distance(a, b, i, j) <= i + j
    ensures Distance(a, b, i, j) <= i || Distance(a, b, i, j) <= j
    decreases i + j
  {
    hide Distance;
    Border(a, b, i, j);
    if i > 0 && j > 0 {
      Unfolded(a, b, i, j);
      AtLeastGap(a, b, i - 1, j);
      AtLeastGap(a, b, i, j - 1);
      AtLeastGap(a, b, i - 1, j - 1);
      if Crossed(a, b, i, j) {
        AtLeastGap(a, b, i - 2, j - 2);
      }
    }
  }

  /** Texts without a common character are as far apart as the longer one is long. */
  lemma {:induction false} NothingInCommon(a: string, b: string, i: nat, j: nat)
    requires i <= |a| && j <= |b|
    requires forall x, y :: 0 <= x < |a| && 0 <= y < |b| ==> a[x] != b[y]
    ensures Distance(a, b, i, j) == if i < j then j else i
    decreases i + j
  {
    hide Distance;
    Border(a, b, i, j);
    if i > 0 && j > 0 {
      Unfolded(a, b, i, j);
      NothingInCommon(a, b, i - 1, j);
      NothingInCommon(a, b, i, j - 1);
      NothingInCommon(a, b, i - 1, j - 1);
    }
  }

  // The banded table.

  /** How far the rest of the two strings are apart in length. */
  function Off(a: string, b: string, i: nat, j: nat): nat
    requires i <= |a| && j <= |b|
  {
    Gap(|b| - j, |a| - i)
  }

  /** What a filled cell of the table says.  It is exact where a path within the cap can pass. */
  predicate CellOk(a: string, b: string, cap: nat, i: nat, j: nat, v: nat)
    requires i <= |a| && j <= |b|
  {
    && Min(Distance(a, b, i, j), cap + 1) <= v <= cap + 1
    && (Distance(a, b, i, j) + Off(a, b, i, j) <= cap ==> v == Distance(a, b, i, j))
  }

  /** The first filled column of a row. */
  function Low(lower: nat, i: nat): nat
  {
    if i > lower then i - lower - 1 else 0
  }

  /** A boundary cell holds the cap plus one. */
  lemma BelowBand(a: string, b: string, cap: nat, i: nat, j: nat)
    requires |a| <= |b| <= |a| + cap && i <= |a| && j <= |b| && i == j + (cap - (|b| - |a|)) + 1
    ensures CellOk(a, b, cap, i, j, cap + 1)
  {
  }

  lemma AboveBand(a: string, b: string, cap: nat, i: nat, j: nat)
    requires i <= |a| && j <= |b| && j == i + cap + 1
    ensures CellOk(a, b, cap, i, j, cap + 1)
  {
    AtLeastGap(a, b, i, j);
  }

  function Best(a: string, b: string, cap: nat, i: nat, j: nat, up: nat, left: nat, diagonal: nat, crossed: nat): nat
    requires 0 < i <= |a| && 0 < j <= |b|
  {
    var plain := Min(Min(cap + 1, up + 1), Min(left + 1, diagonal + Mismatch(a, b, i, j)));
    Min(plain, if Crossed(a, b, i, j) then crossed + 1 else cap + 1)
  }

  /** The step: a cell is right when the cells it is computed from are. */
  lemma InnerCell(a: string, b: string, cap: nat, i: nat, j: nat, up: nat, left: nat, diagonal: nat, crossed: nat)
    requires 0 < i <= |a| && 0 < j <= |b|
    requires CellOk(a, b, cap, i - 1, j, up)
    requires CellOk(a, b, cap, i, j - 1, left)
    requires CellOk(a, b, cap, i - 1, j - 1, diagonal)
    requires Crossed(a, b, i, j) ==> CellOk(a, b, cap, i - 2, j - 2, crossed)
    ensures CellOk(a, b, cap, i, j, Best(a, b, cap, i, j, up, left, diagonal, crossed))
  {
    hide Distance;
    Unfolded(a, b, i, j);
  }

  /** The table has room for both strings, and the cap covers their difference in length. */
  ghost predicate Fits(a: string, b: string, cap: nat, d: array2<nat>)
  {
    d.Length0 == d.Length1 == MAX_SIZE + 2 && cap <= MAX_SIZE && |a| <= |b| <= MAX_SIZE && |b| <= |a| + cap
  }

  function Lower(a: string, b: string, cap: nat): nat
    requires |a| <= |b| <= |a| + cap
  {
    cap - (|b| - |a|)
  }

  /** Every cell of the band above row `row`, and in it before column `col`, is filled and right. */
  ghost predicate Filled(a: string, b: string, cap: nat, d: array2<nat>, row: nat, col: nat)
    requires Fits(a, b, cap, d)
    reads d
  {
    forall i, j | 0 <= i <= |a| && Low(Lower(a, b, cap), i) <= j <= i + cap + 1 && j <= |b| ::
      i < row || (i == row && j < col) ==> CellOk(a, b, cap, i, j, d[i, j])
  }

  method FillFirstRow(a: string, b: string, cap: nat, d: array2<nat>)
    requires Fits(a, b, cap, d)
    modifies d
    ensures Filled(a, b, cap, d, 1, 0)
  {
    for j := 0 to cap + 1
      invariant forall k :: 0 <= k < j ==> d[0, k] == k
    {
      d[0, j] := j;
    }
    d[0, cap + 1] := cap + 1;
    forall j | 0 <= j <= cap + 1 && j <= |b|
      ensures CellOk(a, b, cap, 0, j, d[0, j])
    {
      Border(a, b, 0, j);
    }
  }

  /** The cells at both ends of a row of the band; returns the columns in between. */
  method StartRow(a: string, b: string, cap: nat, d: array2<nat>, i: nat) returns (begin: nat, end: nat)
    requires Fits(a, b, cap, d) && 0 < i <= |a| && Filled(a, b, cap, d, i, 0)
    modifies d
    ensures begin == Low(Lower(a, b, cap), i) + 1 && end == Min(i + cap, |b|)
    ensures Filled(a, b, cap, d, i, begin)
    ensures i + cap + 1 <= |b| ==> CellOk(a, b, cap, i, i + cap + 1, d[i, i + cap + 1])
  {
    hide Distance;
    var lower := Lower(a, b, cap);
    begin := 1;
    if i > lower {
      begin := i - lower;
      d[i, begin - 1] := cap + 1;
      BelowBand(a, b, cap, i, begin - 1);
    } else {
      d[i, 0] := i;
      Border(a, b, i, 0);
    }
    end := i + cap;
    if end > |b| {
      end := |b|;
    } else {
      d[i, end + 1] := cap + 1;
      if end + 1 <= |b| {
        AboveBand(a, b, cap, i, end + 1);
      }
    }
  }

  method FillRow(a: string, b: string, cap: nat, d: array2<nat>, i: nat)
    requires Fits(a, b, cap, d) && 0 < i <= |a| && Filled(a, b, cap, d, i, 0)
    modifies d
    ensures Filled(a, b, cap, d, i + 1, 0)
  {
    hide Distance, CellOk;
    var begin, end := StartRow(a, b, cap, d, i);
    for j := begin to end + 1
      invariant Filled(a, b, cap, d, i, j)
      invariant i + cap + 1 <= |b| ==> CellOk(a, b, cap, i, i + cap + 1, d[i, i + cap + 1])
    {
      var crossed := if Crossed(a, b, i, j) then d[i - 2, j - 2] else 0;
      var up, left, diagonal := d[i - 1, j], d[i, j - 1], d[i - 1, j - 1];
      InnerCell(a, b, cap, i, j, up, left, diagonal, crossed);
      d[i, j] := Best(a, b, cap, i, j, up, left, diagonal, crossed);
    }
  }

  /** CappedDamerauLevenshteinDistance. */
  method CappedDistance(s1: string, s2: string, cutoff: nat) returns (r: nat)
    ensures r == Capped(s1, s2, cutoff)
    ensures |s1| <= 100 && |s2| <= 100 && cutoff <= 100 ==>
              r == if Distance(s1, s2, |s1|, |s2|) <= cutoff then Distance(s1, s2, |s1|, |s2|) else cutoff + 1
    ensures |s1| > 100 || |s2| > 100 ==> r == (if cutoff <= 100 then cutoff else 100) + 1
  {
    var cap := Min(MAX_SIZE, cutoff);
    var a, b := s1, s2;
    if |a| > |b| {
      a, b := b, a;
    }
    Symmetric(s1, s2, |s1|, |s2|);
    AtLeastGap(s1, s2, |s1|, |s2|);
    if |a| + cap < |b| || |b| > MAX_SIZE {
      return cap + 1;
    }
    if |a| == 0 {
      return |b|;
    }
    var d := new nat[MAX_SIZE + 2, MAX_SIZE + 2];
    FillFirstRow(a, b, cap, d);
    for i := 1 to |a| + 1
      invariant Filled(a, b, cap, d, i, 0)
    {
      FillRow(a, b, cap, d, i);
    }
    r := d[|a|, |b|];
    assert CellOk(a, b, cap, |a|, |b|, r);
  }

  /** The distance as far as the cap lets it be seen; strings that are too long count as beyond it. */
  function Capped(s1: string, s2: string, cutoff: nat): nat
  {
    var cap := Min(MAX_SIZE, cutoff);
    if |s1| > MAX_SIZE || |s2| > MAX_SIZE then cap + 1
    else Min(Distance(s1, s2, |s1|, |s2|), cap + 1)
  }
}

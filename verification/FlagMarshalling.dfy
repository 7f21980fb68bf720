/** Parsing and printing flag values: absl/flags/marshalling.cc and marshalling.h. */
module FlagMarshalling {
  import opened FlagText
  import opened DecimalText
  import opened FastInteger
  import opened IntegerParse

  /** absl::StrCat of one integer, through the buffer it keeps for that. */
  method UnparseInteger(i: int, range: Range) returns (s: string)
    requires In(i, range) && range in {INT32, INT64, UINT32, UINT64}
    ensures s == SignedDecimal(i) && Accepted(s, range) == Some(i)
  {
    var buffer := new char[32];
    var end;
    if range == INT32 {
      end := FastInt32ToBuffer(i, buffer, 0);
    } else if range == INT64 {
      end := FastInt64ToBuffer(i, buffer, 0);
    } else if range == UINT32 {
      end := FastUint32ToBuffer(i, buffer, 0);
    } else {
      end := FastUint64ToBuffer(i, buffer, 0);
    }
    s := buffer[..end];
    assert buffer[0..end] == s;
    IntegerRoundTrip(i, range);
  }

  // Comparison without regard to case.

  function Lower(c: char): char
  {
    if 'A' <= c <= 'Z' then ((c as int) + 32) as char else c
  }

  predicate EqualsIgnoreCase(a: string, b: string)
  {
    |a| == |b| && forall i :: 0 <= i < |a| ==> Lower(a[i]) == Lower(b[i])
  }

  // bool.

  const TRUE_TEXTS: seq<string> := ["1", "t", "true", "y", "yes"]
  const FALSE_TEXTS: seq<string> := ["0", "f", "false", "n", "no"]

  predicate OneOf(text: string, texts: seq<string>)
  {
    exists i :: 0 <= i < |texts| && EqualsIgnoreCase(text, texts[i])
  }

  function UnparseBool(v: bool): string
  {
    if v then "true" else "false"
  }

  method ParseBool(text: string) returns (r: Option<bool>)
    ensures r == Some(true) <==> OneOf(Strip(text), ["1", "t", "true", "y", "yes"])
    ensures r == Some(false) <==> OneOf(Strip(text), ["0", "f", "false", "n", "no"])
  {
    var t := Strip(text);
    for i := 0 to |TRUE_TEXTS|
      invariant forall k :: 0 <= k < i ==> !EqualsIgnoreCase(t, TRUE_TEXTS[k]) && !EqualsIgnoreCase(t, FALSE_TEXTS[k])
    {
      if EqualsIgnoreCase(t, TRUE_TEXTS[i]) {
        NeverBoth(t);
        return Some(true);
      } else if EqualsIgnoreCase(t, FALSE_TEXTS[i]) {
        NeverBoth(t);
        return Some(false);
      }
    }
    r := None;
  }

  lemma NeverBoth(t: string)
    ensures OneOf(t, TRUE_TEXTS) ==> t != "" && Lower(t[0]) in {'1', 't', 'y'}
    ensures OneOf(t, FALSE_TEXTS) ==> t != "" && Lower(t[0]) in {'0', 'f', 'n'}
  {
    if OneOf(t, TRUE_TEXTS) {
      var i :| 0 <= i < |TRUE_TEXTS| && EqualsIgnoreCase(t, TRUE_TEXTS[i]);
      assert Lower(t[0]) == Lower(TRUE_TEXTS[i][0]);
    }
    if OneOf(t, FALSE_TEXTS) {
      var i :| 0 <= i < |FALSE_TEXTS| && EqualsIgnoreCase(t, FALSE_TEXTS[i]);
      assert Lower(t[0]) == Lower(FALSE_TEXTS[i][0]);
    }
  }

  lemma BoolRoundTrip(v: bool)
    ensures OneOf(Strip(UnparseBool(v)), if v then TRUE_TEXTS else FALSE_TEXTS)
  {
    NoSpaces(UnparseBool(v));
    assert EqualsIgnoreCase(UnparseBool(v), (if v then TRUE_TEXTS else FALSE_TEXTS)[2]);
  }

  // absl::LogSeverity, any 32-bit number; 0 to 3 have names.

  function SeverityName(v: int): string
    requires 0 <= v <= 3
  {
    if v == 0 then "INFO" else if v == 1 then "WARNING" else if v == 2 then "ERROR" else "FATAL"
  }

  function Normalize(v: int): int
  {
    if v < 0 then 0 else if v > 3 then 2 else v
  }

  function UnparseSeverity(v: int): string
  {
    if v == Normalize(v) then SeverityName(v) else SignedDecimal(v)
  }

  function ParseSeverity(text: string): Option<int>
  {
    var t := Strip(text);
    if t == "" then None
    else
      var u := if t[0] == 'k' || t[0] == 'K' then t[1..] else t;
      if EqualsIgnoreCase(u, "info") then Some(0)
      else if EqualsIgnoreCase(u, "warning") then Some(1)
      else if EqualsIgnoreCase(u, "error") then Some(2)
      else if EqualsIgnoreCase(u, "fatal") then Some(3)
      else Accepted(u, INT32)
  }

  lemma NamesParse(v: int)
    requires 0 <= v <= 3
    ensures ParseSeverity(SeverityName(v)) == Some(v)
  {
    hide Strip, Accepted;
    NoSpaces(SeverityName(v));
  }

  /** Every severity, named or not, survives being written and read. */
  lemma SeverityRoundTrip(v: int)
    requires In(v, INT32)
    ensures ParseSeverity(UnparseSeverity(v)) == Some(v)
  {
    hide Decimal, Strip, Accepted, EqualsIgnoreCase;
    if 0 <= v <= 3 {
      NamesParse(v);
    } else {
      NotAName(v);
      IntegerRoundTrip(v, INT32);
    }
  }

  /** The four levels are written by name in capitals and all other numbers in base ten. */
  lemma SeverityTexts(v: int)
    ensures UnparseSeverity(v)
         == if v == 0 then "INFO" else if v == 1 then "WARNING" else if v == 2 then "ERROR"
            else if v == 3 then "FATAL" else SignedDecimal(v)
  {
    hide Decimal;
  }

  lemma NotAName(v: int)
    ensures var s := SignedDecimal(v);
            && Strip(s) == s && s != "" && s[0] != 'k' && s[0] != 'K'
            && !EqualsIgnoreCase(s, "info") && !EqualsIgnoreCase(s, "warning")
            && !EqualsIgnoreCase(s, "error") && !EqualsIgnoreCase(s, "fatal")
  {
    hide Decimal, Strip;
    var n := if v < 0 then -v else v;
    DecimalDigits(n);
    NoSpaces(SignedDecimal(v));
  }

  /** A name of the severity: the enumerator, with or without its letter, in any case. */
  predicate Names(t: string, v: int)
    requires 0 <= v <= 3
  {
    EqualsIgnoreCase(t, SeverityName(v)) || EqualsIgnoreCase(t, "k" + SeverityName(v))
  }

  /** The documented reading: a name, or else an integer as if the type were int. */
  function DocumentedSeverity(text: string): Option<int>
  {
    var t := Strip(text);
    if Names(t, 0) then Some(0) else if Names(t, 1) then Some(1) else if Names(t, 2) then Some(2)
    else if Names(t, 3) then Some(3) else Accepted(text, INT32)
  }

  predicate BareName(u: string)
  {
    exists v :: 0 <= v <= 3 && EqualsIgnoreCase(u, SeverityName(v))
  }

  predicate StartsWithK(t: string)
  {
    t != "" && (t[0] == 'k' || t[0] == 'K')
  }

  /** The code takes more than the documentation says exactly when a 'k' of either case stands before an integer;
      nothing else is read differently. */
  lemma SeverityDiffersIff(text: string)
    ensures var t := Strip(text);
            ParseSeverity(text) != DocumentedSeverity(text) <==>
            StartsWithK(t) && !BareName(t[1..]) && Accepted(t[1..], INT32).Some?
    ensures ParseSeverity(text) != DocumentedSeverity(text) ==> DocumentedSeverity(text) == None
  {
    hide Strip, Accepted, EqualsIgnoreCase;
    var t := Strip(text);
    CaseOfNames();
    NamesShape(t);
    if t == "" {
      NoLetterNoNumber(text);
      NoEmptyName();
    } else if StartsWithK(t) {
      NoLetterNoNumber(text);
      BareNames(t[1..]);
    } else {
      SameNumber(text);
    }
  }

  lemma CaseOfNames()
    ensures forall u :: EqualsIgnoreCase(u, "info") == EqualsIgnoreCase(u, SeverityName(0))
    ensures forall u :: EqualsIgnoreCase(u, "warning") == EqualsIgnoreCase(u, SeverityName(1))
    ensures forall u :: EqualsIgnoreCase(u, "error") == EqualsIgnoreCase(u, SeverityName(2))
    ensures forall u :: EqualsIgnoreCase(u, "fatal") == EqualsIgnoreCase(u, SeverityName(3))
  {
    forall u: string
      ensures EqualsIgnoreCase(u, "info") == EqualsIgnoreCase(u, SeverityName(0))
      ensures EqualsIgnoreCase(u, "warning") == EqualsIgnoreCase(u, SeverityName(1))
      ensures EqualsIgnoreCase(u, "error") == EqualsIgnoreCase(u, SeverityName(2))
      ensures EqualsIgnoreCase(u, "fatal") == EqualsIgnoreCase(u, SeverityName(3))
    {
      SameCase(u, "info", SeverityName(0));
      SameCase(u, "warning", SeverityName(1));
      SameCase(u, "error", SeverityName(2));
      SameCase(u, "fatal", SeverityName(3));
    }
  }

  lemma SameCase(u: string, a: string, b: string)
    requires EqualsIgnoreCase(a, b)
    ensures EqualsIgnoreCase(u, a) == EqualsIgnoreCase(u, b)
  {
    if |u| == |a| {
      assert forall i :: 0 <= i < |a| ==> Lower(a[i]) == Lower(b[i]);
    }
  }

  /** A name starts with the letter exactly when it is the longer form. */
  lemma NamesShape(t: string)
    ensures forall v :: 0 <= v <= 3 ==>
              Names(t, v) == EqualsIgnoreCase(if StartsWithK(t) then t[1..] else t, SeverityName(v))
  {
    forall v | 0 <= v <= 3
      ensures Names(t, v) == EqualsIgnoreCase(if StartsWithK(t) then t[1..] else t, SeverityName(v))
    {
      NameShape(t, SeverityName(v));
    }
  }

  lemma NameShape(t: string, name: string)
    requires name in {"INFO", "WARNING", "ERROR", "FATAL"}
    ensures (EqualsIgnoreCase(t, name) || EqualsIgnoreCase(t, "k" + name))
         == EqualsIgnoreCase(if StartsWithK(t) then t[1..] else t, name)
  {
    var long := "k" + name;
    if t != "" {
      assert Lower(t[0]) == 'k' <==> StartsWithK(t);
      if EqualsIgnoreCase(t, name) {
        assert Lower(t[0]) == Lower(name[0]) != 'k';
      }
      if EqualsIgnoreCase(t, long) {
        assert Lower(t[0]) == Lower(long[0]) == 'k';
        assert forall i :: 0 <= i < |name| ==> t[1..][i] == t[i + 1] && long[i + 1] == name[i];
      }
      if StartsWithK(t) && EqualsIgnoreCase(t[1..], name) {
        forall i | 0 <= i < |t|
          ensures Lower(t[i]) == Lower(long[i])
        {
          if i > 0 {
            assert t[1..][i - 1] == t[i];
          }
        }
      }
    }
  }

  lemma NoEmptyName()
    ensures forall v :: 0 <= v <= 3 ==> !EqualsIgnoreCase("", SeverityName(v))
  {
  }

  lemma BareNames(u: string)
    ensures BareName(u)
       <==> || EqualsIgnoreCase(u, SeverityName(0)) || EqualsIgnoreCase(u, SeverityName(1))
            || EqualsIgnoreCase(u, SeverityName(2)) || EqualsIgnoreCase(u, SeverityName(3))
  {
    hide EqualsIgnoreCase;
  }

  lemma NoLetterNoNumber(text: string)
    requires Strip(text) == "" || StartsWithK(Strip(text))
    ensures Accepted(text, INT32) == None
  {
    hide Strip, Value;
    var t := Strip(text);
    if t != "" {
      assert DigitOf(t[0]) == 20;
    }
  }

  lemma SameNumber(text: string)
    ensures Accepted(Strip(text), INT32) == Accepted(text, INT32)
  {
    hide Strip, Value;
    StripTwice(text);
  }

  /** So `k5` is read as 5. */
  lemma LetterBeforeNumber(v: int)
    requires In(v, INT32)
    ensures ParseSeverity("k" + SignedDecimal(v)) == Some(v) && DocumentedSeverity("k" + SignedDecimal(v)) == None
  {
    hide Decimal, Strip, Accepted, EqualsIgnoreCase;
    var s := SignedDecimal(v);
    DecimalDigits(if v < 0 then -v else v);
    NotAName(v);
    NoSpaces("k" + s);
    assert ("k" + s)[1..] == s;
    IntegerRoundTrip(v, INT32);
    SeverityDiffersIff("k" + s);
    CaseOfNames();
    BareNames(s);
  }

  // std::vector<std::string>.

  ghost predicate CommaFree(v: seq<string>)
  {
    forall i :: 0 <= i < |v| ==> ',' !in v[i]
  }

  lemma {:induction false} SplitIsCommaFree(s: string)
    ensures CommaFree(SplitCommas(s))
    decreases |s|
  {
    var i := Find(s, ',');
    if i == |s| {
      assert s[..i] == s;
    } else {
      SplitIsCommaFree(s[i + 1..]);
    }
  }

  lemma {:induction false} JoinOfSplit(s: string)
    ensures JoinCommas(SplitCommas(s)) == s
    decreases |s|
  {
    var i := Find(s, ',');
    if i < |s| {
      JoinOfSplit(s[i + 1..]);
      var rest := SplitCommas(s[i + 1..]);
      assert SplitCommas(s)[1..] == rest;
      assert s == s[..i] + "," + s[i + 1..];
    }
  }

  /** Text to list to text is the identity. */
  lemma ListTextRoundTrip(text: string)
    ensures JoinCommas(ListOf(text)) == text
  {
    if text != "" {
      JoinOfSplit(text);
    }
  }

  lemma {:induction false} FindAppend(head: string, rest: string)
    requires ',' !in head
    ensures Find(head + "," + rest, ',') == |head|
  {
    var s := head + "," + rest;
    if head != "" {
      assert s[0] == head[0] && s[1..] == head[1..] + "," + rest;
      FindAppend(head[1..], rest);
    }
  }

  lemma SplitNext(head: string, rest: string)
    requires ',' !in head
    ensures SplitCommas(head) == [head]
    ensures SplitCommas(head + "," + rest) == [head] + SplitCommas(rest)
  {
    var s := head + "," + rest;
    FindAppend(head, rest);
    assert s[..|head|] == head && s[|head| + 1..] == rest;
  }

  lemma {:induction false} SplitOfJoin(v: seq<string>)
    requires v != [] && CommaFree(v)
    ensures SplitCommas(JoinCommas(v)) == v
  {
    hide SplitCommas;
    if |v| == 1 {
      SplitNext(v[0], "");
      assert v == [v[0]];
    } else {
      SplitOfJoin(v[1..]);
      SplitNext(v[0], JoinCommas(v[1..]));
      assert v == [v[0]] + v[1..];
    }
  }

  lemma {:induction false} JoinEmpty(v: seq<string>)
    ensures JoinCommas(v) == "" <==> v == [] || v == [""]
  {
    if |v| == 1 {
      assert v == [v[0]];
    }
  }

  /** List to text to list is the identity exactly for lists of comma-free strings other than [""]. */
  lemma ListRoundTrip(v: seq<string>)
    ensures ListOf(JoinCommas(v)) == v <==> CommaFree(v) && v != [""]
  {
    JoinEmpty(v);
    if v != [] && v != [""] {
      SplitIsCommaFree(JoinCommas(v));
      if CommaFree(v) {
        SplitOfJoin(v);
      }
    }
  }

  // optional<T>.

  function ParseOptional<T>(text: string, parse: string -> Option<T>): Option<Option<T>>
  {
    if text == "" then Some(None)
    else
      var v := parse(text);
      if v.Some? then Some(Some(v.value)) else None
  }

  function UnparseOptional<T>(v: Option<T>, unparse: T -> string): string
  {
    if v.Some? then unparse(v.value) else ""
  }

  /** Only the empty text means no value; any other text is read as the inner type reads it. */
  lemma OptionalTexts<T>(text: string, parse: string -> Option<T>)
    ensures ParseOptional(text, parse) == Some(None) <==> text == ""
    ensures text != "" ==> (ParseOptional(text, parse).Some? <==> parse(text).Some?)
    ensures forall v :: ParseOptional(text, parse) == Some(Some(v)) <==> text != "" && parse(text) == Some(v)
  {
  }

  /** An optional survives exactly when it is empty, or its value has a non-empty text that survives. */
  lemma OptionalRoundTrip<T>(v: Option<T>, parse: string -> Option<T>, unparse: T -> string)
    ensures ParseOptional(UnparseOptional(v, unparse), parse) == Some(v) <==>
            v.None? || (unparse(v.value) != "" && parse(unparse(v.value)) == Some(v.value))
  {
  }

  /** So an optional integer always survives. */
  lemma OptionalIntegers(v: Option<int>, range: Range)
    requires v.Some? ==> In(v.value, range)
    ensures ParseOptional(UnparseOptional(v, SignedDecimal), (s: string) => Accepted(s, range)) == Some(v)
  {
    if v.Some? {
      IntegerRoundTrip(v.value, range);
      DecimalDigits(0);
      OptionalRoundTrip(v, (s: string) => Accepted(s, range), SignedDecimal);
    }
  }

  /** An optional list survives exactly when it is absent, or a non-empty list of comma-free strings other than
      [""]: a present empty list comes back as absent. */
  lemma OptionalLists(v: Option<seq<string>>)
    ensures ParseOptional(UnparseOptional(v, JoinCommas), (s: string) => Some(ListOf(s))) == Some(v) <==>
            v.None? || (CommaFree(v.value) && v.value != [] && v.value != [""])
  {
    if v.Some? {
      ListRoundTrip(v.value);
      JoinEmpty(v.value);
    }
  }
}

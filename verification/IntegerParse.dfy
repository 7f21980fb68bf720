/** Parsing integers: absl/strings/numbers.cc and the integer part of absl/flags/marshalling.cc.

    `Denoted` says which number a text stands for, without any bound; the digit loops are shown to deliver
    that number exactly when it fits. */
module IntegerParse {
  import opened FlagText
  import opened DecimalText
  import opened FastInteger

  // What a text denotes.

  /** The value of a digit character, 36 for any other character. */
  function DigitOf(c: char): (d: nat)
    ensures d <= 36
  {
    if '0' <= c <= '9' then c as nat - '0' as nat
    else if 'a' <= c <= 'z' then c as nat - 'a' as nat + 10
    else if 'A' <= c <= 'Z' then c as nat - 'A' as nat + 10
    else 36
  }

  predicate AllDigits(s: string, base: nat)
  {
    forall i :: 0 <= i < |s| ==> DigitOf(s[i]) < base
  }

  function Times(x: nat, base: nat): nat
  {
    x * base
  }

  function Value(s: string, base: nat): nat
  {
    if s == "" then 0 else Times(Value(s[..|s| - 1], base), base) + DigitOf(s[|s| - 1])
  }

  datatype Numeral = Numeral(negative: bool, magnitude: nat)
  {
    function Value(): int
    {
      if negative then 0 - magnitude else magnitude
    }
  }

  predicate HexPrefix(s: string)
  {
    |s| >= 2 && s[0] == '0' && (s[1] == 'x' || s[1] == 'X')
  }

  datatype Parts = Parts(negative: bool, digits: string)

  /** Sign and digits of a text without surrounding white space. */
  function SplitNumber(t: string, base: nat): Option<Parts>
  {
    if t == "" then None
    else
      var negative := t[0] == '-';
      var u := if negative || t[0] == '+' then t[1..] else t;
      var v := if base == 16 && HexPrefix(u) then u[2..] else u;
      if v == "" then None else Some(Parts(negative, v))
  }

  function Base(t: string): (b: nat)
    ensures b == 10 || b == 16
  {
    if HexPrefix(t) then 16 else 10
  }

  /** The number a flag's text stands for, if it stands for one. */
  function Denoted(text: string): Option<Numeral>
  {
    var t := Strip(text);
    var parts := SplitNumber(t, Base(t));
    if parts.Some? && AllDigits(parts.value.digits, Base(t)) then
      Some(Numeral(parts.value.negative, Value(parts.value.digits, Base(t))))
    else None
  }

  // The digit loops.

  lemma TimesMonotone(x: nat, y: nat, base: nat)
    requires x <= y
    ensures Times(x, base) <= Times(y, base)
    ensures 0 < base ==> x <= Times(x, base)
  {
    assert y * base == x * base + (y - x) * base;
    if 0 < base {
      assert x * base == x + x * (base - 1);
    }
  }

  lemma TimesNext(x: nat, base: nat)
    ensures Times(x + 1, base) == Times(x, base) + base
  {
  }

  /** The comparison with the quotient tells whether the product would be too large. */
  lemma OverBase(value: nat, base: nat, max: nat)
    requires 0 < base
    ensures value > max / base <==> Times(value, base) > max
  {
    var q := max / base;
    assert Times(q, base) <= max < Times(q, base) + base;
    hide Times;
    TimesNext(q, base);
    if value > q {
      TimesMonotone(q + 1, value, base);
    } else {
      TimesMonotone(value, q, base);
    }
  }

  lemma {:induction false} ValueGrows(s: string, base: nat, i: nat)
    requires i <= |s| && 0 < base
    ensures Value(s[..i], base) <= Value(s, base)
  {
    hide Times;
    if i == |s| {
      assert s[..i] == s;
    } else {
      var front := s[..|s| - 1];
      ValueGrows(front, base, i);
      assert front[..i] == s[..i];
      TimesMonotone(Value(front, base), Value(front, base), base);
    }
  }

  /** How far the digits can be read and what has been collected by then: the bound once it is passed, or the
      value in front of the first character that is no digit. */
  datatype Scan = Scan(ok: bool, value: nat)

  function Scanned(s: string, base: nat, max: nat): Scan
  {
    if s == "" then Scan(true, 0)
    else
      var front, digit := Scanned(s[..|s| - 1], base, max), DigitOf(s[|s| - 1]);
      if !front.ok || digit >= base then Scan(false, front.value)
      else if Times(front.value, base) + digit > max then Scan(false, max)
      else Scan(true, Times(front.value, base) + digit)
  }

  lemma ScannedNext(s: string, base: nat, max: nat, i: nat)
    requires i < |s|
    ensures var front, digit := Scanned(s[..i], base, max), DigitOf(s[i]);
            Scanned(s[..i + 1], base, max) ==
            if !front.ok || digit >= base then Scan(false, front.value)
            else if Times(front.value, base) + digit > max then Scan(false, max)
            else Scan(true, Times(front.value, base) + digit)
  {
    assert s[..i + 1][..i] == s[..i];
  }

  lemma {:induction false} ScanStops(s: string, base: nat, max: nat, i: nat)
    requires i <= |s| && !Scanned(s[..i], base, max).ok
    ensures Scanned(s, base, max) == Scanned(s[..i], base, max)
  {
    if i == |s| {
      assert s[..i] == s;
    } else {
      var front := s[..|s| - 1];
      assert front[..i] == s[..i];
      ScanStops(front, base, max, i);
    }
  }

  /** The scan succeeds exactly when the number consists of digits and fits, and then delivers it. */
  lemma {:induction false} ScannedIs(s: string, base: nat, max: nat)
    requires 0 < base
    ensures Scanned(s, base, max).ok <==> AllDigits(s, base) && Value(s, base) <= max
    ensures Scanned(s, base, max).ok ==> Scanned(s, base, max).value == Value(s, base)
    ensures AllDigits(s, base) && Value(s, base) > max ==> Scanned(s, base, max).value == max
  {
    hide Times, DigitOf;
    if s != "" {
      var front := s[..|s| - 1];
      ScannedIs(front, base, max);
      ValueGrows(s, base, |front|);
      assert AllDigits(s, base) <==> AllDigits(front, base) && DigitOf(s[|s| - 1]) < base;
    }
  }

  /** safe_parse_positive_int: `value` is clamped when the number is too large. */
  method ParsePositive(text: string, base: nat, max: nat) returns (ok: bool, value: nat)
    requires 2 <= base <= 36 && base <= max
    ensures Scan(ok, value) == Scanned(text, base, max)
    ensures ok <==> AllDigits(text, base) && Value(text, base) <= max
    ensures ok ==> value == Value(text, base)
    ensures !ok && AllDigits(text, base) ==> value == max
  {
    hide Times, Value, DigitOf, Scanned;
    ScannedIs(text, base, max);
    ScannedEmpty(base, max);
    assert text[..0] == "";
    value := 0;
    var maxOverBase := max / base;
    for i := 0 to |text|
      invariant Scanned(text[..i], base, max) == Scan(true, value) && value <= max
    {
      ScannedNext(text, base, max, i);
      if !Scanned(text[..i + 1], base, max).ok {
        ScanStops(text, base, max, i + 1);
      }
      var digit := DigitOf(text[i]);
      if digit >= base {
        return false, value;
      }
      OverBase(value, base, max);
      if value > maxOverBase {
        return false, max;
      }
      value := Times(value, base);
      assert value <= max;
      if value > max - digit {
        return false, max;
      }
      value := value + digit;
      assert value <= max;
    }
    assert text[..|text|] == text;
    ok := true;
  }

  lemma ScannedEmpty(base: nat, max: nat)
    ensures Scanned("", base, max) == Scan(true, 0)
  {
  }

  /** Division as C++ does it, towards zero. */
  function Truncated(x: int, y: nat): int
    requires 0 < y
  {
    if x < 0 then 0 - (-x) / y else x / y
  }

  /** The quotient, corrected should the remainder be positive, which it never is. */
  method MinOverBase(base: nat, min: int) returns (r: int)
    requires 0 < base && min <= 0
    ensures r == 0 - (-min) / base
  {
    r := Truncated(min, base);
    var remainder := 0 - (-min) % base;
    if remainder > 0 {
      r := r + 1;
    }
  }

  /** safe_parse_negative_int. */
  method ParseNegative(text: string, base: nat, min: int) returns (ok: bool, value: int)
    requires 2 <= base <= 36 && min + base <= 0
    ensures value <= 0 && Scan(ok, -value) == Scanned(text, base, -min)
    ensures ok <==> AllDigits(text, base) && min <= 0 - Value(text, base)
    ensures ok ==> value == 0 - Value(text, base)
    ensures !ok && AllDigits(text, base) ==> value == min
  {
    hide Times, Value, DigitOf, Scanned;
    ScannedIs(text, base, -min);
    ScannedEmpty(base, -min);
    assert text[..0] == "";
    value := 0;
    var minOverBase := MinOverBase(base, min);
    for i := 0 to |text|
      invariant min <= value <= 0 && Scanned(text[..i], base, -min) == Scan(true, -value)
    {
      ScannedNext(text, base, -min, i);
      if !Scanned(text[..i + 1], base, -min).ok {
        ScanStops(text, base, -min, i + 1);
      }
      var digit := DigitOf(text[i]);
      if digit >= base {
        return false, value;
      }
      OverBase(-value, base, -min);
      if value < minOverBase {
        return false, min;
      }
      value := 0 - Times(-value, base);
      assert min <= value;
      if value < min + digit {
        return false, min;
      }
      value := value - digit;
      assert min <= value;
    }
    assert text[..|text|] == text;
    ok := true;
  }

  // safe_parse_sign_and_base.

  lemma {:induction false} StripIsSlice(s: string, from: nat, to: nat)
    requires from <= to <= |s|
    requires forall i :: 0 <= i < from ==> IsSpace(s[i])
    requires forall i :: to <= i < |s| ==> IsSpace(s[i])
    requires from < to ==> !IsSpace(s[from]) && !IsSpace(s[to - 1])
    requires from == to ==> to == |s|
    ensures Strip(s) == s[from..to]
    decreases |s|
  {
    if from > 0 {
      StripIsSlice(s[1..], from - 1, to - 1);
      assert s[1..][from - 1..to - 1] == s[from..to];
    } else if to < |s| {
      var front := s[..|s| - 1];
      StripIsSlice(front, from, to);
      assert front[from..to] == s[from..to];
      assert StripLeading(s) == s && StripLeading(front) == front;
    } else if s != "" {
      assert s[from..to] == s;
    }
  }

  /** The text without surrounding white space, found from both ends. */
  method StripBoth(text: string) returns (t: string)
    ensures t == Strip(text)
  {
    var start, end := 0, |text|;
    while start < end && IsSpace(text[start])
      invariant 0 <= start <= end == |text|
      invariant forall i :: 0 <= i < start ==> IsSpace(text[i])
    {
      start := start + 1;
    }
    while start < end && IsSpace(text[end - 1])
      invariant start <= end <= |text|
      invariant start < |text| ==> start < end && !IsSpace(text[start])
      invariant forall i :: end <= i < |text| ==> IsSpace(text[i])
    {
      end := end - 1;
    }
    StripIsSlice(text, start, end);
    t := text[start..end];
  }

  method ParseSignAndBase(text: string, base: nat) returns (parts: Option<Parts>)
    ensures parts == SplitNumber(Strip(text), base)
  {
    var t := StripBoth(text);
    if t == "" {
      return None;
    }
    var negative := t[0] == '-';
    if negative || t[0] == '+' {
      t := t[1..];
      if t == "" {
        return None;
      }
    }
    if base == 16 && HexPrefix(t) {
      t := t[2..];
      if t == "" {
        return None;
      }
    }
    parts := Some(Parts(negative, t));
  }

  lemma {:induction false} StripTrailingFixed(s: string)
    ensures StripTrailing(StripTrailing(s)) == StripTrailing(s)
    ensures StripTrailing(s) <= s
  {
    if s != "" && IsSpace(s[|s| - 1]) {
      StripTrailingFixed(s[..|s| - 1]);
    }
  }

  lemma {:induction false} StripLeadingFirst(s: string)
    ensures StripLeading(s) != "" ==> !IsSpace(StripLeading(s)[0])
  {
    if s != "" && IsSpace(s[0]) {
      StripLeadingFirst(s[1..]);
    }
  }

  /** Stripping twice is stripping once. */
  lemma StripTwice(s: string)
    ensures Strip(Strip(s)) == Strip(s)
  {
    StripLeadingFirst(s);
    StripTrailingFixed(StripLeading(s));
    assert StripLeading(Strip(s)) == Strip(s);
  }

  /** The numbers of an integer type. */
  datatype Range = Range(min: int, max: nat)

  const INT32 := Range(-0x8000_0000, 0x7fff_ffff)
  const INT64 := Range(-0x8000_0000_0000_0000, 0x7fff_ffff_ffff_ffff)
  const UINT32 := Range(0, 0xffff_ffff)
  const UINT64 := Range(0, 0xffff_ffff_ffff_ffff)

  /** The two's complement and unsigned ranges of 32 and 64 bits. */
  lemma TypeRanges()
    ensures INT32.min + Power2(31) == 0 && INT32.max + 1 == Power2(31)
    ensures INT64.min + Power2(63) == 0 && INT64.max + 1 == Power2(63)
    ensures UINT32.min == UINT64.min == 0 && UINT32.max + 1 == Power2(32) && UINT64.max + 1 == Power2(64)
  {
    assert Power2(8) == 0x100 && Power2(16) == 0x1_0000 && Power2(24) == 0x100_0000 && Power2(31) == 0x8000_0000;
    assert Power2(40) == 0x100_0000_0000 && Power2(48) == 0x1_0000_0000_0000 && Power2(56) == 0x100_0000_0000_0000;
    assert Power2(63) == 0x8000_0000_0000_0000;
  }

  predicate In(v: int, range: Range)
  {
    range.min <= v <= range.max
  }

  /** The number if the text denotes one of the range; an unsigned type takes no minus sign, not even on 0. */
  function Accepted(text: string, range: Range): Option<int>
  {
    var d := Denoted(text);
    if d.Some? && In(d.value.Value(), range) && (d.value.negative ==> range.min < 0) then Some(d.value.Value())
    else None
  }

  /** What a failed parse leaves behind in the destination. */
  function LeftBehind(text: string, range: Range): int
  {
    var t := Strip(text);
    var parts := SplitNumber(t, Base(t));
    if parts.None? || (parts.value.negative && range.min >= 0) then 0
    else if parts.value.negative then 0 - Scanned(parts.value.digits, Base(t), -range.min).value
    else Scanned(parts.value.digits, Base(t), range.max).value
  }

  /** ParseFlagImpl with safe_strtoi_base; the destination is written to in any case. */
  method ParseInteger(text: string, range: Range) returns (r: Option<int>, dst: int)
    requires 36 <= range.max && (range.min == 0 || range.min <= -36)
    ensures r == Accepted(text, range)
    ensures dst == if r.Some? then r.value else LeftBehind(text, range)
  {
    hide Value, DigitOf, Scanned;
    var t := StripBoth(text);
    StripTwice(text);
    var base := Base(t);
    var parts := ParseSignAndBase(t, base);
    if parts.None? {
      return None, 0;
    }
    if !parts.value.negative {
      var ok, v := ParsePositive(parts.value.digits, base, range.max);
      r, dst := if ok then Some(v) else None, v;
    } else if range.min == 0 {
      r, dst := None, 0;
    } else {
      var ok, v := ParseNegative(parts.value.digits, base, range.min);
      r, dst := if ok then Some(v) else None, v;
    }
  }

  /** The narrow types parse a wider number and check that the conversion keeps it; they leave the destination
      alone on failure. */
  method ParseShort(text: string, before: int) returns (r: Option<int>, dst: int)
    ensures r == Accepted(text, Range(-0x8000, 0x7fff))
    ensures dst == if r.Some? then r.value else before
  {
    var val, _ := ParseInteger(text, INT32);
    if val.None? {
      return None, before;
    }
    var low := val.value % 0x1_0000;
    var narrowed := if low < 0x8000 then low else low - 0x1_0000;
    if narrowed != val.value {
      return None, before;
    }
    r, dst := Some(narrowed), narrowed;
  }

  method ParseUnsignedShort(text: string, before: int) returns (r: Option<int>, dst: int)
    ensures r == Accepted(text, Range(0, 0xffff))
    ensures dst == if r.Some? then r.value else before
  {
    var val, _ := ParseInteger(text, UINT32);
    if val.None? {
      return None, before;
    }
    var narrowed := val.value % 0x1_0000;
    if narrowed != val.value {
      return None, before;
    }
    r, dst := Some(narrowed), narrowed;
  }

  // Round trips.

  lemma {:induction false} DecimalDigits(n: nat)
    ensures forall i :: 0 <= i < |Decimal(n)| ==> '0' <= Decimal(n)[i] <= '9'
    ensures AllDigits(Decimal(n), 10) && Value(Decimal(n), 10) == n
  {
    if n < 10 {
      assert Decimal(n)[..0] == "";
    } else {
      DecimalDigits(n / 10);
      assert Decimal(n)[..|Decimal(n)| - 1] == Decimal(n / 10);
    }
  }

  lemma NoSpaces(s: string)
    requires forall i :: 0 <= i < |s| ==> !IsSpace(s[i])
    ensures Strip(s) == s
  {
    StripIsSlice(s, 0, |s|);
  }

  /** The text written for a number denotes that number. */
  lemma DenotesItself(i: int)
    ensures Denoted(SignedDecimal(i)) == Some(Numeral(i < 0, if i < 0 then -i else i))
  {
    hide Decimal, Value, Strip;
    var n := if i < 0 then -i else i;
    DecimalDigits(n);
    NoSpaces(SignedDecimal(i));
    assert SignedDecimal(i)[1..] == Decimal(n) || i >= 0;
  }

  /** Every value of every integer type survives being written and read. */
  lemma IntegerRoundTrip(i: int, range: Range)
    requires In(i, range)
    ensures Accepted(SignedDecimal(i), range) == Some(i)
  {
    DenotesItself(i);
  }

  /** A hexadecimal number takes no sign, although the digit parser alone would allow one. */
  lemma SignedHexRejected(text: string, range: Range)
    requires |Strip(text)| > 2 && (Strip(text)[0] == '-' || Strip(text)[0] == '+') && HexPrefix(Strip(text)[1..])
    ensures Accepted(text, range) == None
  {
    var t := Strip(text);
    assert SplitNumber(t, 10) == Some(Parts(t[0] == '-', t[1..]));
    assert DigitOf(t[1..][1]) >= 10;
  }

  /** A number outside the range is refused. */
  lemma OutOfRangeRefused(i: int, range: Range)
    requires !In(i, range)
    ensures Accepted(SignedDecimal(i), range) == None
  {
    DenotesItself(i);
  }

  /** An unsigned type takes no minus sign, whatever follows it. */
  lemma MinusRefused(text: string, range: Range)
    requires Strip(text) != "" && Strip(text)[0] == '-' && range.min >= 0
    ensures Accepted(text, range) == None
  {
    hide Strip, Value, AllDigits;
    assert !HexPrefix(Strip(text));
  }

  // Hexadecimal text.

  const SMALL_DIGITS: string := "0123456789abcdef"
  const CAPITAL_DIGITS: string := "0123456789ABCDEF"

  /** The number in base 16, written with the sixteen given characters. */
  function Hex(v: nat, digits: string): (s: string)
    requires |digits| == 16
    ensures |s| > 0
  {
    if v < 16 then [digits[v]] else Hex(v / 16, digits) + [digits[v % 16]]
  }

  lemma DigitValues(digits: string, d: nat)
    requires (digits == SMALL_DIGITS || digits == CAPITAL_DIGITS) && d < 16
    ensures DigitOf(digits[d]) == d && !IsSpace(digits[d])
  {
  }

  lemma {:induction false} HexDigits(v: nat, digits: string)
    requires digits == SMALL_DIGITS || digits == CAPITAL_DIGITS
    ensures AllDigits(Hex(v, digits), 16) && Value(Hex(v, digits), 16) == v
    ensures forall i :: 0 <= i < |Hex(v, digits)| ==> !IsSpace(Hex(v, digits)[i])
  {
    hide DigitOf, IsSpace;
    DigitValues(digits, v % 16);
    if v < 16 {
      assert Hex(v, digits)[..0] == "";
    } else {
      HexDigits(v / 16, digits);
      assert Hex(v, digits)[..|Hex(v, digits)| - 1] == Hex(v / 16, digits);
    }
  }

  /** Every number that is not negative is read back from its hexadecimal text, with digits of either case
      after either prefix. */
  lemma HexRoundTrip(v: nat, digits: string, prefix: string, range: Range)
    requires In(v, range) && (digits == SMALL_DIGITS || digits == CAPITAL_DIGITS) && (prefix == "0x" || prefix == "0X")
    ensures Accepted(prefix + Hex(v, digits), range) == Some(v)
  {
    hide Hex, Value, Strip, DigitOf, AllDigits;
    HexDigits(v, digits);
    var t := prefix + Hex(v, digits);
    NoSpaces(t);
    assert t[2..] == Hex(v, digits);
    assert HexPrefix(t) && SplitNumber(t, 16) == Some(Parts(false, Hex(v, digits)));
  }

  /** A plus sign changes nothing. */
  lemma PlusSign(v: nat, range: Range)
    ensures Accepted("+" + Decimal(v), range) == Accepted(Decimal(v), range) == if In(v, range) then Some(v) else None
  {
    hide Decimal, Value, Strip;
    DecimalDigits(v);
    NoSpaces(Decimal(v));
    NoSpaces("+" + Decimal(v));
    assert ("+" + Decimal(v))[1..] == Decimal(v);
  }

  /** A leading zero does not change the base. */
  lemma LeadingZero(v: nat, range: Range)
    requires In(v, range)
    ensures Accepted("0" + Decimal(v), range) == Some(v)
  {
    hide Decimal, Value, Strip;
    DecimalDigits(v);
    var t := "0" + Decimal(v);
    NoSpaces(t);
    ZeroInFront(Decimal(v), 10);
    assert t[1] == Decimal(v)[0];
    assert SplitNumber(t, 10) == Some(Parts(false, t));
  }

  lemma {:induction false} ZeroInFront(s: string, base: nat)
    ensures Value("0" + s, base) == Value(s, base)
    decreases |s|
  {
    if s == "" {
      assert ("0" + s)[..0] == "";
    } else {
      assert ("0" + s)[..|s|] == "0" + s[..|s| - 1];
      ZeroInFront(s[..|s| - 1], base);
    }
  }

  /** White space around the text changes nothing. */
  lemma SpacesAround(before: string, text: string, after: string, range: Range)
    requires forall c :: c in before || c in after ==> c in " \t\n\r\U{B}\U{C}"
    ensures Accepted(before + text + after, range) == Accepted(text, range)
  {
    hide Value, Strip;
    StripAround(before, text, after);
  }

  lemma StripAround(before: string, text: string, after: string)
    requires forall c :: c in before || c in after ==> IsSpace(c)
    ensures Strip(before + text + after) == Strip(text)
  {
    assert before + text + after == before + (text + after);
    LeadingSpaces(before, text + after);
    BothEnds(text, after);
  }

  lemma {:induction false} LeadingSpaces(before: string, rest: string)
    requires forall c :: c in before ==> IsSpace(c)
    ensures StripLeading(before + rest) == StripLeading(rest)
    decreases |before|
  {
    if before == "" {
      assert before + rest == rest;
    } else {
      assert (before + rest)[1..] == before[1..] + rest;
      LeadingSpaces(before[1..], rest);
    }
  }

  lemma {:induction false} TrailingSpaces(s: string, after: string)
    requires forall c :: c in after ==> IsSpace(c)
    ensures StripTrailing(s + after) == StripTrailing(s)
    decreases |after|
  {
    if after == "" {
      assert s + after == s;
    } else {
      var n := |after| - 1;
      assert (s + after)[..|s + after| - 1] == s + after[..n];
      TrailingSpaces(s, after[..n]);
    }
  }

  lemma {:induction false} BothEnds(text: string, after: string)
    requires forall c :: c in after ==> IsSpace(c)
    ensures Strip(text + after) == Strip(text)
    decreases |text|
  {
    if text == "" {
      assert text + after == after == after + "";
      LeadingSpaces(after, "");
    } else if IsSpace(text[0]) {
      assert (text + after)[1..] == text[1..] + after;
      BothEnds(text[1..], after);
    } else {
      TrailingSpaces(text, after);
    }
  }
}

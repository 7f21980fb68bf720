/** The branch-free integer encoder of absl/strings/numbers.cc.

    It divides several digit groups at once inside one machine word, adds '0' to all bytes at once and
    shifts leading zeros out.  A bit mask is written as the sum of the fields it keeps. */
module FastInteger {
  import opened DecimalText

  // Parallel division.

  /** A word of 16-bit fields, the first one lowest. */
  function Word(fields: seq<nat>): nat
  {
    if fields == [] then 0 else fields[0] + 65536 * Word(fields[1..])
  }

  /** Keeps the low four bits of each of `k` 16-bit fields. */
  function LowNibbles(x: nat, k: nat): nat
  {
    if k == 0 then 0 else x % 16 + 65536 * LowNibbles(x / 65536, k - 1)
  }

  ghost predicate Below100(fields: seq<nat>)
  {
    forall i :: 0 <= i < |fields| ==> fields[i] < 100
  }

  function Tens(fields: seq<nat>): (r: seq<nat>)
    ensures |r| == |fields|
  {
    seq(|fields|, i requires 0 <= i < |fields| => fields[i] / 10)
  }

  /** Each field as its two digits. */
  function Digits(fields: seq<nat>): (d: seq<nat>)
    ensures |d| == 2 * |fields|
    ensures Below100(fields) ==> AreDigits(d)
  {
    if fields == [] then [] else [fields[0] / 10, fields[0] % 10] + Digits(fields[1..])
  }

  lemma Remainder(x: nat, p: nat, q: nat, r: nat)
    requires x == p * q + r && r < p
    ensures x / p == q && x % p == r
  {
    Quotient(x, p, q, r);
  }

  lemma By10(a: nat, rest: nat)
    requires a < 100
    ensures ((a + 65536 * rest) * 103) / 1024 == a / 10 + 6592 * rest
  {
    var q, r := a / 10, a % 10;
    assert a == 10 * q + r;
    Remainder((a + 65536 * rest) * 103, 1024, q + 6592 * rest, 6 * q + 103 * r);
  }

  lemma FieldsBy10(a: nat, rest: nat)
    requires a < 100
    ensures (a / 10 + 6592 * rest) % 16 == a / 10
    ensures (a / 10 + 6592 * rest) / 65536 == (rest * 103) / 1024
  {
    var q := a / 10;
    var u, v := (rest * 103) / 1024, (rest * 103) % 1024;
    Remainder(q + 6592 * rest, 16, 412 * rest, q);
    Remainder(q + 6592 * rest, 65536, u, 64 * v + q);
  }

  /** One multiplication divides all fields by ten. */
  lemma {:induction false} AllBy10(fields: seq<nat>)
    requires Below100(fields)
    ensures LowNibbles((Word(fields) * 103) / 1024, |fields|) == Word(Tens(fields))
  {
    if fields != [] {
      AllBy10(fields[1..]);
      By10(fields[0], Word(fields[1..]));
      FieldsBy10(fields[0], Word(fields[1..]));
      assert Tens(fields) == [fields[0] / 10] + Tens(fields[1..]);
    }
  }

  /** The tens and the remainders side by side are the digits. */
  lemma {:induction false} Interleaved(fields: seq<nat>)
    requires Below100(fields)
    ensures 10 * Word(Tens(fields)) <= Word(fields)
    ensures Word(Tens(fields)) + (Word(fields) - 10 * Word(Tens(fields))) * 256 == Packed(Digits(fields))
  {
    hide Word, Packed;
    if fields == [] {
      EmptyWords();
    } else {
      var rest := fields[1..];
      Interleaved(rest);
      assert Tens(fields) == [fields[0] / 10] + Tens(rest) && Tens(fields)[1..] == Tens(rest);
      var low, d := [fields[0] % 10] + Digits(rest), Digits(fields);
      assert d[1..] == low && low[1..] == Digits(rest);
      NextWord(fields);
      NextWord(Tens(fields));
      NextByte(d);
      NextByte(low);
      assert fields[0] == 10 * (fields[0] / 10) + fields[0] % 10;
    }
  }

  lemma EmptyWords()
    ensures Word([]) == 0 && Packed([]) == 0
  {
  }

  lemma NextWord(fields: seq<nat>)
    requires fields != []
    ensures Word(fields) == fields[0] + 65536 * Word(fields[1..])
  {
  }

  lemma NextByte(d: seq<nat>)
    requires d != []
    ensures Packed(d) == d[0] + 256 * Packed(d[1..])
  {
  }

  lemma By100(n: nat)
    requires n < 10000
    ensures (n * 10486) / 1048576 == n / 100
  {
    var q, r := n / 100, n % 100;
    assert n * 10486 == 1048576 * q + (24 * q + 10486 * r);
  }

  // Machine words: every operation of the source is reduced to its width, and no reduction ever bites.

  function U32(x: int): nat
  {
    x % 0x1_0000_0000
  }

  function U64(x: int): nat
  {
    x % 0x1_0000_0000_0000_0000
  }

  /** The word of `k` 16-bit fields. */
  function Narrow(x: int, k: nat): nat
  {
    if k == 2 then U32(x) else U64(x)
  }

  lemma Fits(x: int)
    ensures 0 <= x < 0x1_0000_0000 ==> U32(x) == x
    ensures 0 <= x < 0x1_0000_0000_0000_0000 ==> U64(x) == x
  {
  }

  /** Divides the fields by ten and puts the remainders into the upper bytes. */
  function Spread(hundreds: nat, k: nat): nat
  {
    var tens := LowNibbles(Narrow(U64(hundreds * 103) / 1024, k), k);
    Narrow(tens + U64(U64(hundreds - U64(10 * tens)) * 256), k)
  }

  ghost predicate TwoOrFour(fields: seq<nat>)
  {
    Below100(fields) && (|fields| == 2 || |fields| == 4)
  }

  lemma WordBound(fields: seq<nat>)
    requires TwoOrFour(fields)
    ensures Word(fields) < if |fields| == 2 then 0x80_0000 else 0x80_0000_0000_0000
  {
    var f1 := fields[1..];
    assert Word(fields) == fields[0] + 65536 * Word(f1) && Word(f1) == f1[0] + 65536 * Word(f1[1..]);
    if |fields| == 2 {
      assert f1[1..] == [];
    } else {
      var f2 := f1[1..];
      var f3 := f2[1..];
      assert Word(f2) == f2[0] + 65536 * Word(f3) && Word(f3) == f3[0] + 65536 * Word(f3[1..]);
      assert f3[1..] == [];
    }
  }

  lemma {:induction false} PackedBound(d: seq<nat>)
    requires AreDigits(d)
    ensures Packed(d) + ZeroBytes(|d|) < Power256(|d|)
  {
    if d != [] {
      PackedBound(d[1..]);
    }
  }

  lemma Powers()
    ensures Power256(4) == 0x1_0000_0000 && Power256(8) == 0x1_0000_0000_0000_0000
  {
    assert Power256(2) == 65536 && Power256(4) == 65536 * Power256(2);
    assert Power256(6) == 65536 * Power256(4) && Power256(8) == 65536 * Power256(6);
  }

  /** In machine words the tens and the remainders side by side are the digits. */
  lemma SpreadIsDigits(fields: seq<nat>)
    requires TwoOrFour(fields)
    ensures Spread(Word(fields), |fields|) == Packed(Digits(fields))
  {
    hide Word, LowNibbles, Packed, Digits, Tens, U32, U64, ZeroBytes, Power256;
    var k, w := |fields|, Word(fields);
    AllBy10(fields);
    Interleaved(fields);
    WordBound(fields);
    PackedBound(Digits(fields));
    Powers();
    var tens := Word(Tens(fields));
    Fits(w * 103);
    Fits((w * 103) / 1024);
    Fits(10 * tens);
    Fits(w - 10 * tens);
    Fits((w - 10 * tens) * 256);
    Fits(tens + (w - 10 * tens) * 256);
  }

  /** EncodeTenThousand: the four digits of n packed into 32 bits. */
  function TenThousandWord(n: nat): nat
  {
    var div100 := U32(U64(n * 10486) / 1048576);
    var mod100 := U32(U64(n - U64(100 * div100)));
    var hundreds := U32(U32(mod100 * 65536) + div100);
    Spread(hundreds, 2)
  }

  lemma Pair(a: nat, b: nat)
    ensures Word([a, b]) == b * 65536 + a
  {
    assert [a, b][1..] == [b] && [b][1..] == [];
    assert Word([b]) == b + 65536 * Word([]);
  }

  lemma TenThousandDigits(n: nat)
    requires n < 10000
    ensures TenThousandWord(n) == Packed(Digits([n / 100, n % 100]))
  {
    hide Spread, Word, Packed, Digits, U32, U64;
    By100(n);
    Fits(n * 10486);
    Fits(n / 100);
    Fits(100 * (n / 100));
    Fits(n % 100);
    Fits(n % 100 * 65536);
    Fits(n % 100 * 65536 + n / 100);
    Pair(n / 100, n % 100);
    SpreadIsDigits([n / 100, n % 100]);
  }

  /** Keeps the low seven bits of two 32-bit fields. */
  function LowSevens(x: nat): nat
  {
    x % 128 + 0x1_0000_0000 * (x / 0x1_0000_0000 % 128)
  }

  lemma PairBy100(hi: nat, lo: nat)
    requires hi < 10000 && lo < 10000
    ensures LowSevens(((hi + 0x1_0000_0000 * lo) * 10486) / 1048576) == hi / 100 + 0x1_0000_0000 * (lo / 100)
  {
    By100(hi);
    By100(lo);
    var q, r := hi / 100, (hi * 10486) % 1048576;
    var u, v := lo / 100, (lo * 10486) % 1048576;
    var t := q + 42950656 * lo;
    Remainder((hi + 0x1_0000_0000 * lo) * 10486, 1048576, t, r);
    Remainder(t, 128, 335552 * lo, q);
    Remainder(t, 0x1_0000_0000, u, 4096 * v + q);
  }

  /** PrepareTenThousands: the eight digits of hi * 10000 + lo packed into 64 bits. */
  function EightWord(hi: nat, lo: nat): nat
  {
    var merged := U64(hi + U64(lo * 0x1_0000_0000));
    var div100 := LowSevens(U64(merged * 10486) / 1048576);
    var mod100 := U64(merged - U64(100 * div100));
    var hundreds := U64(U64(mod100 * 65536) + div100);
    Spread(hundreds, 4)
  }

  lemma Quad(hi: nat, lo: nat)
    ensures Word([hi / 100, hi % 100, lo / 100, lo % 100]) ==
            (hi % 100 + 0x1_0000_0000 * (lo % 100)) * 65536 + (hi / 100 + 0x1_0000_0000 * (lo / 100))
  {
    Pair(lo / 100, lo % 100);
    var f := [hi / 100, hi % 100, lo / 100, lo % 100];
    assert f[1..] == [hi % 100, lo / 100, lo % 100] && f[1..][1..] == [lo / 100, lo % 100];
    assert Word(f) == f[0] + 65536 * Word(f[1..]) && Word(f[1..]) == f[1] + 65536 * Word(f[1..][1..]);
  }

  lemma EightDigits(hi: nat, lo: nat)
    requires hi < 10000 && lo < 10000
    ensures EightWord(hi, lo) == Packed(Digits([hi / 100, hi % 100, lo / 100, lo % 100]))
  {
    hide Spread, Word, Packed, Digits, LowSevens, U32, U64;
    var fields := [hi / 100, hi % 100, lo / 100, lo % 100];
    PairBy100(hi, lo);
    Quad(hi, lo);
    WordBound(fields);
    var merged := hi + 0x1_0000_0000 * lo;
    Fits(lo * 0x1_0000_0000);
    Fits(merged);
    Fits(merged * 10486);
    var div100 := hi / 100 + 0x1_0000_0000 * (lo / 100);
    var mod100 := hi % 100 + 0x1_0000_0000 * (lo % 100);
    assert merged - 100 * div100 == mod100;
    Fits(100 * div100);
    Fits(mod100);
    Fits(mod100 * 65536);
    Fits(mod100 * 65536 + div100);
    SpreadIsDigits(fields);
  }

  // The digits as text.

  lemma {:induction false} DigitsText(fields: seq<nat>)
    requires Below100(fields)
    ensures fields != [] ==> Text(Digits(fields)) == Padded(fields[0], 2) + Text(Digits(fields[1..]))
  {
    if fields != [] {
      PaddedNext(fields[0], 2);
      PaddedNext(fields[0] / 10, 1);
    }
  }

  lemma FourText(n: nat)
    requires n < 10000
    ensures Text(Digits([n / 100, n % 100])) == Padded(n, 4)
  {
    var f := [n / 100, n % 100];
    DigitsText(f);
    DigitsText(f[1..]);
    assert f[1..] == [n % 100] && f[1..][1..] == [];
    Power10000();
    PaddedSplit(n / 100, n % 100, 2, 2);
  }

  lemma EightText(hi: nat, lo: nat)
    requires hi < 10000 && lo < 10000
    ensures Text(Digits([hi / 100, hi % 100, lo / 100, lo % 100])) == Padded(hi * 10000 + lo, 8)
  {
    hide Padded, Digits;
    var f := [hi / 100, hi % 100, lo / 100, lo % 100];
    DigitsText(f);
    DigitsText(f[1..]);
    assert f[1..] == [hi % 100, lo / 100, lo % 100] && f[1..][1..] == [lo / 100, lo % 100];
    FourText(lo);
    Power10000();
    PaddedSplit(hi / 100, hi % 100, 2, 2);
    PaddedSplit(hi, lo, 4, 4);
  }

  lemma Power10000()
    ensures Power10(2) == 100 && Power10(4) == 10000 && Power10(8) == 100_000_000
  {
    assert Power10(2) == 100 && Power10(4) == 100 * Power10(2);
    assert Power10(6) == 100 * Power10(4) && Power10(8) == 100 * Power10(6);
  }

  lemma {:induction false} PackedPositive(d: seq<nat>, i: nat)
    requires i < |d| && d[i] != 0
    ensures Packed(d) > 0
  {
    if i > 0 {
      PackedPositive(d[1..], i - 1);
    }
  }

  lemma Stripped(d: seq<nat>, z: nat)
    requires AreDigits(d) && z <= |d|
    ensures Stored(ShiftBytes(Packed(d) + ZeroBytes(|d|), z), |d|)[..|d| - z] == Text(d)[z..]
  {
    hide Stored, Packed, ShiftBytes, ZeroBytes, Digit;
    DropBytes(d, z);
    StoredPrefix(Packed(d[z..]) + ZeroBytes(|d| - z), |d|, |d| - z);
    StoredText(d[z..]);
    assert Text(d[z..]) == Text(d)[z..];
  }

  /** The packed digits of a positive number, shifted past their leading zeros, are its decimal text. */
  lemma StrippedIsDecimal(d: seq<nat>, n: nat)
    requires AreDigits(d) && 0 < n < Power10(|d|) && Text(d) == Padded(n, |d|)
    ensures Packed(d) > 0 && CountrZero(Packed(d)) / 8 < |d|
    ensures var z := CountrZero(Packed(d)) / 8;
            Stored(ShiftBytes(Packed(d) + ZeroBytes(|d|), z), |d|)[..|d| - z] == Decimal(n)
  {
    hide Stored, Padded, Decimal, CountrZero, Packed, ShiftBytes, ZeroBytes;
    assert forall i :: 0 <= i < |d| ==> Text(d)[i] == Digit(d[i]);
    NotAllZeros(n, |d|);
    var k :| 0 <= k < |d| && Padded(n, |d|)[k] != '0';
    PackedPositive(d, k);
    ZeroBits(d);
    var z := LeadingZeros(d);
    PaddedStripped(n, |d|, z);
    Stripped(d, z);
  }

  // Writing into the buffer.

  /** little_endian::Store16, Store32 and Store64. */
  method Store(out: array<char>, at: nat, word: nat, k: nat)
    requires at + k <= out.Length
    modifies out
    ensures out[..at] == old(out[..at]) && out[at..at + k] == Stored(word, k)
  {
    var x := word;
    for i := 0 to k
      invariant out[..at] == old(out[..at])
      invariant out[at..at + i] + Stored(x, k - i) == Stored(word, k)
    {
      out[at + i] := (x % 256) as char;
      assert out[at..at + i + 1] == out[at..at + i] + [(x % 256) as char];
      x := x / 256;
    }
  }

  /** Keeps what is in front of `at` and appends the text. */
  twostate predicate Appends(out: array<char>, at: nat, end: nat, text: string)
    reads out
  {
    at <= end <= out.Length && out[..at] == old(out[..at]) && out[at..end] == text
  }

  /** The sign of n - 10, spread over all bits, tells one digit from two. */
  lemma Below10(n: nat)
    requires n < 100
    ensures U32(n - 10) < 0x1_0000_0000 && ToInt32(U32(n - 10)) / 256 == if n < 10 then -1 else 0
  {
    assert n < 10 ==> (n - 10) % 0x1_0000_0000 == n - 10 + 0x1_0000_0000;
  }

  /** The word EncodeHundred stores: one digit shifted down, or two. */
  method HundredWord(n: nat) returns (base: nat, numDigits: int)
    requires n < 100
    ensures numDigits == if n < 10 then -1 else 0
    ensures base == if n < 10 then (0x3030 + n * 256) / 256 else 0x3030 + n / 10 + (n % 10) * 256
  {
    hide U32, U64;
    Below10(n);
    numDigits := ToInt32(U32(n - 10)) / 256;
    By10(n, 0);
    Fits(n * 103);
    Fits(n / 10);
    var div10 := U32(U64(n * 103) / 1024);
    Fits(10 * div10);
    Fits(n % 10);
    var mod10 := U32(n - U32(10 * div10));
    Fits(mod10 * 256);
    Fits(div10 + mod10 * 256);
    Fits(0x3030 + div10 + mod10 * 256);
    base := U32(0x3030 + U32(div10 + U32(mod10 * 256)));
    if numDigits == -1 {
      base := base / 256;
    }
  }

  method EncodeHundred(n: nat, out: array<char>, at: nat) returns (end: nat)
    requires n < 100 && at + 2 <= out.Length
    modifies out
    ensures Appends(out, at, end, Decimal(n)) && end <= at + 2
  {
    hide Stored, Decimal;
    var base, numDigits := HundredWord(n);
    Store(out, at, base, 2);
    HundredText(n);
    end := at + 2 + numDigits;
    assert out[at..end] == out[at..at + 2][..2 + numDigits];
  }

  /** A 32-bit pattern read as a signed number. */
  function ToInt32(x: nat): int
    requires x < 0x1_0000_0000
  {
    if x < 0x8000_0000 then x else x - 0x1_0000_0000
  }

  lemma HundredText(n: nat)
    requires n < 100
    ensures n < 10 ==> Stored((0x3030 + n * 256) / 256, 2)[..1] == Decimal(n)
    ensures n >= 10 ==> Stored(0x3030 + n / 10 + (n % 10) * 256, 2)[..2] == Decimal(n)
  {
    if n >= 10 {
      var d := [n / 10, n % 10];
      assert d[1..] == [n % 10] && d[1..][1..] == [];
      assert Packed(d) == n / 10 + 256 * Packed([n % 10]) && Packed([n % 10]) == n % 10 + 256 * Packed([]);
      assert ZeroBytes(2) == 48 + 256 * ZeroBytes(1) && ZeroBytes(1) == 48 + 256 * ZeroBytes(0);
      StoredText(d);
    }
  }

  /** Stores a word of digits without its leading zero bytes. */
  method StoreStripped(out: array<char>, at: nat, word: nat, k: nat, ghost d: seq<nat>, ghost n: nat) returns (end: nat)
    requires (k == 4 || k == 8) && AreDigits(d) && |d| == k && word == Packed(d)
    requires 0 < n < Power10(k) && Text(d) == Padded(n, k)
    requires at + k <= out.Length
    modifies out
    ensures Appends(out, at, end, Decimal(n)) && end <= at + k
  {
    hide Stored, Decimal, Padded, Packed, ZeroBytes, ShiftBytes, CountrZero, U32, U64, Power256, Power10;
    StrippedIsDecimal(d, n);
    var zeroes := CountrZero(word) / 8 * 8;
    PackedBound(d);
    Powers();
    Fits(word + ZeroBytes(k));
    Store(out, at, ShiftBytes(Narrow(word + ZeroBytes(k), k / 2), zeroes / 8), k);
    end := at + k - zeroes / 8;
    assert out[at..end] == out[at..at + k][..k - zeroes / 8];
  }

  method EncodeTenThousand(n: nat, out: array<char>, at: nat) returns (end: nat)
    requires 0 < n < 10000 && at + 4 <= out.Length
    modifies out
    ensures Appends(out, at, end, Decimal(n)) && end <= at + 4
  {
    hide Stored, Decimal, Padded, Packed, TenThousandWord;
    TenThousandDigits(n);
    FourText(n);
    Power10000();
    var word := TenThousandWord(n);
    end := StoreStripped(out, at, word, 4, Digits([n / 100, n % 100]), n);
  }

  /** Stores exactly eight digits. */
  method StoreEight(n: nat, out: array<char>, at: nat)
    requires n < 100_000_000 && at + 8 <= out.Length
    modifies out
    ensures Appends(out, at, at + 8, Padded(n, 8))
  {
    hide Stored, Padded, Packed, EightWord, ZeroBytes, Power256;
    var hi, lo := n / 10000, n % 10000;
    EightDigits(hi, lo);
    EightText(hi, lo);
    StoredText(Digits([hi / 100, hi % 100, lo / 100, lo % 100]));
    var word := EightWord(hi, lo);
    PackedBound(Digits([hi / 100, hi % 100, lo / 100, lo % 100]));
    Powers();
    Store(out, at, U64(word + ZeroBytes(8)), 8);
  }

  method EncodeFullU32(n: nat, out: array<char>, at: nat) returns (end: nat)
    requires 0 < n < 0x1_0000_0000 && at + 10 <= out.Length
    modifies out
    ensures Appends(out, at, end, Decimal(n)) && end <= at + (if n < 100_000_000 then 8 else 10)
  {
    hide Stored, Decimal, Padded, Packed, EightWord;
    Power10000();
    if n < 100_000_000 {
      var hi, lo := n / 10000, n % 10000;
      EightDigits(hi, lo);
      EightText(hi, lo);
      var word := EightWord(hi, lo);
      end := StoreStripped(out, at, word, 8, Digits([hi / 100, hi % 100, lo / 100, lo % 100]), n);
    } else {
      var top := n / 100_000_000;
      end := EncodeHundred(top, out, at);
      end := ThenEight(out, at, end, top, n % 100_000_000);
    }
  }

  /** Appends eight more digits to the text of a positive number. */
  method ThenEight(out: array<char>, at: nat, mid: nat, top: nat, low: nat) returns (end: nat)
    requires at <= mid && mid + 8 <= out.Length && out[at..mid] == Decimal(top)
    requires 0 < top && low < 100_000_000
    modifies out
    ensures Appends(out, at, end, Decimal(top * 100_000_000 + low)) && end == mid + 8
  {
    hide Decimal, Padded;
    Power10000();
    DecimalSplit(top, low, 8);
    StoreEight(low, out, mid);
    end := mid + 8;
    assert out[..at] == out[..mid][..at] && out[at..mid] == out[..mid][at..];
    assert out[at..end] == out[at..mid] + out[mid..end];
  }

  method FastUint32ToBuffer(n: nat, out: array<char>, at: nat) returns (end: nat)
    requires n < 0x1_0000_0000 && at + 11 <= out.Length
    modifies out
    ensures Appends(out, at, end, Decimal(n)) && end < out.Length && out[end] == '\0'
  {
    hide Decimal;
    if n < 100 {
      end := EncodeHundred(n, out, at);
    } else if n < 10000 {
      end := EncodeTenThousand(n, out, at);
    } else {
      end := EncodeFullU32(n, out, at);
    }
    out[end] := '\0';
  }

  method FastUint64ToBuffer(i: nat, out: array<char>, at: nat) returns (end: nat)
    requires i < 0x1_0000_0000_0000_0000 && at + 21 <= out.Length
    modifies out
    ensures Appends(out, at, end, Decimal(i)) && end < out.Length && out[end] == '\0'
  {
    hide Decimal;
    if i % 0x1_0000_0000 == i {
      end := FastUint32ToBuffer(i, out, at);
      return;
    }
    var div08, mod08 := i / 100_000_000, i % 100_000_000;
    if i < 10_000_000_000 {
      end := EncodeHundred(div08, out, at);
    } else if i < 10_000_000_000_000_000 {
      end := EncodeFullU32(div08, out, at);
    } else {
      var div016 := i / 10_000_000_000_000_000;
      end := EncodeTenThousand(div016, out, at);
      end := ThenEight(out, at, end, div016, div08 - div016 * 100_000_000);
    }
    end := ThenEight(out, at, end, div08, mod08);
    out[end] := '\0';
  }

  function SignedDecimal(i: int): string
  {
    if i < 0 then "-" + Decimal(-i) else Decimal(i)
  }

  lemma Negated32(i: int)
    requires -0x8000_0000 <= i < 0x8000_0000
    ensures U32(i) == (if i < 0 then i + 0x1_0000_0000 else i)
    ensures i < 0 ==> U32(0 - U32(i)) == -i
  {
  }

  lemma Negated64(i: int)
    requires -0x8000_0000_0000_0000 <= i < 0x8000_0000_0000_0000
    ensures U64(i) == (if i < 0 then i + 0x1_0000_0000_0000_0000 else i)
    ensures i < 0 ==> U64(0 - U64(i)) == -i
  {
  }

  /** The signed versions negate in unsigned arithmetic, which is right for the smallest number too. */
  method FastInt32ToBuffer(i: int, out: array<char>, at: nat) returns (end: nat)
    requires -0x8000_0000 <= i < 0x8000_0000 && at + 12 <= out.Length
    modifies out
    ensures Appends(out, at, end, SignedDecimal(i)) && end < out.Length && out[end] == '\0'
  {
    hide Decimal;
    hide U32;
    Negated32(i);
    var u: int := U32(i);
    if i < 0 {
      out[at] := '-';
      u := U32(0 - u);
      end := FastUint32ToBuffer(u, out, at + 1);
      assert out[..at] == out[..at + 1][..at] && out[at] == out[..at + 1][at];
      assert out[at..end] == [out[at]] + out[at + 1..end];
    } else {
      end := FastUint32ToBuffer(u, out, at);
    }
  }

  method FastInt64ToBuffer(i: int, out: array<char>, at: nat) returns (end: nat)
    requires -0x8000_0000_0000_0000 <= i < 0x8000_0000_0000_0000 && at + 22 <= out.Length
    modifies out
    ensures Appends(out, at, end, SignedDecimal(i)) && end < out.Length && out[end] == '\0'
  {
    hide Decimal;
    hide U64;
    Negated64(i);
    var u: int := U64(i);
    if i < 0 {
      out[at] := '-';
      u := U64(0 - u);
      end := FastUint64ToBuffer(u, out, at + 1);
      assert out[..at] == out[..at + 1][..at] && out[at] == out[..at + 1][at];
      assert out[at..end] == [out[at]] + out[at + 1..end];
    } else {
      end := FastUint64ToBuffer(u, out, at);
    }
  }
}

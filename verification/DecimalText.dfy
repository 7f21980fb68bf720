/** Decimal text, and words whose bytes hold decimal digits. */
module DecimalText {

  function Digit(d: nat): (c: char)
    requires d < 10
  {
    '0' + d as char
  }

  /** The decimal text of a number. */
  function Decimal(n: nat): (s: string)
    ensures |s| > 0
  {
    if n < 10 then [Digit(n)] else Decimal(n / 10) + [Digit(n % 10)]
  }

  /** The last `k` decimal digits, leading zeros kept. */
  function Padded(n: nat, k: nat): (s: string)
    ensures |s| == k
  {
    if k == 0 then "" else Padded(n / 10, k - 1) + [Digit(n % 10)]
  }

  function Power10(k: nat): (p: nat)
    ensures p > 0
  {
    if k == 0 then 1 else 10 * Power10(k - 1)
  }

  lemma Shifted(hi: nat, p: nat, lo: nat)
    ensures (hi * (10 * p) + lo) / 10 == hi * p + lo / 10
    ensures (hi * (10 * p) + lo) % 10 == lo % 10
  {
    assert hi * (10 * p) == 10 * (hi * p);
  }

  /** A number splits into the text of its upper part and the padded text of its lower part. */
  lemma {:induction false} DecimalSplit(hi: nat, lo: nat, k: nat)
    requires 0 < hi && lo < Power10(k)
    ensures Decimal(hi * Power10(k) + lo) == Decimal(hi) + Padded(lo, k)
  {
    if k > 0 {
      var p := Power10(k - 1);
      Shifted(hi, p, lo);
      Grows(hi, 10 * p);
      DecimalSplit(hi, lo / 10, k - 1);
    }
  }

  lemma Grows(x: nat, p: nat)
    requires 0 < x
    ensures x * p >= p
  {
  }

  lemma PaddedNext(n: nat, k: nat)
    requires 0 < k
    ensures Padded(n, k) == Padded(n / 10, k - 1) + [Digit(n % 10)]
  {
  }

  lemma Power10Next(k: nat)
    requires 0 < k
    ensures Power10(k) == 10 * Power10(k - 1)
  {
  }

  lemma PaddedNone(n: nat)
    ensures Padded(n, 0) == "" && Power10(0) == 1
  {
  }

  lemma {:induction false} PaddedSplit(hi: nat, lo: nat, j: nat, k: nat)
    requires lo < Power10(k)
    ensures Padded(hi * Power10(k) + lo, j + k) == Padded(hi, j) + Padded(lo, k)
  {
    hide Padded, Power10;
    if k == 0 {
      PaddedNone(lo);
    } else {
      Power10Next(k);
      Shifted(hi, Power10(k - 1), lo);
      PaddedSplit(hi, lo / 10, j, k - 1);
      PaddedNext(hi * Power10(k) + lo, j + k);
      PaddedNext(lo, k);
    }
  }

  /** Without its leading zeros the padded text is the decimal text. */
  lemma {:induction false} PaddedStripped(n: nat, k: nat, z: nat)
    requires 0 < n < Power10(k) && z < k && Padded(n, k)[z] != '0'
    requires forall i :: 0 <= i < z ==> Padded(n, k)[i] == '0'
    ensures Padded(n, k)[z..] == Decimal(n)
  {
    var front := Padded(n / 10, k - 1);
    assert Padded(n, k) == front + [Digit(n % 10)];
    if n < 10 {
      AllZeros(k - 1);
      assert z == k - 1;
    } else {
      NotAllZeros(n / 10, k - 1);
      var i :| 0 <= i < k - 1 && front[i] != '0';
      assert Padded(n, k)[i] == front[i];
      assert forall j :: 0 <= j < k - 1 ==> Padded(n, k)[j] == front[j];
      PaddedStripped(n / 10, k - 1, z);
    }
  }

  lemma {:induction false} AllZeros(k: nat)
    ensures forall i :: 0 <= i < k ==> Padded(0, k)[i] == '0'
  {
    if k > 0 {
      AllZeros(k - 1);
    }
  }

  lemma {:induction false} NotAllZeros(n: nat, k: nat)
    requires 0 < n < Power10(k)
    ensures exists i :: 0 <= i < k && Padded(n, k)[i] != '0'
  {
    if n % 10 == 0 {
      NotAllZeros(n / 10, k - 1);
      var i :| 0 <= i < k - 1 && Padded(n / 10, k - 1)[i] != '0';
      assert Padded(n, k)[i] != '0';
    } else {
      assert Padded(n, k)[k - 1] != '0';
    }
  }

  // Words as little-endian bytes.

  /** The low `k` bytes of a word, lowest first, as characters. */
  function Stored(x: nat, k: nat): (s: string)
    ensures |s| == k
  {
    if k == 0 then "" else [(x % 256) as char] + Stored(x / 256, k - 1)
  }

  /** A word whose bytes are the given numbers, the first one lowest. */
  function Packed(d: seq<nat>): nat
  {
    if d == [] then 0 else d[0] + 256 * Packed(d[1..])
  }

  ghost predicate AreDigits(d: seq<nat>)
  {
    forall i :: 0 <= i < |d| ==> d[i] < 10
  }

  function Text(d: seq<nat>): (s: string)
    requires AreDigits(d)
    ensures |s| == |d|
  {
    seq(|d|, i requires 0 <= i < |d| => Digit(d[i]))
  }

  /** The word with a '0' in each of `k` bytes. */
  function ZeroBytes(k: nat): nat
  {
    if k == 0 then 0 else 48 + 256 * ZeroBytes(k - 1)
  }

  lemma StoredEmpty()
    ensures forall x: nat :: Stored(x, 0) == ""
  {
  }

  lemma StoredNext(low: nat, rest: nat, k: nat)
    requires low < 256 && k > 0
    ensures Stored(low + 256 * rest, k) == [low as char] + Stored(rest, k - 1)
  {
  }

  lemma {:induction false} StoredText(d: seq<nat>)
    requires AreDigits(d)
    ensures Stored(Packed(d) + ZeroBytes(|d|), |d|) == Text(d)
  {
    hide Stored;
    StoredEmpty();
    if d != [] {
      StoredText(d[1..]);
      var rest := Packed(d[1..]) + ZeroBytes(|d| - 1);
      assert Packed(d) + ZeroBytes(|d|) == (d[0] + 48) + 256 * rest;
      StoredNext(d[0] + 48, rest, |d|);
      assert Text(d) == [Digit(d[0])] + Text(d[1..]);
    }
  }

  lemma {:induction false} StoredPrefix(x: nat, k: nat, m: nat)
    requires m <= k
    ensures Stored(x, k)[..m] == Stored(x, m)
  {
    if m > 0 {
      StoredPrefix(x / 256, k - 1, m - 1);
    }
  }

  function Power256(k: nat): nat
  {
    if k == 0 then 1 else 256 * Power256(k - 1)
  }

  /** A right shift by `z` bytes. */
  function ShiftBytes(x: nat, z: nat): nat
  {
    if z == 0 then x else ShiftBytes(x / 256, z - 1)
  }

  /** Shifting the word right by z bytes drops the first z digits. */
  lemma {:induction false} DropBytes(d: seq<nat>, z: nat)
    requires AreDigits(d) && z <= |d|
    ensures ShiftBytes(Packed(d) + ZeroBytes(|d|), z) == Packed(d[z..]) + ZeroBytes(|d| - z)
  {
    if z > 0 {
      DropBytes(d[1..], z - 1);
      var rest := Packed(d[1..]) + ZeroBytes(|d| - 1);
      assert Packed(d) + ZeroBytes(|d|) == (d[0] + 48) + 256 * rest;
      assert d[1..][z - 1..] == d[z..];
    }
  }

  lemma Quotient(x: nat, p: nat, q: nat, r: nat)
    requires x == p * q + r && r < p
    ensures x / p == q
  {
    var m := x / p;
    assert p * (m - q) == r - x % p;
    AtLeastOne(p, m - q);
    AtLeastOne(p, q - m);
  }

  lemma AtLeastOne(p: nat, k: int)
    ensures k >= 1 ==> p * k >= p
  {
    if k >= 1 {
      assert p * k == p + p * (k - 1);
    }
  }

  // absl::countr_zero.

  function CountrZero(x: nat): nat
    requires 0 < x
  {
    if x % 2 == 1 then 0 else 1 + CountrZero(x / 2)
  }

  function Power2(k: nat): (p: nat)
    ensures p > 0
  {
    if k == 0 then 1 else 2 * Power2(k - 1)
  }

  lemma {:induction false} CountrZeroBelow(x: nat, k: nat)
    requires 0 < x && x % Power2(k) != 0
    ensures CountrZero(x) < k
  {
    if x % 2 == 0 {
      var p := Power2(k - 1);
      if (x / 2) % p == 0 {
        assert x / 2 == (x / 2) / p * p;
        assert x == (2 * p) * ((x / 2) / p);
        Quotient(x, 2 * p, (x / 2) / p, 0);
      }
      CountrZeroBelow(x / 2, k - 1);
    }
  }

  lemma {:induction false} CountrZeroShift(x: nat, k: nat)
    requires 0 < x
    ensures x * Power2(k) > 0 && CountrZero(x * Power2(k)) == k + CountrZero(x)
  {
    if k > 0 {
      CountrZeroShift(x, k - 1);
      assert x * Power2(k) == 2 * (x * Power2(k - 1));
    }
  }

  function LeadingZeros(d: seq<nat>): (z: nat)
    ensures z <= |d| && (z < |d| ==> d[z] != 0)
    ensures forall i :: 0 <= i < z ==> d[i] == 0
  {
    if d == [] || d[0] != 0 then 0 else 1 + LeadingZeros(d[1..])
  }

  /** The trailing zero bits of the word, rounded down to bytes, are its leading zero digits. */
  lemma {:induction false} ZeroBits(d: seq<nat>)
    requires AreDigits(d) && Packed(d) > 0
    ensures LeadingZeros(d) < |d| && CountrZero(Packed(d)) / 8 == LeadingZeros(d)
  {
    if d[0] == 0 {
      ZeroBits(d[1..]);
      CountrZeroShift(Packed(d[1..]), 8);
      assert Power2(8) == 256;
    } else {
      assert Power2(8) == 256;
      CountrZeroBelow(Packed(d), 8);
    }
  }
}

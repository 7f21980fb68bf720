/** The CRC register as a linear map on 32-bit words.

    A register holds a polynomial over GF(2) of degree below 32 with its bits reflected: bit 31 is
    the coefficient of x^0 and bit 0 that of x^31.  Every operation is stated for an arbitrary
    generator `p`, because the engine runs the same code with the CRC32C generator and with the
    reversed one that undoes it. */
module CrcRegister {

  // ---------------------------------------------------------------------------------------------
  // Words
  // ---------------------------------------------------------------------------------------------

  /** Addition of polynomials. */
  function Xor(a: bv32, b: bv32): bv32
  {
    a ^ b
  }

  predicate Odd(a: bv32)
  {
    a & 1 == 1
  }

  function Half(a: bv32): bv32
  {
    a >> 1
  }

  lemma XorComm(a: bv32, b: bv32)
    ensures Xor(a, b) == Xor(b, a)
  {
  }

  lemma XorAssoc(a: bv32, b: bv32, c: bv32)
    ensures Xor(Xor(a, b), c) == Xor(a, Xor(b, c))
  {
    calc {
      Xor(Xor(a, b), c);
      Xor(a ^ b, c);
      (a ^ b) ^ c;
      a ^ (b ^ c);
      Xor(a, b ^ c);
      Xor(a, Xor(b, c));
    }
  }

  lemma XorSwap(a: bv32, b: bv32, c: bv32, d: bv32)
    ensures Xor(Xor(a, b), Xor(c, d)) == Xor(Xor(a, c), Xor(b, d))
  {
    calc {
      Xor(Xor(a, b), Xor(c, d));
      Xor(a ^ b, c ^ d);
      (a ^ b) ^ (c ^ d);
      (a ^ c) ^ (b ^ d);
      Xor(a ^ c, b ^ d);
      Xor(Xor(a, c), Xor(b, d));
    }
  }

  lemma XorZero(a: bv32)
    ensures Xor(a, 0) == a && Xor(0, a) == a && Xor(a, a) == 0
  {
  }

  lemma OddXor(a: bv32, b: bv32)
    ensures Odd(Xor(a, b)) == (Odd(a) != Odd(b))
  {
    LowBits(a, b);
  }

  lemma LowBits(a: bv32, b: bv32)
    ensures (a ^ b) & 1 == (a & 1) ^ (b & 1)
    ensures a & 1 == 0 || a & 1 == 1
    ensures b & 1 == 0 || b & 1 == 1
  {
  }

  lemma HalfXor(a: bv32, b: bv32)
    ensures Half(Xor(a, b)) == Xor(Half(a), Half(b))
  {
  }

  // ---------------------------------------------------------------------------------------------
  // One bit: multiplication by x modulo the generator
  // ---------------------------------------------------------------------------------------------

  /** Extends the register by one zero bit. */
  function Shift(p: bv32, r: bv32): bv32
  {
    if Odd(r) then Xor(Half(r), p) else Half(r)
  }

  /** The backward step of one zero bit. */
  function Unshift(p: bv32, r: bv32): bv32
  {
    if r & 0x80000000 == 0 then r << 1 else ((r ^ p) << 1) | 1
  }

  lemma ShiftLinear(p: bv32, a: bv32, b: bv32)
    ensures Shift(p, Xor(a, b)) == Xor(Shift(p, a), Shift(p, b))
  {
    hide Xor, Odd, Half;
    OddXor(a, b);
    HalfXor(a, b);
    if Odd(a) && Odd(b) {
      XorSwap(Half(a), p, Half(b), p);
      XorZero(p);
      XorZero(Xor(Half(a), Half(b)));
    } else if Odd(a) {
      XorAssoc(Half(a), p, Half(b));
      XorComm(p, Half(b));
      XorAssoc(Half(a), Half(b), p);
    } else if Odd(b) {
      XorAssoc(Half(a), Half(b), p);
    }
  }

  /** A generator whose top bit is set makes the one-bit step a bijection. */
  lemma ShiftInverse(p: bv32, r: bv32)
    requires p & 0x80000000 != 0
    ensures Unshift(p, Shift(p, r)) == r
    ensures Shift(p, Unshift(p, r)) == r
  {
    ShiftThenUnshift(p, r);
    UnshiftThenShift(p, r);
  }

  lemma ShiftThenUnshift(p: bv32, r: bv32)
    requires p & 0x80000000 != 0
    ensures Unshift(p, Shift(p, r)) == r
  {
    if r & 1 == 1 {
      assert ((r >> 1) ^ p) & 0x80000000 != 0;
    } else {
      assert r & 1 == 0;
      assert (r >> 1) & 0x80000000 == 0;
    }
  }

  lemma UnshiftThenShift(p: bv32, r: bv32)
    requires p & 0x80000000 != 0
    ensures Shift(p, Unshift(p, r)) == r
  {
    if r & 0x80000000 == 0 {
      assert (r << 1) & 1 == 0;
    } else {
      assert (((r ^ p) << 1) | 1) & 1 == 1;
    }
  }

  // ---------------------------------------------------------------------------------------------
  // Many bits
  // ---------------------------------------------------------------------------------------------

  function Shifts(p: bv32, r: bv32, n: nat): bv32
    decreases n
  {
    if n == 0 then r else Shifts(p, Shift(p, r), n - 1)
  }

  function Unshifts(p: bv32, r: bv32, n: nat): bv32
    decreases n
  {
    if n == 0 then r else Unshifts(p, Unshift(p, r), n - 1)
  }

  lemma {:induction false} ShiftsAdd(p: bv32, r: bv32, m: nat, n: nat)
    ensures Shifts(p, r, m + n) == Shifts(p, Shifts(p, r, m), n)
    decreases m
  {
    hide Shift;
    if m > 0 {
      ShiftsAdd(p, Shift(p, r), m - 1, n);
    }
  }

  lemma ShiftsLast(p: bv32, r: bv32, n: nat)
    ensures Shifts(p, r, n + 1) == Shift(p, Shifts(p, r, n))
  {
    hide Shift;
    ShiftsAdd(p, r, n, 1);
    assert Shifts(p, Shifts(p, r, n), 1) == Shifts(p, Shift(p, Shifts(p, r, n)), 0);
  }

  lemma {:induction false} ShiftsLinear(p: bv32, a: bv32, b: bv32, n: nat)
    ensures Shifts(p, Xor(a, b), n) == Xor(Shifts(p, a, n), Shifts(p, b, n))
    decreases n
  {
    hide Shift, Xor;
    if n > 0 {
      ShiftLinear(p, a, b);
      ShiftsLinear(p, Shift(p, a), Shift(p, b), n - 1);
    }
  }

  lemma {:induction false} ShiftsZero(p: bv32, n: nat)
    ensures Shifts(p, 0, n) == 0
    decreases n
  {
    if n > 0 {
      ShiftsZero(p, n - 1);
    }
  }

  /** Zero bits can be taken back, in either order. */
  lemma {:induction false} ShiftsInverse(p: bv32, r: bv32, n: nat)
    requires p & 0x80000000 != 0
    ensures Unshifts(p, Shifts(p, r, n), n) == r
    ensures Shifts(p, Unshifts(p, r, n), n) == r
    decreases n
  {
    hide Shift, Unshift;
    if n > 0 {
      ShiftsLast(p, r, n - 1);
      ShiftInverse(p, Shifts(p, r, n - 1));
      ShiftsInverse(p, r, n - 1);
      ShiftsInverse(p, Unshift(p, r), n - 1);
      ShiftsLast(p, Unshifts(p, Unshift(p, r), n - 1), n - 1);
      ShiftInverse(p, r);
    }
  }

  // ---------------------------------------------------------------------------------------------
  // Bytes
  // ---------------------------------------------------------------------------------------------

  /** Feeds a byte string into the register, eight bits per byte, low bit first. */
  function Fold(p: bv32, r: bv32, s: seq<bv8>): bv32
    decreases |s|
  {
    if s == [] then r else Fold(p, Shifts(p, Xor(r, s[0] as bv32), 8), s[1..])
  }

  lemma {:induction false} FoldAppend(p: bv32, r: bv32, s: seq<bv8>, t: seq<bv8>)
    ensures Fold(p, r, s + t) == Fold(p, Fold(p, r, s), t)
    decreases |s|
  {
    hide Shifts, Xor;
    if s == [] {
      assert s + t == t;
    } else {
      assert (s + t)[1..] == s[1..] + t;
      FoldAppend(p, Shifts(p, Xor(r, s[0] as bv32), 8), s[1..], t);
    }
  }

  /** The register that a byte string leaves behind is the sum of what its starting value becomes
      after that many zero bytes and what the string alone contributes. */
  lemma {:induction false} FoldAffine(p: bv32, r: bv32, s: seq<bv8>)
    ensures Fold(p, r, s) == Xor(Shifts(p, r, 8 * |s|), Fold(p, 0, s))
    decreases |s|
  {
    hide Shifts, Xor;
    if s == [] {
      assert Shifts(p, r, 0) == r by { ShiftsNone(p, r); }
      XorZero(r);
    } else {
      var b, n := s[0] as bv32, 8 * |s[1..]|;
      FoldAffine(p, Shifts(p, Xor(r, b), 8), s[1..]);
      FoldAffine(p, Shifts(p, Xor(0, b), 8), s[1..]);
      ShiftsAdd(p, Xor(r, b), 8, n);
      ShiftsAdd(p, Xor(0, b), 8, n);
      ShiftsLinear(p, r, b, 8 * |s|);
      XorZero(b);
      XorAssoc(Shifts(p, r, 8 * |s|), Shifts(p, b, 8 * |s|), Fold(p, 0, s[1..]));
    }
  }

  lemma ShiftsNone(p: bv32, r: bv32)
    ensures Shifts(p, r, 0) == r
  {
  }

  /** A string of zero bytes. */
  function Zeroes(n: nat): seq<bv8>
  {
    seq(n, _ => 0)
  }

  lemma {:induction false} FoldZeroes(p: bv32, r: bv32, n: nat)
    ensures Fold(p, r, Zeroes(n)) == Shifts(p, r, 8 * n)
    decreases n
  {
    hide Shifts, Xor;
    if n == 0 {
      ShiftsNone(p, r);
    } else {
      assert Zeroes(n)[1..] == Zeroes(n - 1);
      XorZero(r);
      FoldZeroes(p, Shifts(p, r, 8), n - 1);
      ShiftsAdd(p, r, 8, 8 * (n - 1));
    }
  }
}

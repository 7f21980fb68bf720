/** Products of CRC registers and the lookup tables of the engine.

    absl/crc/internal/crc.cc computes powers of x modulo the generator and stores them in tables.
    Each table is specified by what its entries do to a register: advance it by a number of bits. */
module CrcTables {
  import opened CrcRegister

  /** The polynomial 1. */
  const ONE: bv32 := 0x80000000

  // ---------------------------------------------------------------------------------------------
  // The product of two registers
  // ---------------------------------------------------------------------------------------------

  function Select(l: bv32, m: bv32): bv32
  {
    if Odd(l) then m else 0
  }

  /** Multiplies `m` by the `n` low bits of `l`, Horner's rule from the highest power of x, on top of
      the accumulator `h`. */
  function Horner(p: bv32, h: bv32, l: bv32, m: bv32, n: nat): bv32
    decreases n
  {
    if n == 0 then h else Horner(p, Xor(Shift(p, h), Select(l, m)), Half(l), m, n - 1)
  }

  /** The product of two registers modulo the generator. */
  function Times(p: bv32, l: bv32, m: bv32): bv32
  {
    Horner(p, 0, l, m, 32)
  }

  lemma SelectLinear(l: bv32, k: bv32, m: bv32)
    ensures Select(Xor(l, k), m) == Xor(Select(l, m), Select(k, m))
  {
    hide Xor, Odd;
    OddXor(l, k);
    XorZero(m);
    XorZero(0);
  }

  lemma {:induction false} HornerLinear(p: bv32, g: bv32, h: bv32, k: bv32, l: bv32, m: bv32, n: nat)
    ensures Horner(p, Xor(g, h), Xor(k, l), m, n) == Xor(Horner(p, g, k, m, n), Horner(p, h, l, m, n))
    decreases n
  {
    hide Shift, Xor, Select, Half;
    if n > 0 {
      ShiftLinear(p, g, h);
      SelectLinear(k, l, m);
      HalfXor(k, l);
      XorSwap(Shift(p, g), Shift(p, h), Select(k, m), Select(l, m));
      HornerLinear(p, Xor(Shift(p, g), Select(k, m)), Xor(Shift(p, h), Select(l, m)), Half(k), Half(l), m, n - 1);
    }
  }

  lemma SelectShift(p: bv32, l: bv32, m: bv32)
    ensures Select(l, Shift(p, m)) == Shift(p, Select(l, m))
  {
  }

  lemma {:induction false} HornerShift(p: bv32, h: bv32, l: bv32, m: bv32, n: nat)
    ensures Horner(p, Shift(p, h), l, Shift(p, m), n) == Shift(p, Horner(p, h, l, m, n))
    decreases n
  {
    hide Shift, Xor, Select, Half;
    if n > 0 {
      SelectShift(p, l, m);
      ShiftLinear(p, Shift(p, h), Select(l, m));
      HornerShift(p, Xor(Shift(p, h), Select(l, m)), Half(l), m, n - 1);
    }
  }

  lemma {:induction false} HornerAdd(p: bv32, h: bv32, l: bv32, m: bv32, j: nat, n: nat)
    ensures Horner(p, h, l, m, j + n) == Horner(p, Horner(p, h, l, m, j), Halve(l, j), m, n)
    decreases j
  {
    hide Shift, Xor, Select, Half;
    if j > 0 {
      HornerAdd(p, Xor(Shift(p, h), Select(l, m)), Half(l), m, j - 1, n);
    }
  }

  /** `l` shifted right by `n` bits. */
  function Halve(l: bv32, n: nat): bv32
    decreases n
  {
    if n == 0 then l else Halve(Half(l), n - 1)
  }

  // ---------------------------------------------------------------------------------------------
  // Multiplying by a power of x advances a register
  // ---------------------------------------------------------------------------------------------

  function Low(v: bv64): bv32
  {
    (v & 0xffffffff) as bv32
  }

  function High(v: bv64): bv32
  {
    (v >> 32) as bv32
  }

  function Drop(v: bv64, n: nat): bv64
    decreases n
  {
    if n == 0 then v else Drop(v >> 1, n - 1)
  }

  /** The `n` low bits of `v` are zero. */
  predicate Clear(v: bv64, n: nat)
    decreases n
  {
    n > 0 ==> v & 1 == 0 && Clear(v >> 1, n - 1)
  }

  lemma WideEven(v: bv64)
    requires v & 1 == 0
    ensures !Odd(Low(v))
    ensures Half(High(v)) == High(v >> 1)
  {
    assert ((v & 0xffffffff) as bv32) & 1 == 0;
  }

  lemma WideZero(v: bv64)
    requires !Odd(High(v))
    ensures Half(Low(v)) == Low(v >> 1)
  {
    assert ((v >> 32) as bv32) & 1 == 0;
  }

  lemma WideOne(v: bv64)
    requires Odd(High(v))
    ensures Xor(Half(Low(v)), ONE) == Low(v >> 1)
  {
    WideOneBits(v);
  }

  lemma WideOneBits(v: bv64)
    requires ((v >> 32) as bv32) & 1 == 1
    ensures (((v & 0xffffffff) as bv32) >> 1) ^ 0x80000000 == ((v >> 1) & 0xffffffff) as bv32
  {
  }

  lemma HornerOneBit(p: bv32, v: bv64)
    requires v & 1 == 0
    ensures Xor(Shift(p, Low(v)), Select(High(v), ONE)) == Low(v >> 1)
    ensures Half(High(v)) == High(v >> 1)
  {
    hide Xor, Odd, Half, Low, High;
    WideEven(v);
    if Odd(High(v)) {
      WideOne(v);
    } else {
      XorZero(Half(Low(v)));
      WideZero(v);
    }
  }

  /** Multiplying by 1 moves the bits of one word into the top of the other. */
  lemma {:induction false} HornerOne(p: bv32, v: bv64, n: nat)
    requires Clear(v, n)
    ensures Horner(p, Low(v), High(v), ONE, n) == Low(Drop(v, n))
    decreases n
  {
    hide Xor, Shift, Select, Low, High, Half;
    if n > 0 {
      HornerOneBit(p, v);
      HornerOne(p, v >> 1, n - 1);
    }
  }

  function ByteOff(v: bv64): bv64
  {
    v >> 8
  }

  predicate ByteZero(v: bv64)
  {
    v & 0xff == 0
  }

  lemma ByteClear(v: bv64, n: nat)
    requires ByteZero(v) && Clear(ByteOff(v), n)
    ensures Clear(v, n + 8) && Drop(v, n + 8) == Drop(ByteOff(v), n)
  {
    assert (v >> 7) & 1 == 0 && (v >> 7) >> 1 == v >> 8;
    assert Clear(v >> 7, n + 1) && Drop(v >> 7, n + 1) == Drop(v >> 8, n);
    assert (v >> 6) & 1 == 0 && (v >> 6) >> 1 == v >> 7;
    assert Clear(v >> 6, n + 2) && Drop(v >> 6, n + 2) == Drop(v >> 8, n);
    assert (v >> 5) & 1 == 0 && (v >> 5) >> 1 == v >> 6;
    assert Clear(v >> 5, n + 3) && Drop(v >> 5, n + 3) == Drop(v >> 8, n);
    assert (v >> 4) & 1 == 0 && (v >> 4) >> 1 == v >> 5;
    assert Clear(v >> 4, n + 4) && Drop(v >> 4, n + 4) == Drop(v >> 8, n);
    assert (v >> 3) & 1 == 0 && (v >> 3) >> 1 == v >> 4;
    assert Clear(v >> 3, n + 5) && Drop(v >> 3, n + 5) == Drop(v >> 8, n);
    assert (v >> 2) & 1 == 0 && (v >> 2) >> 1 == v >> 3;
    assert Clear(v >> 2, n + 6) && Drop(v >> 2, n + 6) == Drop(v >> 8, n);
    assert (v >> 1) & 1 == 0 && (v >> 1) >> 1 == v >> 2;
    assert Clear(v >> 1, n + 7) && Drop(v >> 1, n + 7) == Drop(v >> 8, n);
    assert v & 1 == 0;
  }

  lemma TimesOne(p: bv32, l: bv32)
    ensures Times(p, l, ONE) == l
  {
    hide Horner, Clear, Drop, Low, High, ByteOff, ByteZero;
    var v := WidePlace(l);
    assert Clear(v, 32) by {
      ClearWord(v);
    }
    calc {
      Times(p, l, ONE);
      Horner(p, Low(v), High(v), ONE, 32);
      { HornerOne(p, v, 32); }
      Low(Drop(v, 32));
      { ClearWord(v); }
      Low(ByteOff(ByteOff(ByteOff(ByteOff(v)))));
      l;
    }
  }

  lemma ClearWord(v: bv64)
    requires ByteZero(v) && ByteZero(ByteOff(v)) && ByteZero(ByteOff(ByteOff(v)))
    requires ByteZero(ByteOff(ByteOff(ByteOff(v))))
    ensures Clear(v, 32) && Drop(v, 32) == ByteOff(ByteOff(ByteOff(ByteOff(v))))
  {
    hide Clear, Drop, ByteOff, ByteZero;
    ClearNone(ByteOff(ByteOff(ByteOff(ByteOff(v)))));
    ClearPair(ByteOff(ByteOff(v)), 0);
    ClearPair(v, 16);
  }

  lemma ClearPair(v: bv64, n: nat)
    requires ByteZero(v) && ByteZero(ByteOff(v)) && Clear(ByteOff(ByteOff(v)), n)
    ensures Clear(v, n + 16) && Drop(v, n + 16) == Drop(ByteOff(ByteOff(v)), n)
  {
    hide Clear, Drop, ByteOff, ByteZero;
    ByteClear(ByteOff(v), n);
    ByteClear(v, n + 8);
  }

  lemma WidePlace(l: bv32) returns (v: bv64)
    ensures Low(v) == 0 && High(v) == l && Low(ByteOff(ByteOff(ByteOff(ByteOff(v))))) == l
    ensures ByteZero(v) && ByteZero(ByteOff(v)) && ByteZero(ByteOff(ByteOff(v)))
    ensures ByteZero(ByteOff(ByteOff(ByteOff(v))))
  {
    v := (l as bv64) << 32;
  }

  lemma ClearNone(v: bv64)
    ensures Clear(v, 0) && Drop(v, 0) == v
  {
  }

  /** Multiplying by x to the power `k` is the same as appending `k` zero bits. */
  lemma {:induction false} TimesPower(p: bv32, l: bv32, k: nat)
    ensures Times(p, l, Shifts(p, ONE, k)) == Shifts(p, l, k)
    decreases k
  {
    hide Shift, Horner;
    if k == 0 {
      TimesOne(p, l);
    } else {
      var m := Shifts(p, ONE, k - 1);
      TimesPower(p, l, k - 1);
      ShiftsLast(p, ONE, k - 1);
      ShiftsLast(p, l, k - 1);
      HornerShift(p, 0, l, m, 32);
      assert Shift(p, 0) == 0 by { ShiftOfZero(p); }
    }
  }

  lemma ShiftOfZero(p: bv32)
    ensures Shift(p, 0) == 0
  {
  }

  // ---------------------------------------------------------------------------------------------
  // PolyMultiply
  // ---------------------------------------------------------------------------------------------

  predicate Tests(l: bv32, one: bv32)
  {
    l & one != 0
  }

  /** `one` is bit `n - 1` alone; no bit at all when `n` is 0. */
  predicate Single(one: bv32, n: nat)
    decreases n
  {
    if n == 0 then one == 0 else if n == 1 then one == 1 else EvenBit(one) && Single(Half(one), n - 1)
  }

  predicate EvenBit(one: bv32)
  {
    one & 1 == 0 && one != 0
  }

  lemma SingleDouble(one: bv32, n: nat)
    requires n > 0 && Single(one, n) && one & 0x80000000 == 0 && one != 0
    ensures Single(one << 1, n + 1)
  {
    assert (one << 1) >> 1 == one && (one << 1) & 1 == 0;
  }

  lemma SingleTop()
    ensures Single(ONE, 32)
  {
    hide Single;
    SingleLow();
    SingleDouble(0x1, 1);
    SingleDouble(0x2, 2);
    SingleDouble(0x4, 3);
    SingleDouble(0x8, 4);
    SingleDouble(0x10, 5);
    SingleDouble(0x20, 6);
    SingleDouble(0x40, 7);
    SingleDouble(0x80, 8);
    SingleDouble(0x100, 9);
    SingleDouble(0x200, 10);
    SingleDouble(0x400, 11);
    SingleDouble(0x800, 12);
    SingleDouble(0x1000, 13);
    SingleDouble(0x2000, 14);
    SingleDouble(0x4000, 15);
    SingleDouble(0x8000, 16);
    SingleDouble(0x10000, 17);
    SingleDouble(0x20000, 18);
    SingleDouble(0x40000, 19);
    SingleDouble(0x80000, 20);
    SingleDouble(0x100000, 21);
    SingleDouble(0x200000, 22);
    SingleDouble(0x400000, 23);
    SingleDouble(0x800000, 24);
    SingleDouble(0x1000000, 25);
    SingleDouble(0x2000000, 26);
    SingleDouble(0x4000000, 27);
    SingleDouble(0x8000000, 28);
    SingleDouble(0x10000000, 29);
    SingleDouble(0x20000000, 30);
    SingleDouble(0x40000000, 31);
  }

  lemma SingleLow()
    ensures Single(1, 1)
  {
  }

  lemma TestsHalf(l: bv32, one: bv32)
    requires EvenBit(one)
    ensures Tests(l, one) == Tests(Half(l), Half(one))
  {
    AndHalf(l, one);
    HalfZero(l & one);
  }

  lemma AndHalf(l: bv32, one: bv32)
    requires one & 1 == 0
    ensures (l & one) & 1 == 0 && (l & one) >> 1 == (l >> 1) & (one >> 1)
  {
  }

  lemma HalfZero(x: bv32)
    requires x & 1 == 0
    ensures x == 0 <==> x >> 1 == 0
  {
  }

  lemma {:induction false} TestsHalves(l: bv32, one: bv32, n: nat)
    requires n > 0 && Single(one, n)
    ensures Tests(l, one) == Tests(Halve(l, n - 1), 1)
    decreases n
  {
    hide Tests, Half, EvenBit;
    if n > 1 {
      TestsHalf(l, one);
      TestsHalves(Half(l), Half(one), n - 1);
    }
  }

  /** What the bits of `l` from `one` downwards add to a product, highest bit first. */
  function Terms(p: bv32, l: bv32, m: bv32, one: bv32, n: nat): bv32
    decreases n
  {
    if n == 0 then 0
    else Xor(if Tests(l, one) then m else 0, Terms(p, l, Shift(p, m), Half(one), n - 1))
  }

  lemma SelectTests(l: bv32, m: bv32)
    ensures Select(l, m) == if Tests(l, 1) then m else 0
  {
  }

  lemma HornerLast(p: bv32, l: bv32, m: bv32, n: nat)
    ensures Horner(p, 0, l, m, n + 1) == Xor(Shift(p, Horner(p, 0, l, m, n)), Select(Halve(l, n), m))
  {
    hide Shift, Xor, Select, Halve;
    HornerAdd(p, 0, l, m, n, 1);
    var h := Horner(p, 0, l, m, n);
    assert Horner(p, h, Halve(l, n), m, 1)
        == Horner(p, Xor(Shift(p, h), Select(Halve(l, n), m)), Half(Halve(l, n)), m, 0);
  }

  lemma {:induction false} TermsAreHorner(p: bv32, l: bv32, m: bv32, one: bv32, n: nat)
    requires Single(one, n)
    ensures Terms(p, l, m, one, n) == Horner(p, 0, l, m, n)
    decreases n
  {
    hide Shift, Xor, Select, Halve, Half, Tests, EvenBit;
    if n > 0 {
      SingleStep(one, n);
      TermsAreHorner(p, l, Shift(p, m), Half(one), n - 1);
      ShiftOfZero(p);
      HornerShift(p, 0, l, m, n - 1);
      HornerLast(p, l, m, n - 1);
      TestsHalves(l, one, n);
      SelectTests(Halve(l, n - 1), m);
      XorComm(Shift(p, Horner(p, 0, l, m, n - 1)), Select(Halve(l, n - 1), m));
    }
  }

  lemma SingleStep(one: bv32, n: nat)
    requires n > 0 && Single(one, n)
    ensures Single(Half(one), n - 1)
  {
    hide EvenBit;
  }

  lemma {:induction false} SingleZero(one: bv32, n: nat)
    requires Single(one, n)
    ensures one == 0 <==> n == 0
  {
  }

  /** Polynomial long multiplication modulo the generator. */
  method PolyMultiply(val: bv32, m: bv32, poly: bv32) returns (result: bv32)
    ensures result == Times(poly, val, m)
  {
    hide Horner, Single, Xor, Shift, Half, Tests, Terms, Times;
    result := 0;
    var one: bv32 := 0x80000000;
    var shifted := m;
    ghost var n: nat := 32;
    SingleTop();
    TermsAreHorner(poly, val, m, one, 32);
    TimesIsHorner(poly, val, m);
    ZeroXor(Times(poly, val, m));
    while one != 0
      invariant Single(one, n)
      invariant Times(poly, val, m) == Xor(result, Terms(poly, val, shifted, one, n))
      decreases n
    {
      SingleZero(one, n);
      SingleStep(one, n);
      TermsStep(poly, val, shifted, one, n);
      var added := if Tests(val, one) then shifted else 0;
      XorAssoc(result, added, Terms(poly, val, Shift(poly, shifted), Half(one), n - 1));
      if Tests(val, one) {
        result := Xor(result, shifted);
      } else {
        XorZero(result);
      }
      shifted := Shift(poly, shifted);
      one, n := Half(one), n - 1;
    }
    SingleZero(one, n);
    TermsNone(poly, val, shifted, one);
    XorZero(result);
  }

  lemma TimesIsHorner(p: bv32, l: bv32, m: bv32)
    ensures Times(p, l, m) == Horner(p, 0, l, m, 32)
  {
  }

  lemma TermsStep(p: bv32, l: bv32, m: bv32, one: bv32, n: nat)
    requires 0 < n
    ensures Terms(p, l, m, one, n) == Xor(if Tests(l, one) then m else 0, Terms(p, l, Shift(p, m), Half(one), n - 1))
  {
    hide Xor, Shift, Half, Tests;
  }

  lemma TermsNone(p: bv32, l: bv32, m: bv32, one: bv32)
    ensures Terms(p, l, m, one, 0) == 0
  {
  }

  lemma ZeroXor(a: bv32)
    ensures a == Xor(0, a)
  {
  }

  // ---------------------------------------------------------------------------------------------
  // Tables indexed by a byte
  // ---------------------------------------------------------------------------------------------

  function Push(b: bv32, bit: bool): bv32
  {
    (b << 1) | (if bit then 1 else 0)
  }

  /** The word whose bits spell the number `n`. */
  function WordOf(n: nat): bv32
  {
    if n == 0 then 0 else Push(WordOf(n / 2), n % 2 == 1)
  }

  lemma {:induction false} WordOfByte(x: bv32)
    requires x < 256
    ensures WordOf(x as int) == x
    decreases x as int
  {
    hide Push;
    if x != 0 {
      ByteHalves(x);
      WordOfByte(x >> 1);
      PushHalf(x);
    }
  }

  lemma PushHalf(x: bv32)
    ensures Push(x >> 1, x & 1 == 1) == x
    ensures (x & 1) as int == if x & 1 == 1 then 1 else 0
  {
    LowBits(x, x);
    if x & 1 == 1 {
      assert ((x >> 1) << 1) | 1 == x;
    } else {
      assert ((x >> 1) << 1) | 0 == x;
    }
  }

  lemma ByteHalves(x: bv32)
    requires x < 256
    ensures x as int == 2 * ((x >> 1) as int) + ((x & 1) as int)
    ensures (x >> 1) < 128
  {
  }

  predicate PowerOfTwo(i: nat)
  {
    i == 1 || (i > 0 && i % 2 == 0 && PowerOfTwo(i / 2))
  }

  lemma PushXor(a: bv32, b: bv32, bit: bool)
    ensures Push(Xor(a, b), bit) == Xor(Push(a, false), Push(b, bit))
  {
    if bit {
      assert ((a ^ b) << 1) | 1 == ((a << 1) | 0) ^ ((b << 1) | 1);
    } else {
      assert ((a ^ b) << 1) | 0 == ((a << 1) | 0) ^ ((b << 1) | 0);
    }
  }

  lemma {:induction false} WordOfSum(i: nat, r: nat)
    requires PowerOfTwo(i) && r < i
    ensures WordOf(i + r) == Xor(WordOf(i), WordOf(r))
    decreases i
  {
    hide Xor, Push;
    if i == 1 {
      XorZero(WordOf(1));
    } else {
      assert (i + r) / 2 == i / 2 + r / 2 && (i + r) % 2 == r % 2;
      WordOfSum(i / 2, r / 2);
      PushXor(WordOf(i / 2), WordOf(r / 2), r % 2 == 1);
      if r == 0 {
        XorZero(WordOf(i));
      }
    }
  }

  lemma PushShift(p: bv32, b: bv32)
    requires b & 0x80000000 == 0
    ensures Shift(p, Push(b, false)) == b
  {
    PushBits(b);
  }

  lemma PushBits(b: bv32)
    requires b & 0x80000000 == 0
    ensures ((b << 1) | 0) & 1 == 0 && ((b << 1) | 0) >> 1 == b
  {
  }

  predicate Bound(n: nat, b: bv32)
  {
    || (n == 1 && b == 1)
    || (n == 2 && b == 2)
    || (n == 4 && b == 4)
    || (n == 8 && b == 8)
    || (n == 16 && b == 16)
    || (n == 32 && b == 32)
    || (n == 64 && b == 64)
    || (n == 128 && b == 128)
    || (n == 256 && b == 256)
  }

  lemma {:induction false} WordOfIndex(i: nat, n: nat, b: bv32)
    requires i < n && Bound(n, b)
    ensures WordOf(i) < b
    decreases i
  {
    if i > 0 {
      WordOfIndex(i / 2, n / 2, b >> 1);
      PushBound(WordOf(i / 2), i % 2 == 1, n, b);
    }
  }

  lemma PushBound(w: bv32, bit: bool, n: nat, b: bv32)
    requires n > 1 && Bound(n, b) && w < (b >> 1)
    ensures Push(w, bit) < b
  {
  }

  lemma ByteTop(x: bv32)
    requires x < 256
    ensures x & 0x80000000 == 0
  {
  }

  lemma ShiftDouble(p: bv32, i: nat)
    requires 0 < i < 128
    ensures Shift(p, WordOf(2 * i)) == WordOf(i)
  {
    assert WordOf(2 * i) == Push(WordOf(i), false);
    WordOfIndex(i, 128, 128);
    ByteTop(WordOf(i));
    PushShift(p, WordOf(i));
  }

  /** The entry for byte `i` of a table that advances by `bits` bits. */
  function Entry(p: bv32, i: nat, bits: nat): bv32
  {
    Shifts(p, WordOf(i), bits)
  }

  lemma EntryHalf(p: bv32, i: nat, bits: nat)
    requires 0 < i < 128
    ensures Entry(p, i, bits) == Shift(p, Entry(p, 2 * i, bits))
  {
    hide Shift, WordOf;
    ShiftDouble(p, i);
    ShiftsLast(p, WordOf(2 * i), bits);
    assert Shifts(p, WordOf(2 * i), bits + 1) == Shifts(p, Shift(p, WordOf(2 * i)), bits);
  }

  lemma ShiftsTopByte(p: bv32)
    ensures Shifts(p, WordOf(128), 7) == WordOf(1)
  {
    hide Shift, WordOf;
    calc {
      Shifts(p, WordOf(128), 7);
      { ShiftDouble(p, 64); }
      Shifts(p, WordOf(64), 6);
      { ShiftDouble(p, 32); }
      Shifts(p, WordOf(32), 5);
      { ShiftDouble(p, 16); }
      Shifts(p, WordOf(16), 4);
      { ShiftDouble(p, 8); }
      Shifts(p, WordOf(8), 3);
      { ShiftDouble(p, 4); }
      Shifts(p, WordOf(4), 2);
      { ShiftDouble(p, 2); }
      Shifts(p, WordOf(2), 1);
      { ShiftDouble(p, 1); }
      Shifts(p, WordOf(1), 0);
    }
  }

  lemma EntryTop(p: bv32, bits: nat)
    ensures Entry(p, 128, bits + 8) == Shift(p, Entry(p, 1, bits))
  {
    hide Shift, WordOf;
    ShiftsTopByte(p);
    ShiftsAdd(p, WordOf(128), 7, bits + 1);
    ShiftsLast(p, WordOf(1), bits);
  }

  lemma EntryFirst(p: bv32, z: nat)
    ensures Entry(p, 128, 8 + z) == Shifts(p, p, z)
  {
    hide Shift, WordOf;
    ShiftsTopByte(p);
    ShiftsAdd(p, WordOf(128), 7, z + 1);
    assert Shift(p, WordOf(1)) == p by { ShiftOfLow(p); }
  }

  lemma ShiftOfLow(p: bv32)
    ensures Shift(p, WordOf(1)) == p
  {
    assert WordOf(1) == Push(0, true);
    assert ((1 as bv32) >> 1) ^ p == p;
  }

  lemma EntrySum(p: bv32, i: nat, r: nat, bits: nat)
    requires PowerOfTwo(i) && r < i
    ensures Entry(p, i + r, bits) == Xor(Entry(p, i, bits), Entry(p, r, bits))
  {
    hide Shift, WordOf, Xor;
    WordOfSum(i, r);
    ShiftsLinear(p, WordOf(i), WordOf(r), bits);
  }

  /** The row advances every byte by `bits` bits. */
  ghost predicate Row(p: bv32, row: array<bv32>, bits: nat)
    reads row
  {
    row.Length == 256 && forall i :: 0 <= i < 256 ==> row[i] == Entry(p, i, bits)
  }

  /** The entries for the powers of two above `i` are in place. */
  ghost predicate Powers(p: bv32, row: array<bv32>, bits: nat, i: nat)
    requires row.Length == 256
    reads row
  {
    && row[0] == Entry(p, 0, bits)
    && forall k: nat :: i < k <= 128 && PowerOfTwo(k) ==> row[k] == Entry(p, k, bits)
  }

  lemma {:induction false} NoPowerBetween(i: nat, k: nat)
    requires PowerOfTwo(i) && PowerOfTwo(k) && i < k
    ensures 2 * i <= k
    decreases i
  {
    if i > 1 {
      NoPowerBetween(i / 2, k / 2);
    }
  }

  lemma PowerDouble(i: nat)
    requires PowerOfTwo(i)
    ensures i > 0 && PowerOfTwo(2 * i)
    ensures i > 1 ==> i % 2 == 0 && PowerOfTwo(i / 2)
  {
    var d := 2 * i;
    assert d % 2 == 0 && d / 2 == i;
  }

  lemma SmallPowers()
    ensures PowerOfTwo(2) && PowerOfTwo(128) && PowerOfTwo(256)
  {
    assert PowerOfTwo(8);
    assert PowerOfTwo(32);
  }

  /** Fills the tables of one word: row `j` advances a byte to the end of the word and past its
      `j` following bytes, on top of the `z` bits that `last` has already been advanced. */
  method FillWordTable(poly: bv32, last: bv32, t: seq<array<bv32>>, ghost z: nat)
    requires forall j :: 0 <= j < |t| ==> t[j].Length == 256
    requires forall j, k :: 0 <= j < k < |t| ==> t[j] != t[k]
    requires last == Shifts(poly, poly, z)
    modifies t
    ensures forall j :: 0 <= j < |t| ==> Row(poly, t[j], 8 * j + 8 + z)
  {
    hide Shift, Entry, Xor, Shifts;
    for j := 0 to |t|
      invariant forall k :: 0 <= k < j ==> Row(poly, t[k], 8 * k + 8 + z)
    {
      ghost var bits := 8 * j + 8 + z;
      var top;
      if j == 0 {
        top := last;
        EntryFirst(poly, z);
      } else {
        assert Row(poly, t[j - 1], 8 * (j - 1) + 8 + z);
        top := Shift(poly, t[j - 1][1]);
        EntryTop(poly, 8 * j + z);
      }
      FillPowers(poly, top, t[j], bits);
      FillSums(poly, t[j], bits);
    }
  }

  /** Each power of two below the top is derived from the one above it. */
  method FillPowers(poly: bv32, top: bv32, row: array<bv32>, ghost bits: nat)
    requires row.Length == 256 && top == Entry(poly, 128, bits)
    modifies row
    ensures Powers(poly, row, bits, 0)
  {
    hide Shift, Entry, PowerOfTwo;
    row[0] := 0;
    EntryZero(poly, bits);
    row[128] := top;
    var i: nat := 128;
    SmallPowers();
    while i != 1
      invariant PowerOfTwo(i) && 0 < i <= 128
      invariant row[0] == Entry(poly, 0, bits)
      invariant forall k: nat :: i <= k <= 128 && PowerOfTwo(k) ==> row[k] == Entry(poly, k, bits)
      decreases i
    {
      PowerDouble(i);
      forall k: nat | i / 2 < k && PowerOfTwo(k)
        ensures i <= k
      {
        NoPowerBetween(i / 2, k);
      }
      i := i / 2;
      EntryHalf(poly, i, bits);
      row[i] := Shift(poly, row[2 * i]);
    }
  }

  /** Every other entry is the sum of the entries of its bits. */
  method FillSums(poly: bv32, row: array<bv32>, ghost bits: nat)
    requires row.Length == 256 && Powers(poly, row, bits, 0)
    modifies row
    ensures Row(poly, row, bits)
  {
    hide Entry, PowerOfTwo;
    var i: nat := 2;
    SmallPowers();
    assert PowerOfTwo(1) by { PowerDouble(2); }
    while i < 256
      invariant PowerOfTwo(i) && 2 <= i <= 256
      invariant Powers(poly, row, bits, 0)
      invariant forall m :: 0 <= m < i ==> row[m] == Entry(poly, m, bits)
      decreases 256 - i
    {
      NoPowerBetween(i, 256);
      FillBlock(poly, row, i, bits);
      PowerDouble(i);
      i := 2 * i;
    }
  }

  method FillBlock(poly: bv32, row: array<bv32>, i: nat, ghost bits: nat)
    requires row.Length == 256 && PowerOfTwo(i) && 0 < i <= 128
    requires forall m :: 0 <= m <= i ==> row[m] == Entry(poly, m, bits)
    modifies row
    ensures forall m :: 0 <= m < 2 * i ==> row[m] == Entry(poly, m, bits)
    ensures forall m :: 2 * i <= m < 256 ==> row[m] == old(row[m])
  {
    hide Entry, Xor, PowerOfTwo;
    for k := i + 1 to 2 * i
      invariant forall m :: 0 <= m < k ==> row[m] == Entry(poly, m, bits)
      invariant forall m :: 2 * i <= m < 256 ==> row[m] == old(row[m])
    {
      EntrySum(poly, i, k - i, bits);
      row[k] := Xor(row[i], row[k - i]);
    }
  }

  lemma EntryZero(p: bv32, bits: nat)
    ensures Entry(p, 0, bits) == 0
  {
    ShiftsZero(p, bits);
  }
}

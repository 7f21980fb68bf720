/** The table-driven CRC32C engine of absl/crc/internal/crc.cc.

    Every operation of class CRC32 is proved to compute what the bit-serial register of
    CrcRegister computes, whatever route it takes through its tables. */
module CrcEngine {
  import opened CrcRegister
  import opened CrcTables
  import opened CrcWide

  /** The CRC32C generator, x^32 + x^28 + ... + 1, bits reflected (section 12.1 of RFC 3720). */
  const POLY: bv32 := 0x82f63b78

  const SIZE_LIMIT: nat := 0x1_0000_0000_0000_0000

  // ---------------------------------------------------------------------------------------------
  // Bytes and words of a register
  // ---------------------------------------------------------------------------------------------

  function Byte0(x: bv32): bv32
  {
    x & 0xff
  }

  function Above(x: bv32): bv32
  {
    x >> 8
  }

  lemma Byte0Small(x: bv32)
    ensures Byte0(x) < 256
  {
  }

  lemma WideBytes(x: bv32)
    ensures DropByte(Wide(x)) == Wide(Above(x))
    ensures LowByte(Wide(x)) == Byte0(x)
  {
  }

  /** One byte of zeroes, through the table of bytes. */
  lemma ByteStep(p: bv32, x: bv32)
    ensures Shifts(p, x, 8) == Xor(Above(x), Shifts(p, Byte0(x), 8))
  {
    hide Wide, WShifts, Shifts, DropByte, LowByte, Above, Byte0, WXor, Xor;
    WideShifts(p, x, 8);
    Reduce(p, Wide(x));
    WideBytes(x);
    WideXor(Above(x), Shifts(p, Byte0(x), 8));
    WideInjective(Shifts(p, x, 8), Xor(Above(x), Shifts(p, Byte0(x), 8)));
  }

  /** The contribution of the low byte of a register, and of the bytes above it. */
  lemma Peel(p: bv32, x: bv32, n: nat)
    ensures Shifts(p, x, n + 8) == Xor(Shifts(p, Byte0(x), n + 8), Shifts(p, Above(x), n))
  {
    hide Shifts, Above, Byte0, Xor;
    ShiftsAdd(p, x, 8, n);
    ByteStep(p, x);
    ShiftsLinear(p, Above(x), Shifts(p, Byte0(x), 8), n);
    ShiftsAdd(p, Byte0(x), 8, n);
    XorComm(Shifts(p, Above(x), n), Shifts(p, Byte0(x), n + 8));
  }

  /** The number a little-endian load of `s` yields. */
  function Load(s: seq<bv8>): bv32
    decreases |s|
  {
    if s == [] then 0 else Xor(s[0] as bv32, Load(s[1..]) << 8)
  }

  predicate Fits(x: bv32, n: nat)
  {
    (n == 0 ==> x == 0) && (n == 1 ==> x < 0x100) && (n == 2 ==> x < 0x1_0000) && (n == 3 ==> x < 0x100_0000)
  }

  lemma FitsStep(b: bv8, x: bv32, n: nat)
    requires Fits(x, n) && n < 4
    ensures Fits(Xor(b as bv32, x << 8), n + 1)
  {
    if n == 0 {
      assert (b as bv32) ^ ((0 as bv32) << 8) < 0x100;
    } else if n == 1 {
      FitsOne(b, x);
    } else if n == 2 {
      FitsTwo(b, x);
    }
  }

  lemma FitsOne(b: bv8, x: bv32)
    requires x < 0x100
    ensures (b as bv32) ^ (x << 8) < 0x1_0000
  {
  }

  lemma FitsTwo(b: bv8, x: bv32)
    requires x < 0x1_0000
    ensures (b as bv32) ^ (x << 8) < 0x100_0000
  {
  }

  lemma {:induction false} LoadFits(s: seq<bv8>)
    requires |s| <= 4
    ensures Fits(Load(s), |s|)
    decreases |s|
  {
    hide Fits, Xor;
    if s == [] {
      FitsZero();
    } else {
      LoadFits(s[1..]);
      FitsStep(s[0], Load(s[1..]), |s| - 1);
    }
  }

  lemma FitsZero()
    ensures Fits(0, 0)
  {
  }

  lemma PlacedByte(p: bv32, x: bv32, n: nat)
    requires Fits(x, n) && n < 4
    ensures Shifts(p, x << 8, 8) == x
  {
    hide Shifts, Above, Byte0, Xor, Fits;
    ByteStep(p, x << 8);
    PlacedBits(x, n);
    ShiftsZero(p, 8);
    XorZero(x);
  }

  lemma PlacedBits(x: bv32, n: nat)
    requires Fits(x, n) && n < 4
    ensures Above(x << 8) == x && Byte0(x << 8) == 0
  {
    assert x < 0x100_0000;
    PlacedWord(x);
  }

  lemma PlacedWord(x: bv32)
    requires x < 0x100_0000
    ensures (x << 8) >> 8 == x && (x << 8) & 0xff == 0
  {
  }

  /** Feeding up to four bytes is feeding the word they load to. */
  lemma {:induction false} FoldLoad(p: bv32, r: bv32, s: seq<bv8>)
    requires |s| <= 4
    ensures Fold(p, r, s) == Shifts(p, Xor(r, Load(s)), 8 * |s|)
    decreases |s|
  {
    hide Shifts, Xor, Fits;
    if s == [] {
      ShiftsNone(p, Xor(r, 0));
      XorZero(r);
    } else {
      var b, y, n := s[0] as bv32, Load(s[1..]), |s| - 1;
      FoldLoad(p, Shifts(p, Xor(r, b), 8), s[1..]);
      LoadFits(s[1..]);
      PlacedByte(p, y, n);
      ShiftsLinear(p, Xor(r, b), y << 8, 8);
      XorAssoc(r, b, y << 8);
      ShiftsAdd(p, Xor(r, Load(s)), 8, 8 * n);
    }
  }

  // ---------------------------------------------------------------------------------------------
  // Four interleaved registers
  // ---------------------------------------------------------------------------------------------

  /** The register that four words leave behind when they are fed one after another. */
  function Combine(p: bv32, b0: bv32, b1: bv32, b2: bv32, b3: bv32): bv32
  {
    Xor(Xor(Shifts(p, b0, 128), Shifts(p, b1, 96)), Xor(Shifts(p, b2, 64), Shifts(p, b3, 32)))
  }

  lemma CombineLinear(p: bv32, a0: bv32, a1: bv32, a2: bv32, a3: bv32, b0: bv32, b1: bv32, b2: bv32, b3: bv32)
    ensures Combine(p, Xor(a0, b0), Xor(a1, b1), Xor(a2, b2), Xor(a3, b3))
         == Xor(Combine(p, a0, a1, a2, a3), Combine(p, b0, b1, b2, b3))
  {
    hide Shifts, Xor;
    ShiftsLinear(p, a0, b0, 128);
    ShiftsLinear(p, a1, b1, 96);
    ShiftsLinear(p, a2, b2, 64);
    ShiftsLinear(p, a3, b3, 32);
    XorSwap(Shifts(p, a0, 128), Shifts(p, b0, 128), Shifts(p, a1, 96), Shifts(p, b1, 96));
    XorSwap(Shifts(p, a2, 64), Shifts(p, b2, 64), Shifts(p, a3, 32), Shifts(p, b3, 32));
    XorSwap(Xor(Shifts(p, a0, 128), Shifts(p, a1, 96)), Xor(Shifts(p, b0, 128), Shifts(p, b1, 96)),
            Xor(Shifts(p, a2, 64), Shifts(p, a3, 32)), Xor(Shifts(p, b2, 64), Shifts(p, b3, 32)));
  }

  lemma CombineShifts(p: bv32, b0: bv32, b1: bv32, b2: bv32, b3: bv32, n: nat)
    ensures Combine(p, Shifts(p, b0, n), Shifts(p, b1, n), Shifts(p, b2, n), Shifts(p, b3, n))
         == Shifts(p, Combine(p, b0, b1, b2, b3), n)
  {
    hide Shifts, Xor;
    ShiftsSwap(p, b0, n, 128);
    ShiftsSwap(p, b1, n, 96);
    ShiftsSwap(p, b2, n, 64);
    ShiftsSwap(p, b3, n, 32);
    ShiftsLinear(p, Shifts(p, b0, 128), Shifts(p, b1, 96), n);
    ShiftsLinear(p, Shifts(p, b2, 64), Shifts(p, b3, 32), n);
    ShiftsLinear(p, Xor(Shifts(p, b0, 128), Shifts(p, b1, 96)), Xor(Shifts(p, b2, 64), Shifts(p, b3, 32)), n);
  }

  lemma ShiftsSwap(p: bv32, r: bv32, m: nat, n: nat)
    ensures Shifts(p, Shifts(p, r, m), n) == Shifts(p, Shifts(p, r, n), m)
  {
    hide Shifts;
    ShiftsAdd(p, r, m, n);
    ShiftsAdd(p, r, n, m);
  }

  /** Feeding the words one after another, as the engine's final loop does. */
  function Chain(p: bv32, r: bv32, b0: bv32, b1: bv32, b2: bv32, b3: bv32): bv32
  {
    var l0 := Shifts(p, Xor(b0, r), 32);
    var l1 := Shifts(p, Xor(b1, l0), 32);
    var l2 := Shifts(p, Xor(b2, l1), 32);
    Shifts(p, Xor(b3, l2), 32)
  }

  lemma ChainIsCombine(p: bv32, r: bv32, b0: bv32, b1: bv32, b2: bv32, b3: bv32)
    ensures Chain(p, r, b0, b1, b2, b3) == Xor(Shifts(p, r, 128), Combine(p, b0, b1, b2, b3))
  {
    hide Shifts, Xor;
    var x := Xor(b0, r);
    var l0 := Shifts(p, x, 32);
    var l1 := Shifts(p, Xor(b1, l0), 32);
    var l2 := Shifts(p, Xor(b2, l1), 32);
    ShiftsLinear(p, b1, l0, 32);
    ShiftsAdd(p, x, 32, 32);
    ShiftsLinear(p, b2, l1, 32);
    ShiftsLinear(p, Shifts(p, b1, 32), Shifts(p, x, 64), 32);
    ShiftsAdd(p, b1, 32, 32);
    ShiftsAdd(p, x, 64, 32);
    ShiftsLinear(p, b3, l2, 32);
    ShiftsLinear(p, Shifts(p, b2, 32), Xor(Shifts(p, b1, 64), Shifts(p, x, 96)), 32);
    ShiftsAdd(p, b2, 32, 32);
    ShiftsLinear(p, Shifts(p, b1, 64), Shifts(p, x, 96), 32);
    ShiftsAdd(p, b1, 64, 32);
    ShiftsAdd(p, x, 96, 32);
    ShiftsLinear(p, b0, r, 128);
    ChainShuffle(Shifts(p, r, 128), Shifts(p, b0, 128), Shifts(p, b1, 96), Shifts(p, b2, 64), Shifts(p, b3, 32));
  }

  lemma ChainShuffle(r: bv32, a: bv32, b: bv32, c: bv32, d: bv32)
    ensures Xor(d, Xor(c, Xor(b, Xor(a, r)))) == Xor(r, Xor(Xor(a, b), Xor(c, d)))
  {
    calc {
      Xor(d, Xor(c, Xor(b, Xor(a, r))));
      Xor(d, Xor(c, Xor(b, a ^ r)));
      Xor(d, Xor(c, b ^ (a ^ r)));
      Xor(d, c ^ (b ^ (a ^ r)));
      d ^ (c ^ (b ^ (a ^ r)));
      r ^ ((a ^ b) ^ (c ^ d));
      Xor(r, (a ^ b) ^ (c ^ d));
      Xor(r, Xor(a ^ b, c ^ d));
      Xor(r, Xor(Xor(a, b), Xor(c, d)));
    }
  }

  /** Sixteen bytes as four words. */
  lemma FoldWords(p: bv32, r: bv32, s: seq<bv8>)
    requires |s| == 16
    ensures Fold(p, r, s) == Xor(Shifts(p, r, 128),
                                 Combine(p, Load(s[0..4]), Load(s[4..8]), Load(s[8..12]), Load(s[12..16])))
  {
    hide Shifts, Xor, Combine, Fold, Load;
    var w0, w1, w2, w3 := Load(s[0..4]), Load(s[4..8]), Load(s[8..12]), Load(s[12..16]);
    var l0 := Shifts(p, Xor(w0, r), 32);
    var l1 := Shifts(p, Xor(w1, l0), 32);
    var l2 := Shifts(p, Xor(w2, l1), 32);
    assert s == s[0..4] + s[4..];
    FoldAppend(p, r, s[0..4], s[4..]);
    FoldLoad(p, r, s[0..4]);
    XorComm(w0, r);
    assert s[4..] == s[4..8] + s[8..];
    FoldAppend(p, l0, s[4..8], s[8..]);
    FoldLoad(p, l0, s[4..8]);
    XorComm(w1, l0);
    assert s[8..] == s[8..12] + s[12..16];
    FoldAppend(p, l1, s[8..12], s[12..16]);
    FoldLoad(p, l1, s[8..12]);
    XorComm(w2, l1);
    FoldLoad(p, l2, s[12..16]);
    XorComm(w3, l2);
    ChainIsCombine(p, r, w0, w1, w2, w3);
  }

  /** Loading the first sixteen bytes with the register added to the first word. */
  lemma StartSwath(p: bv32, r: bv32, s: seq<bv8>)
    requires |s| == 16
    ensures Combine(p, Xor(Load(s[0..4]), r), Load(s[4..8]), Load(s[8..12]), Load(s[12..16])) == Fold(p, r, s)
  {
    hide Shifts, Xor, Fold, Load, Combine;
    var w0, w1, w2, w3 := Load(s[0..4]), Load(s[4..8]), Load(s[8..12]), Load(s[12..16]);
    FoldWords(p, r, s);
    CombineLinear(p, w0, w1, w2, w3, r, 0, 0, 0);
    XorZero(w1);
    XorZero(w2);
    XorZero(w3);
    CombineFirst(p, r);
    XorComm(Combine(p, w0, w1, w2, w3), Shifts(p, r, 128));
  }

  lemma CombineFirst(p: bv32, r: bv32)
    ensures Combine(p, r, 0, 0, 0) == Shifts(p, r, 128)
  {
    hide Shifts, Xor;
    ShiftsZero(p, 96);
    ShiftsZero(p, 64);
    ShiftsZero(p, 32);
    XorZero(0);
    XorZero(Shifts(p, r, 128));
  }

  /** All four registers take in their next word of a sixteen-byte stride. */
  lemma Stride(p: bv32, b0: bv32, b1: bv32, b2: bv32, b3: bv32, s: seq<bv8>)
    requires |s| == 16
    ensures Combine(p, Xor(Load(s[0..4]), Shifts(p, b0, 128)), Xor(Load(s[4..8]), Shifts(p, b1, 128)),
                    Xor(Load(s[8..12]), Shifts(p, b2, 128)), Xor(Load(s[12..16]), Shifts(p, b3, 128)))
         == Fold(p, Combine(p, b0, b1, b2, b3), s)
  {
    hide Shifts, Xor, Fold, Load, Combine;
    var w0, w1, w2, w3 := Load(s[0..4]), Load(s[4..8]), Load(s[8..12]), Load(s[12..16]);
    FoldWords(p, Combine(p, b0, b1, b2, b3), s);
    CombineLinear(p, w0, w1, w2, w3, Shifts(p, b0, 128), Shifts(p, b1, 128), Shifts(p, b2, 128), Shifts(p, b3, 128));
    CombineShifts(p, b0, b1, b2, b3, 128);
    XorComm(Combine(p, w0, w1, w2, w3), Shifts(p, Combine(p, b0, b1, b2, b3), 128));
  }

  /** One register takes in one word and becomes the last of the four. */
  lemma Rotate(p: bv32, b0: bv32, b1: bv32, b2: bv32, b3: bv32, s: seq<bv8>)
    requires |s| == 4
    ensures Combine(p, b1, b2, b3, Xor(Load(s), Shifts(p, b0, 128))) == Fold(p, Combine(p, b0, b1, b2, b3), s)
  {
    hide Shifts, Xor, Fold, Load;
    var c, w := Combine(p, b0, b1, b2, b3), Load(s);
    FoldLoad(p, c, s);
    ShiftsLinear(p, c, w, 32);
    ShiftsLinear(p, Xor(Shifts(p, b0, 128), Shifts(p, b1, 96)), Xor(Shifts(p, b2, 64), Shifts(p, b3, 32)), 32);
    ShiftsLinear(p, Shifts(p, b0, 128), Shifts(p, b1, 96), 32);
    ShiftsLinear(p, Shifts(p, b2, 64), Shifts(p, b3, 32), 32);
    ShiftsLinear(p, w, Shifts(p, b0, 128), 32);
    ShiftsAdd(p, b1, 96, 32);
    ShiftsAdd(p, b2, 64, 32);
    ShiftsAdd(p, b3, 32, 32);
    RotateShuffle(Shifts(p, b1, 128), Shifts(p, b2, 96), Shifts(p, b3, 64), Shifts(p, w, 32),
                  Shifts(p, Shifts(p, b0, 128), 32));
  }

  lemma RotateShuffle(a: bv32, b: bv32, c: bv32, w: bv32, d: bv32)
    ensures Xor(Xor(a, b), Xor(c, Xor(w, d))) == Xor(Xor(Xor(d, a), Xor(b, c)), w)
  {
    calc {
      Xor(Xor(a, b), Xor(c, Xor(w, d)));
      Xor(a ^ b, Xor(c, w ^ d));
      Xor(a ^ b, c ^ (w ^ d));
      (a ^ b) ^ (c ^ (w ^ d));
      ((d ^ a) ^ (b ^ c)) ^ w;
      Xor((d ^ a) ^ (b ^ c), w);
      Xor(Xor(d ^ a, b ^ c), w);
      Xor(Xor(Xor(d, a), Xor(b, c)), w);
    }
  }

  // ---------------------------------------------------------------------------------------------
  // Runs of zero bytes
  // ---------------------------------------------------------------------------------------------

  function Pow16(b: nat): (r: nat)
    ensures r >= 1
  {
    if b == 0 then 1 else 16 * Pow16(b - 1)
  }

  /** The number of zero bytes that entry `k` of a zeroes table stands for: a * 16^b for the digit `a`
      from 1 to 15 at place `b`. */
  function ZeroRun(k: nat): nat
  {
    (k % 15 + 1) * Pow16(k / 15)
  }

  /** The entries are powers of x: entry `k` advances a register past ZeroRun(k) zero bytes. */
  ghost predicate ZeroesTable(p: bv32, t: array<bv32>)
    reads t
  {
    t.Length == 256 && forall k :: 0 <= k < 240 ==> t[k] == Shifts(p, ONE, 8 * ZeroRun(k))
  }

  lemma PowerProduct(p: bv32, i: nat, j: nat)
    ensures Times(p, Shifts(p, ONE, i), Shifts(p, ONE, j)) == Shifts(p, ONE, i + j)
  {
    hide Shifts, Times;
    TimesPower(p, Shifts(p, ONE, i), j);
    ShiftsAdd(p, ONE, i, j);
  }

  lemma FirstPower(p: bv32)
    ensures (0x80000000 as bv32) >> 1 == Shifts(p, ONE, 1)
  {
    assert (0x80000000 as bv32) & 1 == 0;
    assert Shifts(p, ONE, 1) == Shifts(p, Shift(p, ONE), 0);
  }

  lemma DigitPlace(a: nat, b: nat)
    requires 1 <= a <= 15
    ensures ZeroRun(15 * b + a - 1) == a * Pow16(b)
  {
    hide Pow16, ZeroRun;
    var k := 15 * b + a - 1;
    DigitIndex(k, a - 1, b);
    ZeroRunDef(k);
  }

  lemma ZeroRunDef(k: nat)
    ensures ZeroRun(k) == (k % 15 + 1) * Pow16(k / 15)
  {
  }

  lemma DigitIndex(k: nat, a: nat, b: nat)
    requires k == 15 * b + a && a < 15
    ensures k / 15 == b && k % 15 == a
  {
  }

  lemma Pow16Limit()
    ensures Pow16(16) == SIZE_LIMIT
  {
    assert Pow16(4) == 0x1_0000;
    assert Pow16(8) == 0x1_0000_0000;
    assert Pow16(12) == 0x1_0000_0000_0000;
  }

  lemma {:induction false} Pow16Below(b: nat)
    requires b < 16
    ensures Pow16(b) < SIZE_LIMIT
    decreases 16 - b
  {
    Pow16Limit();
    if b < 15 {
      Pow16Below(b + 1);
    }
  }

  method FillZeroesTable(poly: bv32, t: array<bv32>) returns (j: nat)
    requires t.Length == 256
    modifies t
    ensures j == 240 && ZeroesTable(poly, t)
  {
    hide Shifts, Times, ZeroRun, Pow16;
    var inc: bv32 := 0x80000000;
    inc := inc >> 1;
    FirstPower(poly);
    ghost var bits: nat := 1;
    for i := 0 to 3
      invariant bits == if i == 0 then 1 else if i == 1 then 2 else if i == 2 then 4 else 8
      invariant inc == Shifts(poly, ONE, bits)
    {
      PowerProduct(poly, bits, bits);
      inc := PolyMultiply(inc, inc, poly);
      bits := 2 * bits;
    }
    j := 0;
    ghost var b: nat := 0;
    PowZero();
    var incLen: nat := 1;
    while incLen != 0
      invariant b <= 16 && j == 15 * b
      invariant incLen == if b < 16 then Pow16(b) else 0
      invariant inc == Shifts(poly, ONE, 8 * Pow16(b))
      invariant forall k :: 0 <= k < j ==> t[k] == Shifts(poly, ONE, 8 * ZeroRun(k))
      decreases 16 - b
    {
      var v := inc;
      for a := 1 to 16
        invariant j == 15 * b + a - 1
        invariant v == Shifts(poly, ONE, 8 * (a * Pow16(b)))
        invariant forall k :: 0 <= k < j ==> t[k] == Shifts(poly, ONE, 8 * ZeroRun(k))
      {
        DigitPlace(a, b);
        t[j] := v;
        PowerProduct(poly, 8 * (a * Pow16(b)), 8 * Pow16(b));
        NextDigit(a, Pow16(b));
        v := PolyMultiply(v, inc, poly);
        j := j + 1;
      }
      PowStep(b);
      inc := v;
      incLen := (incLen * 16) % SIZE_LIMIT;
      NextPlace(b);
      b := b + 1;
    }
  }

  lemma PowZero()
    ensures Pow16(0) == 1
  {
  }

  lemma PowStep(b: nat)
    ensures Pow16(b + 1) == 16 * Pow16(b)
  {
  }

  lemma NextDigit(a: nat, w: nat)
    ensures 8 * (a * w) + 8 * w == 8 * ((a + 1) * w)
  {
    assert (a + 1) * w == a * w + w;
  }

  lemma NextPlace(b: nat)
    requires b < 16
    ensures (Pow16(b) * 16) % SIZE_LIMIT == if b + 1 < 16 then Pow16(b + 1) else 0
  {
    Pow16Limit();
    if b + 1 < 16 {
      Pow16Below(b + 1);
    }
  }

  /** Multiplies `l` by `m` one byte of `l` at a time, reducing through the table of bytes. */
  method MultiplyReduce(l0: bv32, m: bv32, polyTable: array<bv32>, ghost p: bv32) returns (l: bv32)
    requires Row(p, polyTable, 8)
    ensures l == Times(p, l0, m)
  {
    hide Shifts, Entry, Wide, WXor, WShifts, Horner, Product, ByteProduct, DropByte, LowByte, Halve, Room, Twice, Xor;
    l := l0;
    var w := Twice(Wide(m));
    var result: bv64 := Wide(0);
    HornerStart(p, l0, m);
    for x := 0 to 4
      invariant l == Halve(l0, 8 * x)
      invariant result == Wide(Horner(p, 0, l0, m, 8 * x))
    {
      ghost var h := Horner(p, 0, l0, m, 8 * x);
      ByteProductIsProduct(l, w);
      RoomByte(m);
      ProductHorner(p, h, l, m, 8);
      HornerAdd(p, 0, l0, m, 8 * x, 8);
      HalveAdd(l0, 8 * x, 8);
      HalveByte(l);
      result := WXor(result, ByteProduct(l, w));
      Reduce(p, result);
      LowByteEntry(p, result);
      l := l >> 8;
      result := WXor(DropByte(result), Wide(polyTable[LowByte(result) as int]));
    }
    l := Narrow(result);
    NarrowWide(Horner(p, 0, l0, m, 32));
  }

  lemma HornerStart(p: bv32, l: bv32, m: bv32)
    ensures Horner(p, 0, l, m, 0) == 0 && Halve(l, 0) == l
  {
  }

  lemma {:induction false} HalveAdd(l: bv32, m: nat, n: nat)
    ensures Halve(l, m + n) == Halve(Halve(l, m), n)
    decreases m
  {
    hide Half;
    if m > 0 {
      HalveAdd(Half(l), m - 1, n);
    }
  }

  lemma LowByteEntry(p: bv32, r: bv64)
    ensures LowByte(r) < 256 && (LowByte(r) as int) < 256
    ensures Entry(p, LowByte(r) as int, 8) == Shifts(p, LowByte(r), 8)
  {
    hide Shifts, WordOf;
    LowByteSmall(r);
    WordOfByte(LowByte(r));
    ByteInt(LowByte(r));
  }

  lemma LowByteSmall(r: bv64)
    ensures LowByte(r) < 256
  {
  }

  lemma ByteInt(x: bv32)
    requires x < 256
    ensures (x as int) < 256
  {
  }

  /** A cast to 32 bits. */
  function Narrow(r: bv64): bv32
  {
    (r & 0xffffffff) as bv32
  }

  lemma NarrowWide(h: bv32)
    ensures Narrow(Wide(h)) == h
  {
  }

  /** Extends a register past `length` zero bytes with one multiplication per nonzero hexadecimal digit. */
  method ExtendByZeroesImpl(crc: bv32, length: nat, zeroesTable: array<bv32>, polyTable: array<bv32>, ghost p: bv32)
    returns (l: bv32)
    requires length < SIZE_LIMIT
    requires ZeroesTable(p, zeroesTable) && Row(p, polyTable, 8)
    ensures l == Shifts(p, crc, 8 * length)
  {
    hide Shifts, Times, ZeroRun, Pow16, Row;
    l := crc;
    ShiftsNone(p, crc);
    PowZero();
    var rest: nat, i: nat := length, 0;
    ghost var done: nat, b: nat := 0, 0;
    while rest != 0
      invariant i == 15 * b && b <= 16
      invariant length == done + rest * Pow16(b)
      invariant l == Shifts(p, crc, 8 * done)
      decreases rest
    {
      DigitsLeft(rest, b, length);
      var c := rest % 16;
      PlaceValue(rest, b);
      if c != 0 {
        DigitPlace(c, b);
        var m := zeroesTable[c + i - 1];
        TimesPower(p, l, 8 * (c * Pow16(b)));
        ShiftsAdd(p, crc, 8 * done, 8 * (c * Pow16(b)));
        l := MultiplyReduce(l, m, polyTable, p);
        done := done + c * Pow16(b);
      }
      i, rest, b := i + 15, rest / 16, b + 1;
    }
  }

  lemma DigitsLeft(rest: nat, b: nat, length: nat)
    requires rest != 0 && rest * Pow16(b) <= length < SIZE_LIMIT && b <= 16
    ensures b < 16
  {
    Pow16Limit();
    AtLeastOnce(rest, Pow16(b));
  }

  lemma AtLeastOnce(n: nat, w: nat)
    requires n > 0
    ensures n * w >= w
  {
  }

  lemma PlaceValue(rest: nat, b: nat)
    ensures rest * Pow16(b) == (rest % 16) * Pow16(b) + (rest / 16) * Pow16(b + 1)
  {
    var w, q, c := Pow16(b), rest / 16, rest % 16;
    PowStep(b);
    assert rest == 16 * q + c;
    assert (16 * q + c) * w == 16 * q * w + c * w;
    assert q * (16 * w) == 16 * q * w;
  }

  // ---------------------------------------------------------------------------------------------
  // Taking zero bytes back
  // ---------------------------------------------------------------------------------------------

  function SwapBytes(x: bv32): bv32
  {
    (x >> 24) | ((x >> 8) & 0xff00) | ((x << 8) & 0xff0000) | (x << 24)
  }

  function ReverseBits(bits: bv32): bv32
  {
    var b1 := ((bits & 0xaaaaaaaa) >> 1) | ((bits & 0x55555555) << 1);
    var b2 := ((b1 & 0xcccccccc) >> 2) | ((b1 & 0x33333333) << 2);
    var b3 := ((b2 & 0xf0f0f0f0) >> 4) | ((b2 & 0x0f0f0f0f) << 4);
    SwapBytes(b3)
  }

  /** The generator of the backward step on a reversed register. */
  const UNEXTEND_POLY: bv32 := ReverseBits((POLY << 1) ^ 1)

  lemma ReverseTwice(r: bv32)
    ensures ReverseBits(ReverseBits(r)) == r
  {
  }

  /** The forward step with the reversed generator on a reversed register is the backward step. */
  lemma ReversedShift(r: bv32)
    ensures Shift(UNEXTEND_POLY, ReverseBits(r)) == ReverseBits(Unshift(POLY, r))
  {
    hide Xor, Odd, Half, ReverseBits, Unshift;
    ReverseLow(r);
    ReverseHalf(r);
    UnshiftForms(r);
    ReverseXor(r << 1, (POLY << 1) ^ 1);
  }

  lemma ReverseLow(r: bv32)
    ensures Odd(ReverseBits(r)) == (r & 0x80000000 != 0)
  {
    if r & 0x80000000 == 0 {
      assert ReverseBits(r) & 1 == 0;
    } else {
      assert ReverseBits(r) & 1 == 1;
    }
  }

  lemma ReverseHalf(r: bv32)
    ensures Half(ReverseBits(r)) == ReverseBits(r << 1)
  {
  }

  lemma ReverseXor(a: bv32, b: bv32)
    ensures ReverseBits(Xor(a, b)) == Xor(ReverseBits(a), ReverseBits(b))
  {
  }

  lemma UnshiftForms(r: bv32)
    ensures r & 0x80000000 == 0 ==> Unshift(POLY, r) == r << 1
    ensures r & 0x80000000 != 0 ==> Unshift(POLY, r) == Xor(r << 1, (POLY << 1) ^ 1)
  {
    if r & 0x80000000 != 0 {
      assert ((r ^ 0x82f63b78) << 1) | 1 == (r << 1) ^ ((0x82f63b78 << 1) ^ 1);
    }
  }

  lemma {:induction false} ReversedShifts(r: bv32, n: nat)
    ensures Shifts(UNEXTEND_POLY, ReverseBits(r), n) == ReverseBits(Unshifts(POLY, r, n))
    decreases n
  {
    hide Shift, Unshift, ReverseBits;
    if n > 0 {
      ReversedShift(r);
      ReversedShifts(Unshift(POLY, r), n - 1);
    }
  }

  // ---------------------------------------------------------------------------------------------
  // The engine
  // ---------------------------------------------------------------------------------------------

  lemma ByteEntry(p: bv32, x: bv32, bits: nat)
    ensures (Byte0(x) as int) < 256
    ensures Entry(p, Byte0(x) as int, bits) == Shifts(p, Byte0(x), bits)
  {
    hide Shifts, WordOf, Byte0;
    Byte0Small(x);
    WordOfByte(Byte0(x));
    ByteInt(Byte0(x));
  }

  lemma TopByte(x: bv32)
    ensures Byte0(Above(Above(Above(x)))) == Above(Above(Above(x)))
    ensures Above(Above(Above(Above(x)))) == 0
  {
  }

  /** The four bytes of a register, each advanced past what follows it. */
  lemma FourBytes(p: bv32, x: bv32, n: nat)
    ensures Shifts(p, x, n + 32)
         == Xor(Shifts(p, Byte0(x), n + 32),
                Xor(Shifts(p, Byte0(Above(x)), n + 24),
                    Xor(Shifts(p, Byte0(Above(Above(x))), n + 16), Shifts(p, Byte0(Above(Above(Above(x)))), n + 8))))
  {
    hide Shifts, Byte0, Above, Xor;
    Peel(p, x, n + 24);
    Peel(p, Above(x), n + 16);
    Peel(p, Above(Above(x)), n + 8);
    TopByte(x);
  }

  lemma ByteIntoRegister(l: bv32, b: bv8)
    ensures Byte0(Xor(l, b as bv32)) == Xor(Byte0(l), b as bv32)
    ensures Above(Xor(l, b as bv32)) == Above(l)
  {
    assert (l ^ (b as bv32)) & 0xff == (l & 0xff) ^ (b as bv32);
    assert (l ^ (b as bv32)) >> 8 == l >> 8;
  }

  method NewByteTable(p: bv32) returns (t: array<bv32>)
    ensures fresh(t) && Row(p, t, 8)
  {
    hide Row, Shifts;
    t := new bv32[256];
    ShiftsNone(p, p);
    FillWordTable(p, p, [t], 0);
    assert Row(p, [t][0], 8 * 0 + 8 + 0);
  }

  /** The tables that advance a word past itself and twelve further bytes. */
  method NewWordTables(byteTable: array<bv32>) returns (t: seq<array<bv32>>)
    requires Row(POLY, byteTable, 8)
    ensures fresh(t) && |t| == 4 && forall j :: 0 <= j < 4 ==> Row(POLY, t[j], 8 * j + 8 + 96)
  {
    hide Row, Shifts;
    var last := POLY;
    ShiftsNone(POLY, POLY);
    for i := 0 to 12
      invariant last == Shifts(POLY, POLY, 8 * i)
    {
      ShiftsAdd(POLY, POLY, 8 * i, 8);
      last := TableStep(POLY, last, byteTable);
    }
    var t0, t1, t2, t3 := new bv32[256], new bv32[256], new bv32[256], new bv32[256];
    t := [t0, t1, t2, t3];
    FillWordTable(POLY, last, t, 96);
  }

  method NewZeroesTable(p: bv32) returns (t: array<bv32>)
    ensures fresh(t) && ZeroesTable(p, t)
  {
    hide Shifts;
    t := new bv32[256];
    var j := FillZeroesTable(p, t);
  }

  /** A table entry selected by the low byte of a register. */
  function Lookup(row: array<bv32>, x: bv32, ghost p: bv32, ghost bits: nat): (r: bv32)
    requires Row(p, row, bits)
    reads row
    ensures r == Shifts(p, Byte0(x), bits)
  {
    hide Shifts, Byte0, Entry;
    ByteEntry(p, x, bits);
    row[Byte0(x) as int]
  }

  class CRC32 {
    var table0: array<bv32>
    var zeroes: array<bv32>
    var table: seq<array<bv32>>
    var reverseTable0: array<bv32>
    var reverseZeroes: array<bv32>

    // Properties of the platform: whether loads must be aligned, and how far ahead data is prefetched.
    const needAlignedLoads: bool
    const prefetchHorizon: nat

    ghost predicate Valid()
      reads this, table0, zeroes, table, reverseTable0, reverseZeroes
    {
      && Row(POLY, table0, 8)
      && ZeroesTable(POLY, zeroes)
      && |table| == 4
      && (forall j :: 0 <= j < 4 ==> Row(POLY, table[j], 8 * j + 8 + 96))
      && Row(UNEXTEND_POLY, reverseTable0, 8)
      && ZeroesTable(UNEXTEND_POLY, reverseZeroes)
      && prefetchHorizon >= 64
    }

    /** InitTables. */
    constructor (needAlignedLoads: bool, prefetchHorizon: nat)
      requires prefetchHorizon >= 64
      ensures Valid()
      ensures this.needAlignedLoads == needAlignedLoads && this.prefetchHorizon == prefetchHorizon
      ensures fresh({table0, zeroes, reverseTable0, reverseZeroes}) && fresh(table)
    {
      hide Row, Shifts, ZeroesTable, ReverseBits;
      var bytes := NewByteTable(POLY);
      var words := NewWordTables(bytes);
      var runs := NewZeroesTable(POLY);
      var reverseBytes := NewByteTable(UNEXTEND_POLY);
      var reverseRuns := NewZeroesTable(UNEXTEND_POLY);
      table0, table, zeroes, reverseTable0, reverseZeroes := bytes, words, runs, reverseBytes, reverseRuns;
      this.needAlignedLoads, this.prefetchHorizon := needAlignedLoads, prefetchHorizon;
    }

    /** One data byte, through the table of bytes. */
    function StepByte(l: bv32, b: bv8): (r: bv32)
      requires Valid()
      reads this, table0, zeroes, table, reverseTable0, reverseZeroes
      ensures r == Shifts(POLY, Xor(l, b as bv32), 8)
    {
      hide Shifts, Xor, Byte0, Above, Entry, ZeroesTable, ReverseBits;
      var x := Xor(l, b as bv32);
      ByteIntoRegister(l, b);
      ByteEntry(POLY, x, 8);
      ByteStep(POLY, x);
      XorComm(Above(x), Shifts(POLY, Byte0(x), 8));
      Xor(table0[Xor(Byte0(l), b as bv32) as int], Above(l))
    }

    /** One data word, after a register is advanced past sixteen bytes. */
    method StepSwath(crc: bv32, word: bv32) returns (r: bv32)
      requires Valid()
      ensures r == Xor(word, Shifts(POLY, crc, 128))
    {
      hide Shifts, Xor, Byte0, Above, Row, ZeroesTable, ReverseBits;
      FourBytes(POLY, crc, 96);
      var c1 := Above(crc);
      var c2 := Above(c1);
      var c3 := Above(c2);
      assert Row(POLY, table[3], 8 * 3 + 8 + 96) && Row(POLY, table[2], 8 * 2 + 8 + 96);
      assert Row(POLY, table[1], 8 * 1 + 8 + 96) && Row(POLY, table[0], 8 * 0 + 8 + 96);
      r := Xor(Lookup(table[1], c2, POLY, 112), Lookup(table[0], c3, POLY, 104));
      r := Xor(Lookup(table[2], c1, POLY, 120), r);
      r := Xor(Lookup(table[3], crc, POLY, 128), r);
      r := Xor(word, r);
    }

    /** Feeds bytes `from` to `to` one by one. */
    method ExtendBytes(crc: bv32, bytes: seq<bv8>, from: nat, to: nat) returns (l: bv32)
      requires Valid() && from <= to <= |bytes|
      ensures l == Fold(POLY, crc, bytes[from..to])
    {
      hide Shifts, Xor, Row, ZeroesTable, ReverseBits;
      l := crc;
      FoldNone(POLY, crc, bytes[from..from]);
      for p := from to to
        invariant l == Fold(POLY, crc, bytes[from..p])
      {
        assert bytes[from..p + 1] == bytes[from..p] + [bytes[p]];
        FoldAppend(POLY, crc, bytes[from..p], [bytes[p]]);
        FoldOne(POLY, l, bytes[p]);
        l := StepByte(l, bytes[p]);
      }
    }

    /** The final loop over one buffered word. */
    method CombineOneWord(crc: bv32, word: bv32) returns (w: bv32)
      requires Valid()
      ensures w == Shifts(POLY, Xor(word, crc), 32)
    {
      hide Shifts, Xor, Row, ZeroesTable, ReverseBits;
      w := Xor(word, crc);
      ShiftsNone(POLY, w);
      for i := 0 to 4
        invariant w == Shifts(POLY, Xor(word, crc), 8 * i)
      {
        ShiftsAdd(POLY, Xor(word, crc), 8 * i, 8);
        w := TableStep(POLY, w, table0);
      }
    }

    /** Extends a register by a buffer that starts at the given address. */
    method Extend(crc: bv32, bytes: seq<bv8>, address: nat) returns (l: bv32)
      requires Valid()
      ensures l == Fold(POLY, crc, bytes)
    {
      hide Shifts, Xor, Row, ZeroesTable, ReverseBits, Fold, Load, Combine;
      l := crc;
      var p, e := 0, |bytes|;
      FoldNone(POLY, crc, bytes[..p]);
      if needAlignedLoads {
        // the distance to the next address that is a multiple of 4
        var x := (4 - address % 4) % 4;
        if x <= e {
          l := ExtendBytes(l, bytes, 0, x);
          p := x;
        }
      }
      assert bytes[0..p] == bytes[..p];
      if e - p >= 16 {
        l, p := ExtendSwaths(crc, l, bytes, p);
      }
      FoldSplit(crc, bytes, p, e);
      l := ExtendBytes(l, bytes, p, e);
      assert bytes[..e] == bytes;
    }

    /** The middle of Extend: four interleaved registers until fewer than four bytes are left. */
    method ExtendSwaths(ghost crc: bv32, l0: bv32, bytes: seq<bv8>, p0: nat) returns (l: bv32, p: nat)
      requires Valid() && p0 + 16 <= |bytes| && l0 == Fold(POLY, crc, bytes[..p0])
      ensures p <= |bytes| && l == Fold(POLY, crc, bytes[..p])
    {
      hide Shifts, Xor, Row, ZeroesTable, ReverseBits, Fold, Load, Combine;
      p := p0;
      var e := |bytes|;
      var b0, b1, b2, b3 := StartSwaths(crc, l0, bytes, p);
      p := p + 16;
      while e - p > prefetchHorizon
        invariant p <= e
        invariant Combine(POLY, b0, b1, b2, b3) == Fold(POLY, crc, bytes[..p])
      {
        b0, b1, b2, b3 := StepStride(crc, bytes, p, b0, b1, b2, b3);
        b0, b1, b2, b3 := StepStride(crc, bytes, p + 16, b0, b1, b2, b3);
        b0, b1, b2, b3 := StepStride(crc, bytes, p + 32, b0, b1, b2, b3);
        b0, b1, b2, b3 := StepStride(crc, bytes, p + 48, b0, b1, b2, b3);
        p := p + 64;
      }
      while e - p >= 16
        invariant p <= e
        invariant Combine(POLY, b0, b1, b2, b3) == Fold(POLY, crc, bytes[..p])
      {
        b0, b1, b2, b3 := StepStride(crc, bytes, p, b0, b1, b2, b3);
        p := p + 16;
      }
      while e - p >= 4
        invariant p <= e
        invariant Combine(POLY, b0, b1, b2, b3) == Fold(POLY, crc, bytes[..p])
      {
        Rotate(POLY, b0, b1, b2, b3, bytes[p..p + 4]);
        FoldSplit(crc, bytes, p, p + 4);
        b0 := StepSwath(b0, Load(bytes[p..p + 4]));
        b0, b1, b2, b3 := b1, b2, b3, b0;
        p := p + 4;
      }
      l := CombineWords(b0, b1, b2, b3);
    }

    method StartSwaths(ghost crc: bv32, l: bv32, bytes: seq<bv8>, p: nat)
      returns (b0: bv32, b1: bv32, b2: bv32, b3: bv32)
      requires p + 16 <= |bytes| && l == Fold(POLY, crc, bytes[..p])
      ensures Combine(POLY, b0, b1, b2, b3) == Fold(POLY, crc, bytes[..p + 16])
    {
      hide Shifts, Xor, Fold, Load, Combine;
      var s := bytes[p..p + 16];
      StartSwath(POLY, l, s);
      FoldSplit(crc, bytes, p, p + 16);
      b0, b1, b2, b3 := Xor(Load(s[0..4]), l), Load(s[4..8]), Load(s[8..12]), Load(s[12..16]);
    }

    /** The end of the swaths: a CRC over the four buffered words. */
    method CombineWords(b0: bv32, b1: bv32, b2: bv32, b3: bv32) returns (l: bv32)
      requires Valid()
      ensures l == Combine(POLY, b0, b1, b2, b3)
    {
      hide Shifts, Xor, Row, ZeroesTable, ReverseBits, Combine;
      ChainIsCombine(POLY, 0, b0, b1, b2, b3);
      ShiftsZero(POLY, 128);
      XorZero(Combine(POLY, b0, b1, b2, b3));
      l := CombineOneWord(0, b0);
      l := CombineOneWord(l, b1);
      l := CombineOneWord(l, b2);
      l := CombineOneWord(l, b3);
    }

    /** One sixteen-byte stride of the four interleaved registers. */
    method StepStride(ghost crc: bv32, bytes: seq<bv8>, p: nat, b0: bv32, b1: bv32, b2: bv32, b3: bv32)
      returns (c0: bv32, c1: bv32, c2: bv32, c3: bv32)
      requires Valid() && p + 16 <= |bytes|
      requires Combine(POLY, b0, b1, b2, b3) == Fold(POLY, crc, bytes[..p])
      ensures Combine(POLY, c0, c1, c2, c3) == Fold(POLY, crc, bytes[..p + 16])
    {
      hide Shifts, Xor, Row, ZeroesTable, ReverseBits, Fold, Load, Combine;
      var s := bytes[p..p + 16];
      Stride(POLY, b0, b1, b2, b3, s);
      FoldSplit(crc, bytes, p, p + 16);
      c0 := StepSwath(b0, Load(s[0..4]));
      c1 := StepSwath(b1, Load(s[4..8]));
      c2 := StepSwath(b2, Load(s[8..12]));
      c3 := StepSwath(b3, Load(s[12..16]));
    }

    method ExtendByZeroes(crc: bv32, length: nat) returns (r: bv32)
      requires Valid() && length < SIZE_LIMIT
      ensures r == Shifts(POLY, crc, 8 * length)
    {
      hide Shifts, Row, ZeroesTable, ReverseBits;
      r := ExtendByZeroesImpl(crc, length, zeroes, table0, POLY);
    }

    method UnextendByZeroes(crc: bv32, length: nat) returns (r: bv32)
      requires Valid() && length < SIZE_LIMIT
      ensures r == Unshifts(POLY, crc, 8 * length)
    {
      hide Shifts, Unshifts, Row, ZeroesTable, ReverseBits;
      r := ReverseBits(crc);
      r := ExtendByZeroesImpl(r, length, reverseZeroes, reverseTable0, UNEXTEND_POLY);
      ReversedShifts(crc, 8 * length);
      ReverseTwice(Unshifts(POLY, crc, 8 * length));
      r := ReverseBits(r);
    }
  }

  lemma FoldOne(p: bv32, r: bv32, b: bv8)
    ensures Fold(p, r, [b]) == Shifts(p, Xor(r, b as bv32), 8)
  {
    hide Shifts, Xor;
    assert [b][1..] == [];
  }

  lemma FoldNone(p: bv32, r: bv32, s: seq<bv8>)
    requires |s| == 0
    ensures Fold(p, r, s) == r
  {
  }

  lemma FoldSplit(crc: bv32, bytes: seq<bv8>, from: nat, to: nat)
    requires from <= to <= |bytes|
    ensures Fold(POLY, crc, bytes[..to]) == Fold(POLY, Fold(POLY, crc, bytes[..from]), bytes[from..to])
  {
    assert bytes[..to] == bytes[..from] + bytes[from..to];
    FoldAppend(POLY, crc, bytes[..from], bytes[from..to]);
  }

  /** Advances a register past one zero byte. */
  method TableStep(p: bv32, l: bv32, byteTable: array<bv32>) returns (r: bv32)
    requires Row(p, byteTable, 8)
    ensures r == Shifts(p, l, 8)
  {
    hide Shifts, Xor, Byte0, Above, Entry;
    ByteEntry(p, l, 8);
    ByteStep(p, l);
    r := Xor(Above(l), byteTable[Byte0(l) as int]);
  }
}

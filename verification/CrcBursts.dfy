/** Which errors the checksum always shows. */
module CrcBursts {
  import opened CrcRegister
  import opened CrcEngine
  import opened Crc32c

  function Bit(b: bool): bv32
  {
    if b then 1 else 0
  }

  /** Feeds single bits into the register. */
  function FeedBits(r: bv32, bits: seq<bool>): bv32
    decreases |bits|
  {
    if bits == [] then r else FeedBits(Shift(POLY, Xor(r, Bit(bits[0]))), bits[1..])
  }

  /** The `n` lowest bits, in the order in which the register takes them. */
  function LowBits(b: bv8, n: nat): (bits: seq<bool>)
    ensures |bits| == n
  {
    if n == 0 then [] else [b & 1 == 1] + LowBits(b >> 1, n - 1)
  }

  function Bits(s: seq<bv8>): (bits: seq<bool>)
    ensures |bits| == 8 * |s|
  {
    if s == [] then [] else LowBits(s[0], 8) + Bits(s[1..])
  }

  function Double(w: bv32): bv32
  {
    w << 1
  }

  /** Up to 32 bits as one word, the first bit lowest. */
  function Word(bits: seq<bool>): bv32
  {
    if bits == [] then 0 else Xor(Bit(bits[0]), Double(Word(bits[1..])))
  }

  /** The word can be doubled that many times. */
  predicate Room(w: bv32, n: nat)
    decreases n
  {
    n == 0 || (w < 0x8000_0000 && Room(Double(w), n - 1))
  }

  lemma {:induction false} RoomXor(a: bv32, b: bv32, n: nat)
    requires Room(a, n) && Room(b, n)
    ensures Room(Xor(a, b), n)
    decreases n
  {
    hide Xor;
    if n > 0 {
      DoubleXor(a, b);
      TopBit(a, b);
      RoomXor(Double(a), Double(b), n - 1);
    }
  }

  lemma DoubleXor(a: bv32, b: bv32)
    ensures Double(Xor(a, b)) == Xor(Double(a), Double(b))
  {
    DoubleBits(a, b);
    calc {
      Double(Xor(a, b));
      (a ^ b) << 1;
      (a << 1) ^ (b << 1);
      Xor(Double(a), Double(b));
    }
  }

  lemma DoubleBits(a: bv32, b: bv32)
    ensures (a ^ b) << 1 == (a << 1) ^ (b << 1)
  {
  }

  lemma TopBit(a: bv32, b: bv32)
    requires a < 0x8000_0000 && b < 0x8000_0000
    ensures Xor(a, b) < 0x8000_0000
  {
  }

  lemma RoomForBit(b: bool, n: nat)
    requires n <= 31
    ensures Room(Bit(b), n)
  {
    RoomOne();
    RoomLess(1, n, 31);
    RoomZero(n);
  }

  lemma RoomOne()
    ensures Room(1, 31)
  {
    assert Room(0x800_0000, 4);
    assert Room(0x80_0000, 8);
    assert Room(0x8_0000, 12);
    assert Room(0x8000, 16);
    assert Room(0x800, 20);
    assert Room(0x80, 24);
    assert Room(0x8, 28);
  }

  lemma {:induction false} RoomLess(w: bv32, n: nat, m: nat)
    requires Room(w, m) && n <= m
    ensures Room(w, n)
    decreases n
  {
    if n > 0 {
      RoomLess(Double(w), n - 1, m - 1);
    }
  }

  lemma {:induction false} RoomZero(n: nat)
    ensures Room(0, n)
    decreases n
  {
    if n > 0 {
      RoomZero(n - 1);
    }
  }

  lemma {:induction false} WordRoom(bits: seq<bool>)
    requires |bits| <= 32
    ensures Room(Word(bits), 32 - |bits|)
    decreases |bits|
  {
    hide Xor, Room, Bit, Double;
    if bits == [] {
      RoomZero(32);
    } else {
      WordRoom(bits[1..]);
      RoomStep(Word(bits[1..]), 32 - |bits|);
      RoomForBit(bits[0], 32 - |bits|);
      RoomXor(Bit(bits[0]), Double(Word(bits[1..])), 32 - |bits|);
    }
  }

  lemma RoomStep(w: bv32, n: nat)
    requires Room(w, n + 1)
    ensures w < 0x8000_0000 && Room(Double(w), n)
  {
  }

  /** The word of a shorter sequence of bits leaves its top bit free. */
  lemma WordBound(bits: seq<bool>)
    requires |bits| < 32
    ensures Word(bits) < 0x8000_0000
  {
    hide Room, Word;
    WordRoom(bits);
    RoomStep(Word(bits), 31 - |bits|);
  }

  /** Up to 32 bits can be added to the register first and shifted out together. */
  lemma {:induction false} FeedWord(r: bv32, bits: seq<bool>)
    requires |bits| <= 32
    ensures FeedBits(r, bits) == Shifts(POLY, Xor(r, Word(bits)), |bits|)
    decreases |bits|
  {
    hide Xor, Shift, Shifts, Bit, Double;
    if bits == [] {
      XorZero(r);
      ShiftsNone(POLY, r);
    } else {
      var x, w, n := Xor(r, Bit(bits[0])), Word(bits[1..]), |bits| - 1;
      WordBound(bits[1..]);
      XorAssoc(r, Bit(bits[0]), Double(w));
      ShiftLinear(POLY, x, Double(w));
      ShiftDouble(w);
      ShiftsFirst(Xor(x, Double(w)), n);
      FeedWord(Shift(POLY, x), bits[1..]);
    }
  }

  lemma ShiftsFirst(r: bv32, n: nat)
    ensures Shifts(POLY, r, n + 1) == Shifts(POLY, Shift(POLY, r), n)
  {
    hide Shift;
  }

  lemma ShiftDouble(w: bv32)
    requires w < 0x8000_0000
    ensures Shift(POLY, Double(w)) == w
  {
    hide Xor, Odd, Half, Double;
    EvenHalf(w);
  }

  lemma EvenHalf(w: bv32)
    requires w < 0x8000_0000
    ensures !Odd(Double(w)) && Half(Double(w)) == w
  {
    DoubleFits(w);
  }

  lemma DoubleFits(w: bv32)
    requires w < 0x8000_0000
    ensures (w << 1) & 1 == 0 && (w << 1) >> 1 == w
  {
  }

  lemma {:induction false} WordInjective(a: seq<bool>, b: seq<bool>)
    requires |a| == |b| <= 32 && Word(a) == Word(b)
    ensures a == b
    decreases |a|
  {
    hide Xor, Bit, Double;
    if a != [] {
      WordBound(a[1..]);
      WordBound(b[1..]);
      LowBitApart(a[0], Word(a[1..]), b[0], Word(b[1..]));
      WordInjective(a[1..], b[1..]);
      assert a == [a[0]] + a[1..] && b == [b[0]] + b[1..];
    }
  }

  lemma LowBitApart(a: bool, x: bv32, b: bool, y: bv32)
    requires x < 0x8000_0000 && y < 0x8000_0000 && Xor(Bit(a), Double(x)) == Xor(Bit(b), Double(y))
    ensures a == b && x == y
  {
    LowBit(Bit(a), x);
    LowBit(Bit(b), y);
  }

  lemma LowBit(b: bv32, x: bv32)
    requires b <= 1 && x < 0x8000_0000
    ensures Xor(b, Double(x)) & 1 == b && Xor(b, Double(x)) >> 1 == x
  {
  }

  /** The byte has no bits beyond the `n` lowest. */
  predicate Small(b: bv8, n: nat)
    decreases n
  {
    if n == 0 then b == 0 else Small(b >> 1, n - 1)
  }

  lemma {:induction false} WordOfLow(b: bv8, n: nat)
    requires Small(b, n)
    ensures Word(LowBits(b, n)) == b as bv32
    decreases n
  {
    hide Xor, Bit, Double;
    if n > 0 {
      var bits := LowBits(b, n);
      assert bits[1..] == LowBits(b >> 1, n - 1);
      WordOfLow(b >> 1, n - 1);
      ByteStep(b);
    }
  }

  lemma ByteStep(b: bv8)
    ensures b as bv32 == Xor(Bit(b & 1 == 1), Double((b >> 1) as bv32))
  {
    ByteBits(b);
  }

  lemma ByteBits(b: bv8)
    ensures b & 1 == 1 ==> b as bv32 == 1 ^ (((b >> 1) as bv32) << 1)
    ensures b & 1 != 1 ==> b as bv32 == 0 ^ (((b >> 1) as bv32) << 1)
  {
  }

  lemma WordOfByte(b: bv8)
    ensures Word(LowBits(b, 8)) == b as bv32
  {
    hide Word, LowBits;
    assert Small(b >> 1 >> 1 >> 1 >> 1, 4) by {
      assert b >> 1 >> 1 >> 1 >> 1 >> 1 >> 1 >> 1 >> 1 == 0;
    }
    WordOfLow(b, 8);
  }

  lemma {:induction false} FeedAppend(r: bv32, a: seq<bool>, b: seq<bool>)
    ensures FeedBits(r, a + b) == FeedBits(FeedBits(r, a), b)
    decreases |a|
  {
    hide Shift, Xor;
    if a == [] {
      assert a + b == b;
    } else {
      assert (a + b)[1..] == a[1..] + b;
      FeedAppend(Shift(POLY, Xor(r, Bit(a[0]))), a[1..], b);
    }
  }

  /** The register takes a byte string bit by bit. */
  lemma {:induction false} FoldBits(r: bv32, s: seq<bv8>)
    ensures Fold(POLY, r, s) == FeedBits(r, Bits(s))
    decreases |s|
  {
    hide Shift, Shifts, Xor, Word, LowBits, FeedBits;
    if s == [] {
      FeedNone(r);
    } else {
      var first := LowBits(s[0], 8);
      FeedAppend(r, first, Bits(s[1..]));
      FeedWord(r, first);
      WordOfByte(s[0]);
      FoldBits(FeedBits(r, first), s[1..]);
    }
  }

  lemma FeedNone(r: bv32)
    ensures FeedBits(r, []) == r
  {
  }

  lemma {:induction false} FeedInjective(a: bv32, b: bv32, bits: seq<bool>)
    requires FeedBits(a, bits) == FeedBits(b, bits)
    ensures a == b
    decreases |bits|
  {
    hide Shift, Unshift, Xor;
    if bits != [] {
      var x, y := Xor(a, Bit(bits[0])), Xor(b, Bit(bits[0]));
      FeedInjective(Shift(POLY, x), Shift(POLY, y), bits[1..]);
      GeneratorTop();
      ShiftInverse(POLY, x);
      ShiftInverse(POLY, y);
      XorInjective(a, b, Bit(bits[0]));
    }
  }

  lemma XorInjective(a: bv32, b: bv32, c: bv32)
    requires Xor(a, c) == Xor(b, c)
    ensures a == b
  {
    hide Xor;
    XorTwice(a, c);
    XorTwice(b, c);
  }

  lemma ShiftsInjective(a: bv32, b: bv32, n: nat)
    requires Shifts(POLY, a, n) == Shifts(POLY, b, n)
    ensures a == b
  {
    hide Shifts, Unshifts;
    GeneratorTop();
    ShiftsInverse(POLY, a, n);
    ShiftsInverse(POLY, b, n);
  }

  lemma {:induction false} BitsInjective(s: seq<bv8>, t: seq<bv8>)
    requires |s| == |t| && Bits(s) == Bits(t)
    ensures s == t
    decreases |s|
  {
    hide LowBits;
    if s != [] {
      assert Bits(s)[..8] == LowBits(s[0], 8) && Bits(t)[..8] == LowBits(t[0], 8);
      assert Bits(s)[8..] == Bits(s[1..]) && Bits(t)[8..] == Bits(t[1..]);
      ByteInjective(s[0], t[0]);
      BitsInjective(s[1..], t[1..]);
      assert s == [s[0]] + s[1..] && t == [t[0]] + t[1..];
    }
  }

  lemma ByteInjective(a: bv8, b: bv8)
    requires LowBits(a, 8) == LowBits(b, 8)
    ensures a == b
  {
    hide Word;
    WordOfByte(a);
    WordOfByte(b);
    WideInjective(a, b);
  }

  lemma WideInjective(a: bv8, b: bv8)
    requires a as bv32 == b as bv32
    ensures a == b
  {
  }

  /** Two bit strings that differ only in their middle, of up to 32 bits, leave different registers. */
  lemma MiddleBits(r: bv32, before: seq<bool>, a: seq<bool>, b: seq<bool>, after: seq<bool>)
    requires |a| == |b| <= 32 && FeedBits(r, before + a + after) == FeedBits(r, before + b + after)
    ensures a == b
  {
    hide FeedBits, Shifts, Xor, Word;
    var q := FeedBits(r, before);
    FeedAppend(r, before + a, after);
    FeedAppend(r, before + b, after);
    FeedInjective(FeedBits(r, before + a), FeedBits(r, before + b), after);
    FeedAppend(r, before, a);
    FeedAppend(r, before, b);
    FeedWord(q, a);
    FeedWord(q, b);
    ShiftsInjective(Xor(q, Word(a)), Xor(q, Word(b)), |a|);
    XorComm(q, Word(a));
    XorComm(q, Word(b));
    XorInjective(Word(a), Word(b), q);
    WordInjective(a, b);
  }

  lemma WindowBits(r: bv32, x: seq<bool>, y: seq<bool>, from: nat)
    requires |x| == |y| && FeedBits(r, x) == FeedBits(r, y)
    requires forall i :: 0 <= i < |x| && x[i] != y[i] ==> from <= i < from + 32
    ensures x == y
  {
    hide FeedBits;
    var lo := if from < |x| then from else |x|;
    var hi := if from + 32 < |x| then from + 32 else |x|;
    assert x[..lo] == y[..lo] && x[hi..] == y[hi..];
    assert x == x[..lo] + x[lo..hi] + x[hi..];
    assert y == x[..lo] + y[lo..hi] + x[hi..];
    MiddleBits(r, x[..lo], x[lo..hi], y[lo..hi], x[hi..]);
  }

  /** Two strings of the same length whose bits differ only inside a window of 32 bits, wherever it starts, never
      have the same checksum. */
  lemma ShortBurstsDetected(s: seq<bv8>, t: seq<bv8>, from: nat)
    requires |s| == |t| && s != t
    requires forall i :: 0 <= i < 8 * |s| && Bits(s)[i] != Bits(t)[i] ==> from <= i < from + 32
    ensures Crc(s) != Crc(t)
  {
    hide Xor, Fold, FeedBits, Bits;
    if Crc(s) == Crc(t) {
      XorInjective(Fold(POLY, MASK, s), Fold(POLY, MASK, t), MASK);
      FoldBits(MASK, s);
      FoldBits(MASK, t);
      WindowBits(MASK, Bits(s), Bits(t), from);
      BitsInjective(s, t);
    }
  }
}

/** The public CRC32C arithmetic of absl/crc/crc32c.h and absl/crc/crc32c.cc.

    A checksum is the register after the bytes have been fed in, with all bits inverted before and
    after.  The arithmetic functions work on checksums alone; the theorems of this module say that
    they agree with the checksums of the byte strings. */
module Crc32c {
  import opened CrcRegister
  import opened CrcEngine

  /** kCRC32Xor. */
  const MASK: bv32 := 0xffffffff

  // ---------------------------------------------------------------------------------------------
  // What each function means
  // ---------------------------------------------------------------------------------------------

  /** The checksum of `buf` appended to data with checksum `crc`. */
  function Extended(crc: bv32, buf: seq<bv8>): bv32
  {
    Xor(Fold(POLY, Xor(crc, MASK), buf), MASK)
  }

  /** The CRC32C checksum of a byte string. */
  function Crc(buf: seq<bv8>): bv32
  {
    Xor(Fold(POLY, MASK, buf), MASK)
  }

  function Concatenated(lhs: bv32, rhs: bv32, rhsLen: nat): bv32
  {
    Xor(Shifts(POLY, lhs, 8 * rhsLen), rhs)
  }

  function SuffixRemoved(full: bv32, suffix: bv32, suffixLen: nat): bv32
  {
    Unshifts(POLY, Xor(full, suffix), 8 * suffixLen)
  }

  function ZeroesExtended(crc: bv32, length: nat): bv32
  {
    Xor(Shifts(POLY, Xor(crc, MASK), 8 * length), MASK)
  }

  function ZeroesUnextended(crc: bv32, length: nat): bv32
  {
    Xor(Unshifts(POLY, Xor(crc, MASK), 8 * length), MASK)
  }

  // ---------------------------------------------------------------------------------------------
  // Theorems about byte strings
  // ---------------------------------------------------------------------------------------------

  lemma XorTwice(a: bv32, b: bv32)
    ensures Xor(Xor(a, b), b) == a && Xor(b, Xor(b, a)) == a && Xor(Xor(b, a), b) == a
  {
    hide Xor;
    XorAssoc(a, b, b);
    XorAssoc(b, b, a);
    XorComm(b, a);
    XorZero(b);
    XorZero(a);
  }

  lemma ComputeIsExtend(buf: seq<bv8>)
    ensures Extended(0, buf) == Crc(buf)
  {
    XorZero(MASK);
  }

  /** A buffer may be checksummed in pieces. */
  lemma ExtendAppends(crc: bv32, a: seq<bv8>, b: seq<bv8>)
    ensures Extended(Extended(crc, a), b) == Extended(crc, a + b)
    ensures Extended(Crc(a), b) == Crc(a + b)
  {
    hide Xor, Fold;
    FoldAppend(POLY, Xor(crc, MASK), a, b);
    XorTwice(Fold(POLY, Xor(crc, MASK), a), MASK);
    FoldAppend(POLY, MASK, a, b);
    XorTwice(Fold(POLY, MASK, a), MASK);
  }

  function Flatten(chunks: seq<seq<bv8>>): seq<bv8>
  {
    if chunks == [] then [] else chunks[0] + Flatten(chunks[1..])
  }

  function ExtendedByAll(crc: bv32, chunks: seq<seq<bv8>>): bv32
    decreases |chunks|
  {
    if chunks == [] then crc else ExtendedByAll(Extended(crc, chunks[0]), chunks[1..])
  }

  /** However a buffer is cut into chunks, extending by them in turn gives the checksum of the whole. */
  lemma {:induction false} ChunksExtend(crc: bv32, chunks: seq<seq<bv8>>)
    ensures ExtendedByAll(crc, chunks) == Extended(crc, Flatten(chunks))
    decreases |chunks|
  {
    hide Xor, Fold, Extended;
    if chunks == [] {
      ExtendNothing(crc);
    } else {
      ChunksExtend(Extended(crc, chunks[0]), chunks[1..]);
      ExtendAppends(crc, chunks[0], Flatten(chunks[1..]));
    }
  }

  lemma ExtendNothing(crc: bv32)
    ensures Extended(crc, []) == crc
  {
    hide Xor;
    XorTwice(crc, MASK);
  }

  /** Concatenation, from the checksums and the length of the right part alone.  The inversions need
      no undoing: the one in `Crc(a)` becomes, after the zero bytes, exactly the initial inversion
      that `Crc(b)` carries, and the two cancel. */
  lemma ConcatIsCrc(a: seq<bv8>, b: seq<bv8>)
    ensures Concatenated(Crc(a), Crc(b), |b|) == Crc(a + b)
  {
    hide Xor, Fold, Shifts;
    var n := 8 * |b|;
    var fa, fb, m := Fold(POLY, MASK, a), Fold(POLY, 0, b), Shifts(POLY, MASK, n);
    ShiftsLinear(POLY, fa, MASK, n);
    FoldAffine(POLY, MASK, b);
    FoldAppend(POLY, MASK, a, b);
    FoldAffine(POLY, fa, b);
    ConcatShuffle(Shifts(POLY, fa, n), m, fb, MASK);
  }

  lemma ConcatShuffle(fa: bv32, m: bv32, fb: bv32, mask: bv32)
    ensures Xor(Xor(fa, m), Xor(Xor(m, fb), mask)) == Xor(Xor(fa, fb), mask)
  {
    hide Xor;
    XorAssoc(m, fb, mask);
    XorAssoc(Xor(fa, m), m, Xor(fb, mask));
    XorTwice(fa, m);
    XorAssoc(fa, fb, mask);
  }

  /** Removing a prefix whose checksum is known. */
  lemma PrefixRemoved(a: seq<bv8>, b: seq<bv8>)
    ensures Concatenated(Crc(a), Crc(a + b), |b|) == Crc(b)
  {
    hide Xor, Fold, Shifts, Crc;
    ConcatIsCrc(a, b);
    XorTwice(Crc(b), Shifts(POLY, Crc(a), 8 * |b|));
  }

  /** Removing a suffix whose checksum is known. */
  lemma SuffixRemovedIsCrc(a: seq<bv8>, b: seq<bv8>)
    ensures SuffixRemoved(Crc(a + b), Crc(b), |b|) == Crc(a)
  {
    hide Xor, Fold, Shifts, Unshifts, Crc;
    ConcatIsCrc(a, b);
    XorTwice(Shifts(POLY, Crc(a), 8 * |b|), Crc(b));
    GeneratorTop();
    ShiftsInverse(POLY, Crc(a), 8 * |b|);
  }

  lemma GeneratorTop()
    ensures POLY & 0x80000000 != 0
  {
  }

  /** Extending by zeroes is extending by a buffer of zeroes. */
  lemma ZeroesAreBytes(crc: bv32, n: nat)
    ensures ZeroesExtended(crc, n) == Extended(crc, Zeroes(n))
  {
    FoldZeroes(POLY, Xor(crc, MASK), n);
  }

  /** Extending and unextending by zeroes undo each other, in either order. */
  lemma ZeroesUndone(crc: bv32, n: nat)
    ensures ZeroesUnextended(ZeroesExtended(crc, n), n) == crc
    ensures ZeroesExtended(ZeroesUnextended(crc, n), n) == crc
  {
    hide Xor, Shifts, Unshifts;
    GeneratorTop();
    var r := Xor(crc, MASK);
    ShiftsInverse(POLY, r, 8 * n);
    XorTwice(Shifts(POLY, r, 8 * n), MASK);
    XorTwice(Unshifts(POLY, r, 8 * n), MASK);
    XorTwice(crc, MASK);
  }

  // ---------------------------------------------------------------------------------------------
  // The functions
  // ---------------------------------------------------------------------------------------------

  /** What a CRC32 machine instruction does with the bytes of its operand. */
  function Instruction(crc: bv32, operand: seq<bv8>): bv32
  {
    Fold(POLY, crc, operand)
  }

  /** The short path, in one-, two-, four- and eight-byte instructions; without them it leaves the
      value alone and reports failure. */
  method ExtendCrc32cInline(crc: bv32, buf: seq<bv8>, hardware: bool) returns (done: bool, r: bv32)
    ensures done == hardware
    ensures r == if hardware then Extended(crc, buf) else crc
  {
    hide Xor, Fold;
    if hardware {
      r := Xor(crc, MASK);
      r := FeedAll(r, buf);
      r := Xor(r, MASK);
    } else {
      r := crc;
    }
    done := hardware;
  }

  method FeedAll(start: bv32, buf: seq<bv8>) returns (r: bv32)
    ensures r == Fold(POLY, start, buf)
  {
    hide Fold;
    // The three low bits of the length select the short instructions.
    var low, words := |buf| % 8, |buf| / 8;
    r := start;
    var p := 0;
    FoldNone(POLY, r, buf[..0]);
    if low == 1 || low == 3 || low == 5 || low == 7 {
      r := Feed(start, r, buf, p, 1);
      p := p + 1;
    }
    if low == 2 || low == 3 || low == 6 || low == 7 {
      r := Feed(start, r, buf, p, 2);
      p := p + 2;
    }
    if low >= 4 {
      r := Feed(start, r, buf, p, 4);
      p := p + 4;
    }
    for n := 0 to words
      invariant p == low + 8 * n
      invariant r == Fold(POLY, start, buf[..p])
    {
      r := Feed(start, r, buf, p, 8);
      p := p + 8;
    }
    assert buf[..p] == buf;
  }

  /** One instruction on the next `k` bytes. */
  method Feed(ghost start: bv32, crc: bv32, buf: seq<bv8>, p: nat, k: nat) returns (r: bv32)
    requires p + k <= |buf| && crc == Fold(POLY, start, buf[..p])
    ensures r == Fold(POLY, start, buf[..p + k])
  {
    hide Fold;
    FoldSplit(start, buf, p, p + k);
    r := Instruction(crc, buf[p..p + k]);
  }

  method ExtendCrc32cInternal(engine: CRC32, initial: bv32, buf: seq<bv8>, address: nat) returns (r: bv32)
    requires engine.Valid()
    ensures r == Extended(initial, buf)
  {
    hide Xor, Fold;
    r := engine.Extend(Xor(initial, MASK), buf, address);
    r := Xor(r, MASK);
  }

  /** The short path for at most 64 bytes, the engine otherwise or when there is no hardware support. */
  method ExtendCrc32c(engine: CRC32, initial: bv32, buf: seq<bv8>, address: nat, hardware: bool) returns (r: bv32)
    requires engine.Valid()
    ensures r == Extended(initial, buf)
    ensures forall a :: initial == Crc(a) ==> r == Crc(a + buf)
  {
    hide Xor, Fold, Extended, Crc;
    forall a | initial == Crc(a)
      ensures Extended(initial, buf) == Crc(a + buf)
    {
      ExtendAppends(initial, a, buf);
    }
    if |buf| <= 64 {
      var done;
      done, r := ExtendCrc32cInline(initial, buf, hardware);
      if done {
        return;
      }
    }
    r := ExtendCrc32cInternal(engine, initial, buf, address);
  }

  method ComputeCrc32c(engine: CRC32, buf: seq<bv8>, address: nat, hardware: bool) returns (r: bv32)
    requires engine.Valid()
    ensures r == Crc(buf)
  {
    ComputeIsExtend(buf);
    r := ExtendCrc32c(engine, 0, buf, address, hardware);
  }

  method ExtendCrc32cByZeroes(engine: CRC32, initial: bv32, length: nat) returns (r: bv32)
    requires engine.Valid() && length < SIZE_LIMIT
    ensures r == ZeroesExtended(initial, length) == Extended(initial, Zeroes(length))
  {
    hide Xor, Shifts, Fold;
    ZeroesAreBytes(initial, length);
    r := engine.ExtendByZeroes(Xor(initial, MASK), length);
    r := Xor(r, MASK);
  }

  method UnextendCrc32cByZeroes(engine: CRC32, initial: bv32, length: nat) returns (r: bv32)
    requires engine.Valid() && length < SIZE_LIMIT
    ensures r == ZeroesUnextended(initial, length)
    ensures ZeroesExtended(r, length) == initial
  {
    hide Xor, Unshifts, Shifts;
    ZeroesUndone(initial, length);
    r := engine.UnextendByZeroes(Xor(initial, MASK), length);
    r := Xor(r, MASK);
  }

  method ConcatCrc32c(engine: CRC32, lhs: bv32, rhs: bv32, rhsLen: nat) returns (r: bv32)
    requires engine.Valid() && rhsLen < SIZE_LIMIT
    ensures r == Concatenated(lhs, rhs, rhsLen)
    ensures forall a, b :: lhs == Crc(a) && rhs == Crc(b) && |b| == rhsLen ==> r == Crc(a + b)
  {
    hide Xor, Shifts, Crc;
    forall a, b | lhs == Crc(a) && rhs == Crc(b) && |b| == rhsLen
      ensures Concatenated(lhs, rhs, rhsLen) == Crc(a + b)
    {
      ConcatIsCrc(a, b);
    }
    r := engine.ExtendByZeroes(lhs, rhsLen);
    r := Xor(r, rhs);
  }

  method RemoveCrc32cPrefix(engine: CRC32, crcA: bv32, crcAB: bv32, lengthB: nat) returns (r: bv32)
    requires engine.Valid() && lengthB < SIZE_LIMIT
    ensures forall a, b :: crcA == Crc(a) && crcAB == Crc(a + b) && |b| == lengthB ==> r == Crc(b)
  {
    hide Concatenated, Crc;
    r := ConcatCrc32c(engine, crcA, crcAB, lengthB);
    forall a, b | crcA == Crc(a) && crcAB == Crc(a + b) && |b| == lengthB
      ensures r == Crc(b)
    {
      PrefixRemoved(a, b);
    }
  }

  method RemoveCrc32cSuffix(engine: CRC32, full: bv32, suffix: bv32, suffixLen: nat) returns (r: bv32)
    requires engine.Valid() && suffixLen < SIZE_LIMIT
    ensures forall a, b :: full == Crc(a + b) && suffix == Crc(b) && |b| == suffixLen ==> r == Crc(a)
  {
    hide Xor, Unshifts, Crc;
    r := engine.UnextendByZeroes(Xor(full, suffix), suffixLen);
    forall a, b | full == Crc(a + b) && suffix == Crc(b) && |b| == suffixLen
      ensures r == Crc(a)
    {
      SuffixRemovedIsCrc(a, b);
    }
  }

  // ---------------------------------------------------------------------------------------------
  // Published values (Appendix B.4 of RFC 3720)
  // ---------------------------------------------------------------------------------------------

  function ByteShift(r: bv32): bv32
  {
    var r2 := Shift(POLY, Shift(POLY, r));
    var r4 := Shift(POLY, Shift(POLY, r2));
    var r6 := Shift(POLY, Shift(POLY, r4));
    Shift(POLY, Shift(POLY, r6))
  }

  lemma ByteShifts(r: bv32)
    ensures Shifts(POLY, r, 8) == ByteShift(r)
  {
    hide Shift;
    var r2 := Shift(POLY, Shift(POLY, r));
    var r4 := Shift(POLY, Shift(POLY, r2));
    var r6 := Shift(POLY, Shift(POLY, r4));
    assert Shifts(POLY, r6, 2) == Shift(POLY, Shift(POLY, r6));
    assert Shifts(POLY, r4, 4) == Shifts(POLY, r6, 2);
    assert Shifts(POLY, r2, 6) == Shifts(POLY, r4, 4);
  }

  /** Four more zero bytes, through the registers in between. */
  lemma FourZeroes(n: nat, r: bv32, a: bv32, b: bv32, c: bv32, d: bv32)
    requires Shifts(POLY, MASK, n) == r
    requires ByteShift(r) == a && ByteShift(a) == b && ByteShift(b) == c && ByteShift(c) == d
    ensures Shifts(POLY, MASK, n + 32) == d
  {
    hide Shifts, ByteShift;
    ByteShifts(r);
    ByteShifts(a);
    ByteShifts(b);
    ByteShifts(c);
    ShiftsAdd(POLY, MASK, n, 8);
    ShiftsAdd(POLY, MASK, n + 8, 8);
    ShiftsAdd(POLY, MASK, n + 16, 8);
    ShiftsAdd(POLY, MASK, n + 24, 8);
  }

  lemma KnownAnswer()
    ensures Crc(Zeroes(32)) == 0x8a9136aa
  {
    hide Shifts, Fold;
    ShiftsNone(POLY, MASK);
    FourZeroes(0, 0xffffffff, 0xad82acae, 0x0e9e882d, 0x9f9b5c85, 0xb798b438);
    FourZeroes(32, 0xb798b438, 0xba8d89ca, 0xa8d58375, 0x44c19592, 0x73d74d75);
    FourZeroes(64, 0x73d74d75, 0x441a975c, 0x1c220f94, 0x552e4907, 0xd49f4aa2);
    FourZeroes(96, 0xd49f4aa2, 0x43a45a1b, 0x8994c80e, 0xacf12bef, 0xbd8f6515);
    FourZeroes(128, 0xbd8f6515, 0x25125c16, 0x36da32db, 0x4a6c90a2, 0x433aa9c1);
    FourZeroes(160, 0x433aa9c1, 0x31a59f6e, 0xcd8f89da, 0xb8fc461a, 0x7b041311);
    FourZeroes(192, 0x7b041311, 0xe24e407f, 0x2f692669, 0x195b2188, 0x08363896);
    FourZeroes(224, 0x08363896, 0xb4012dc7, 0x17f34302, 0xe12c83b4, 0x756ec955);
    FoldZeroes(POLY, MASK, 32);
    KnownMask();
  }

  lemma KnownMask()
    ensures Xor(0x756ec955, MASK) == 0x8a9136aa
  {
  }

  lemma OneByte(s: seq<bv8>, r: bv32, a: bv32)
    requires s != [] && ByteShift(r ^ (s[0] as bv32)) == a
    ensures Fold(POLY, r, s) == Fold(POLY, a, s[1..])
  {
    hide ByteShift, Shifts;
    ByteShifts(Xor(r, s[0] as bv32));
  }

  /** Four more bytes, through the registers in between. */
  lemma FourBytes(s: seq<bv8>, w: bv8, x: bv8, y: bv8, z: bv8, r: bv32, a: bv32, b: bv32, c: bv32, d: bv32)
    requires Fold(POLY, MASK, s) == r
    requires ByteShift(r ^ (w as bv32)) == a && ByteShift(a ^ (x as bv32)) == b
    requires ByteShift(b ^ (y as bv32)) == c && ByteShift(c ^ (z as bv32)) == d
    ensures Fold(POLY, MASK, s + [w, x, y, z]) == d
  {
    hide ByteShift, Fold;
    FoldAppend(POLY, MASK, s, [w, x, y, z]);
    OneByte([w, x, y, z], r, a);
    OneByte([x, y, z], a, b);
    OneByte([y, z], b, c);
    OneByte([z], c, d);
    assert [w, x, y, z][1..] == [x, y, z] && [x, y, z][1..] == [y, z] && [y, z][1..] == [z] && [z][1..] == [];
    FoldNone(POLY, d, []);
  }

  /** The bytes 0 to 31, which also fix the order of bytes and bits. */
  lemma KnownAscending()
    ensures var s := [0, 1, 2, 3] + [4, 5, 6, 7] + [8, 9, 10, 11] + [12, 13, 14, 15] + [16, 17, 18, 19]
                     + [20, 21, 22, 23] + [24, 25, 26, 27] + [28, 29, 30, 31];
            Crc(s) == 0x46dd794e
  {
    hide Fold;
    FoldNone(POLY, MASK, []);
    FourBytes([], 0, 1, 2, 3, 0xffffffff, 0xad82acae, 0xfcf50b2e, 0x6d02b405, 0x26cce55c);
    var s1 := [0, 1, 2, 3];
    assert [] + s1 == s1;
    FourBytes(s1, 4, 5, 6, 7, 0x26cce55c, 0xdbda4ef9, 0xbef67aeb, 0x5ca612b3, 0x75d343c4);
    var s2 := s1 + [4, 5, 6, 7];
    FourBytes(s2, 8, 9, 10, 11, 0x75d343c4, 0x8ebb3a57, 0xfdd3dece, 0x04ea6205, 0xac7c5545);
    var s3 := s2 + [8, 9, 10, 11];
    FourBytes(s3, 12, 13, 14, 15, 0xac7c5545, 0x3965ba25, 0xaa5db3ab, 0x9710fc09, 0x2636f714);
    var s4 := s3 + [12, 13, 14, 15];
    FourBytes(s4, 16, 17, 18, 19, 0x2636f714, 0xc7bca1e8, 0x8b1b0818, 0x6b693330, 0x33861419);
    var s5 := s4 + [16, 17, 18, 19];
    FourBytes(s5, 20, 21, 22, 23, 0x33861419, 0xbf1bcac7, 0x32578a96, 0x82c46cf2, 0xd643786a);
    var s6 := s5 + [20, 21, 22, 23];
    FourBytes(s6, 24, 25, 26, 27, 0xd643786a, 0x90756782, 0x0bb1224b, 0xa345e8f2, 0x9b21363e);
    var s7 := s6 + [24, 25, 26, 27];
    FourBytes(s7, 28, 29, 30, 31, 0x9b21363e, 0xc11ddf1f, 0xe1fa6d28, 0x16a35434, 0xb92286b1);
    KnownEnd();
  }

  lemma KnownEnd()
    ensures Xor(0xb92286b1, MASK) == 0x46dd794e
  {
  }
}

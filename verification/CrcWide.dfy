/** The 64-bit register in which the engine multiplies two polynomials before reducing them. */
module CrcWide {
  import opened CrcRegister
  import opened CrcTables

  function WXor(a: bv64, b: bv64): bv64
  {
    a ^ b
  }

  predicate WOdd(a: bv64)
  {
    a & 1 == 1
  }

  function WHalf(a: bv64): bv64
  {
    a >> 1
  }

  function Wide(h: bv32): bv64
  {
    h as bv64
  }

  function WShift(p: bv32, r: bv64): bv64
  {
    if WOdd(r) then WXor(WHalf(r), Wide(p)) else WHalf(r)
  }

  function WShifts(p: bv32, r: bv64, n: nat): bv64
    decreases n
  {
    if n == 0 then r else WShifts(p, WShift(p, r), n - 1)
  }

  lemma WXorComm(a: bv64, b: bv64)
    ensures WXor(a, b) == WXor(b, a)
  {
  }

  lemma WXorZero(a: bv64)
    ensures WXor(a, 0) == a && WXor(0, a) == a && WXor(a, a) == 0
  {
  }

  lemma WXorAssoc(a: bv64, b: bv64, c: bv64)
    ensures WXor(WXor(a, b), c) == WXor(a, WXor(b, c))
  {
    calc {
      WXor(WXor(a, b), c);
      WXor(a ^ b, c);
      (a ^ b) ^ c;
      a ^ (b ^ c);
      WXor(a, b ^ c);
      WXor(a, WXor(b, c));
    }
  }

  lemma WOddXor(a: bv64, b: bv64)
    ensures WOdd(WXor(a, b)) == (WOdd(a) != WOdd(b))
  {
    WLowBits(a, b);
  }

  lemma WLowBits(a: bv64, b: bv64)
    ensures (a ^ b) & 1 == (a & 1) ^ (b & 1)
    ensures a & 1 == 0 || a & 1 == 1
    ensures b & 1 == 0 || b & 1 == 1
  {
  }

  lemma WHalfXor(a: bv64, b: bv64)
    ensures WHalf(WXor(a, b)) == WXor(WHalf(a), WHalf(b))
  {
  }

  lemma WShiftLinear(p: bv32, a: bv64, b: bv64)
    ensures WShift(p, WXor(a, b)) == WXor(WShift(p, a), WShift(p, b))
  {
    hide WXor, WOdd, WHalf, Wide;
    var q := Wide(p);
    WOddXor(a, b);
    WHalfXor(a, b);
    if WOdd(a) {
      WXorAssoc(WHalf(a), q, WShift(p, b));
      if WOdd(b) {
        WXorComm(WHalf(b), q);
        WXorAssoc(q, q, WHalf(b));
        WXorZero(q);
        WXorZero(WHalf(b));
      } else {
        WXorComm(q, WHalf(b));
        WXorAssoc(WHalf(a), WHalf(b), q);
      }
    } else if WOdd(b) {
      WXorAssoc(WHalf(a), WHalf(b), q);
    }
  }

  lemma {:induction false} WShiftsLinear(p: bv32, a: bv64, b: bv64, n: nat)
    ensures WShifts(p, WXor(a, b), n) == WXor(WShifts(p, a, n), WShifts(p, b, n))
    decreases n
  {
    hide WShift, WXor;
    if n > 0 {
      WShiftLinear(p, a, b);
      WShiftsLinear(p, WShift(p, a), WShift(p, b), n - 1);
    }
  }

  // ---------------------------------------------------------------------------------------------
  // Agreement with the 32-bit register
  // ---------------------------------------------------------------------------------------------

  lemma WideWord(h: bv32)
    ensures WOdd(Wide(h)) == Odd(h)
    ensures WHalf(Wide(h)) == Wide(Half(h))
  {
    WideBits(h);
  }

  lemma WideBits(h: bv32)
    ensures (h as bv64) & 1 == (h & 1) as bv64
    ensures (h as bv64) >> 1 == (h >> 1) as bv64
  {
  }

  lemma WideXor(a: bv32, b: bv32)
    ensures Wide(Xor(a, b)) == WXor(Wide(a), Wide(b))
  {
  }

  lemma WideShift(p: bv32, h: bv32)
    ensures WShift(p, Wide(h)) == Wide(Shift(p, h))
  {
    hide WXor, WOdd, WHalf, Wide, Xor, Odd, Half;
    WideWord(h);
    WideXor(Half(h), p);
  }

  lemma {:induction false} WideShifts(p: bv32, h: bv32, n: nat)
    ensures WShifts(p, Wide(h), n) == Wide(Shifts(p, h, n))
    decreases n
  {
    hide WShift, Shift, Wide;
    if n > 0 {
      WideShift(p, h);
      WideShifts(p, Shift(p, h), n - 1);
    }
  }

  lemma WideInjective(a: bv32, b: bv32)
    requires Wide(a) == Wide(b)
    ensures a == b
  {
  }

  lemma {:induction false} ClearShifts(p: bv32, v: bv64, n: nat)
    requires Clear(v, n)
    ensures WShifts(p, v, n) == Drop(v, n)
    decreases n
  {
    if n > 0 {
      assert WShift(p, v) == v >> 1;
      ClearShifts(p, v >> 1, n - 1);
    }
  }

  function LowByte(r: bv64): bv32
  {
    (r & 0xff) as bv32
  }

  function HighBytes(r: bv64): bv64
  {
    r & 0xffffffffffffff00
  }

  function DropByte(r: bv64): bv64
  {
    r >> 8
  }

  lemma ByteParts(r: bv64)
    ensures r == WXor(Wide(LowByte(r)), HighBytes(r))
  {
    assert ((r & 0xff) as bv32) as bv64 == r & 0xff;
    assert r == (r & 0xff) ^ (r & 0xffffffffffffff00);
  }

  lemma HighBytesShifts(p: bv32, r: bv64)
    ensures WShifts(p, HighBytes(r), 8) == DropByte(r)
  {
    hide WShifts, Clear, Drop, HighBytes;
    HighBytesBits(r);
    ClearByte(HighBytes(r));
    ClearShifts(p, HighBytes(r), 8);
  }

  lemma HighBytesBits(r: bv64)
    ensures HighBytes(r) & 0xff == 0 && HighBytes(r) >> 8 == DropByte(r)
  {
  }

  lemma ClearByte(v: bv64)
    requires v & 0xff == 0
    ensures Clear(v, 8) && Drop(v, 8) == v >> 8
  {
    hide Clear, Drop;
    ClearNone(v >> 8);
    ByteClear(v, 0);
  }

  /** Eight bits at once: what a table lookup on the low byte has to add. */
  lemma Reduce(p: bv32, r: bv64)
    ensures WShifts(p, r, 8) == WXor(DropByte(r), Wide(Shifts(p, LowByte(r), 8)))
  {
    hide WShifts, WXor, Wide, Shifts, LowByte, HighBytes, DropByte;
    ByteParts(r);
    WShiftsLinear(p, Wide(LowByte(r)), HighBytes(r), 8);
    WideShifts(p, LowByte(r), 8);
    HighBytesShifts(p, r);
    WXorComm(Wide(Shifts(p, LowByte(r), 8)), DropByte(r));
  }

  // ---------------------------------------------------------------------------------------------
  // The carry-less product of a byte and a word
  // ---------------------------------------------------------------------------------------------

  function Twice(m: bv64): bv64
  {
    m << 1
  }

  function WSelect(l: bv32, m: bv64): bv64
  {
    if Odd(l) then m else 0
  }

  /** The product of the `n` low bits of `l` with `m`, not reduced. */
  function Product(l: bv32, m: bv64, n: nat): bv64
    decreases n
  {
    if n == 0 then 0 else WXor(WSelect(l, m), Product(Half(l), Twice(m), n - 1))
  }

  predicate TopClear(m: bv64)
  {
    m & 0x8000000000000000 == 0
  }

  /** `m` can be doubled `n` times. */
  predicate Room(m: bv64, n: nat)
    decreases n
  {
    n > 0 ==> TopClear(m) && Room(Twice(m), n - 1)
  }

  lemma TwiceShift(p: bv32, m: bv64)
    requires TopClear(m)
    ensures WShift(p, Twice(m)) == m
  {
    hide WXor, Wide;
    TwiceBits(m);
  }

  lemma TwiceBits(m: bv64)
    requires m & 0x8000000000000000 == 0
    ensures (m << 1) & 1 == 0 && (m << 1) >> 1 == m
  {
  }

  lemma WZeroShift(p: bv32)
    ensures WShift(p, 0) == 0
  {
  }

  lemma {:induction false} ProductShift(p: bv32, l: bv32, m: bv64, n: nat)
    requires Room(m, n)
    ensures WShift(p, Product(l, Twice(m), n)) == Product(l, m, n)
    decreases n
  {
    hide WXor, Odd, Half, Twice, TopClear, WShift;
    WZeroShift(p);
    if n > 0 {
      TwiceShift(p, m);
      ProductShift(p, Half(l), Twice(m), n - 1);
      WShiftLinear(p, WSelect(l, Twice(m)), Product(Half(l), Twice(Twice(m)), n - 1));
    }
  }

  lemma {:induction false} RoomLess(m: bv64, n: nat)
    requires n > 0 && Room(m, n)
    ensures Room(m, n - 1)
    decreases n
  {
    hide Twice, TopClear;
    if n > 1 {
      RoomLess(Twice(m), n - 1);
    }
  }

  /** Adding the product of `n` bits and shifting it out is `n` steps of Horner's rule. */
  lemma {:induction false} ProductHorner(p: bv32, h: bv32, l: bv32, m: bv32, n: nat)
    requires Room(Twice(Wide(m)), n)
    ensures WShifts(p, WXor(Wide(h), Product(l, Twice(Wide(m)), n)), n) == Wide(Horner(p, h, l, m, n))
    decreases n
  {
    hide WXor, Xor, Odd, Half, Twice, TopClear, WShift, Shift, Wide, Room;
    var w := Twice(Wide(m));
    if n == 0 {
      WXorZero(Wide(h));
    } else {
      RoomLess(w, n);
      var rest := Product(Half(l), Twice(w), n - 1);
      var h' := Xor(Shift(p, h), Select(l, m));
      calc {
        WShift(p, WXor(Wide(h), WXor(WSelect(l, w), rest)));
        { WShiftLinear(p, Wide(h), WXor(WSelect(l, w), rest)); WShiftLinear(p, WSelect(l, w), rest); }
        WXor(WShift(p, Wide(h)), WXor(WShift(p, WSelect(l, w)), WShift(p, rest)));
        { WideShift(p, h); ProductShift(p, Half(l), w, n - 1); SelectShiftWide(p, l, m); }
        WXor(Wide(Shift(p, h)), WXor(Wide(Select(l, m)), Product(Half(l), w, n - 1)));
        { WXorAssoc(Wide(Shift(p, h)), Wide(Select(l, m)), Product(Half(l), w, n - 1)); }
        WXor(WXor(Wide(Shift(p, h)), Wide(Select(l, m))), Product(Half(l), w, n - 1));
        { WideXor(Shift(p, h), Select(l, m)); }
        WXor(Wide(h'), Product(Half(l), w, n - 1));
      }
      ProductHorner(p, h', Half(l), m, n - 1);
    }
  }

  lemma SelectShiftWide(p: bv32, l: bv32, m: bv32)
    ensures WShift(p, WSelect(l, Twice(Wide(m)))) == Wide(Select(l, m))
  {
    hide WShift, Twice, Odd;
    WZeroShift(p);
    WideTop(m);
    TwiceShift(p, Wide(m));
  }

  lemma WideTop(m: bv32)
    ensures TopClear(Wide(m))
  {
  }

  lemma RoomByte(m: bv32)
    ensures Room(Twice(Wide(m)), 8)
  {
    hide Twice, TopClear;
    var m1 := Twice(Wide(m));
    var m2 := Twice(m1);
    var m3 := Twice(m2);
    var m4 := Twice(m3);
    WideRoom(m);
    FourRoom(Twice(m4), 0);
    FourRoom(m1, 4);
  }

  lemma FourRoom(m: bv64, n: nat)
    requires TopClear(m) && TopClear(Twice(m)) && TopClear(Twice(Twice(m))) && TopClear(Twice(Twice(Twice(m))))
    requires n == 0 || Room(Twice(Twice(Twice(Twice(m)))), n)
    ensures Room(m, n + 4)
  {
    hide Twice, TopClear;
    assert Room(Twice(Twice(Twice(Twice(m)))), n);
    assert Room(Twice(Twice(Twice(m))), n + 1);
    assert Room(Twice(Twice(m)), n + 2);
    assert Room(Twice(m), n + 3);
  }

  lemma WideRoom(m: bv32)
    ensures var m4 := Twice(Twice(Twice(Twice(Wide(m)))));
            var m8 := Twice(Twice(Twice(Twice(m4))));
            && TopClear(Twice(Wide(m))) && TopClear(Twice(Twice(Wide(m))))
            && TopClear(Twice(Twice(Twice(Wide(m))))) && TopClear(m4)
            && TopClear(Twice(m4)) && TopClear(Twice(Twice(m4)))
            && TopClear(Twice(Twice(Twice(m4)))) && TopClear(m8)
  {
    RoomBits(m as bv64);
  }

  lemma RoomBits(v: bv64)
    requires v < 0x100000000
    ensures var v4 := (((v << 1) << 1) << 1) << 1;
            var v8 := (((v4 << 1) << 1) << 1) << 1;
            && (v << 1) & 0x8000000000000000 == 0 && ((v << 1) << 1) & 0x8000000000000000 == 0
            && (((v << 1) << 1) << 1) & 0x8000000000000000 == 0 && v4 & 0x8000000000000000 == 0
            && (v4 << 1) & 0x8000000000000000 == 0 && ((v4 << 1) << 1) & 0x8000000000000000 == 0
            && (((v4 << 1) << 1) << 1) & 0x8000000000000000 == 0 && v8 & 0x8000000000000000 == 0
  {
  }

  // ---------------------------------------------------------------------------------------------
  // Two bits at a time
  // ---------------------------------------------------------------------------------------------

  /** The four multiples of `m` that two bits can select. */
  function Multiples(m: bv64): (t: seq<bv64>)
    ensures |t| == 4
  {
    [0, m, m << 1, (m << 1) ^ m]
  }

  function Pick(l: bv32, m: bv64): bv64
  {
    Multiples(m)[(l & 3) as int]
  }

  lemma PickBits(l: bv32, m: bv64)
    ensures Pick(l, m) == WXor(WSelect(l, m), WSelect(Half(l), Twice(m)))
  {
    LowPair(l);
    if l & 3 == 0 {
    } else if l & 3 == 1 {
      WXorZero(m);
    } else if l & 3 == 2 {
      WXorZero(Twice(m));
    } else {
      WXorComm(m, Twice(m));
    }
  }

  lemma LowPair(l: bv32)
    ensures l & 3 == 0 ==> l & 1 == 0 && (l >> 1) & 1 == 0
    ensures l & 3 == 1 ==> l & 1 == 1 && (l >> 1) & 1 == 0
    ensures l & 3 == 2 ==> l & 1 == 0 && (l >> 1) & 1 == 1
    ensures l & 3 == 3 ==> l & 1 == 1 && (l >> 1) & 1 == 1
    ensures l & 3 == 0 || l & 3 == 1 || l & 3 == 2 || l & 3 == 3
  {
  }

  function Quad(v: bv64): bv64
  {
    v << 2
  }

  function Quarter(l: bv32): bv32
  {
    l >> 2
  }

  lemma PickQuad(l: bv32, m: bv64)
    ensures Pick(l, Quad(m)) == Quad(Pick(l, m))
  {
    LowPair(l);
    if l & 3 == 2 {
      assert (m << 2) << 1 == (m << 1) << 2;
    } else if l & 3 == 3 {
      assert ((m << 2) << 1) ^ (m << 2) == ((m << 1) ^ m) << 2;
    }
  }

  lemma PairSteps(l: bv32, m: bv64)
    ensures Half(Half(l)) == Quarter(l) && Twice(Twice(m)) == Quad(m)
  {
    assert (l >> 1) >> 1 == l >> 2 && (m << 1) << 1 == m << 2;
  }

  /** The engine's product of the low byte of `l` with `m`, two bits of `l` at a time. */
  function ByteProduct(l: bv32, m: bv64): bv64
  {
    var l2 := Quarter(l);
    var l4 := Quarter(l2);
    var l6 := Quarter(l4);
    WXor(WXor(WXor(Pick(l, m), Quad(Pick(l2, m))), Quad(Quad(Pick(l4, m)))), Quad(Quad(Quad(Pick(l6, m)))))
  }

  lemma ProductPair(l: bv32, m: bv64, n: nat)
    ensures Product(l, m, n + 2) == WXor(Pick(l, m), Product(Half(Half(l)), Twice(Twice(m)), n))
  {
    hide WXor, Pick, Half, Twice, Odd;
    PickBits(l, m);
    WXorAssoc(WSelect(l, m), WSelect(Half(l), Twice(m)), Product(Half(Half(l)), Twice(Twice(m)), n));
    assert Product(l, m, n + 2) == WXor(WSelect(l, m), Product(Half(l), Twice(m), n + 1));
  }

  lemma ByteProductIsProduct(l: bv32, m: bv64)
    ensures ByteProduct(l, m) == Product(l, m, 8)
  {
    hide WXor, Pick, Half, Twice, Quad, Quarter, Product;
    var l2 := Quarter(l);
    var l4 := Quarter(l2);
    var l6 := Quarter(l4);
    var m2 := Quad(m);
    var m4 := Quad(m2);
    var m6 := Quad(m4);
    PairSteps(l, m);
    PairSteps(l2, m2);
    PairSteps(l4, m4);
    PickQuad(l2, m);
    PickQuad(l4, m);
    PickQuad(l4, m2);
    PickQuad(l6, m);
    PickQuad(l6, m2);
    PickQuad(l6, m4);
    var a, b, c, d := Pick(l, m), Pick(l2, m2), Pick(l4, m4), Pick(l6, m6);
    ProductPair(l, m, 6);
    ProductPair(l2, m2, 4);
    ProductPair(l4, m4, 2);
    ProductPair(l6, m6, 0);
    ProductNone(Half(Half(l6)), Twice(Twice(m6)));
    WXorZero(d);
    WXorAssoc(WXor(a, b), c, d);
    WXorAssoc(a, b, WXor(c, d));
  }

  lemma ProductNone(l: bv32, m: bv64)
    ensures Product(l, m, 0) == 0
  {
  }

  lemma HalveByte(l: bv32)
    ensures Halve(l, 8) == l >> 8
  {
    HalveBits(l);
    assert Halve(l >> 7, 1) == l >> 8;
    assert Halve(l >> 6, 2) == l >> 8;
    assert Halve(l >> 5, 3) == l >> 8;
    assert Halve(l >> 4, 4) == l >> 8;
    assert Halve(l >> 3, 5) == l >> 8;
    assert Halve(l >> 2, 6) == l >> 8;
    assert Halve(l >> 1, 7) == l >> 8;
  }

  lemma HalveBits(l: bv32)
    ensures (l >> 7) >> 1 == l >> 8 && (l >> 6) >> 1 == l >> 7 && (l >> 5) >> 1 == l >> 6
    ensures (l >> 4) >> 1 == l >> 5 && (l >> 3) >> 1 == l >> 4 && (l >> 2) >> 1 == l >> 3
    ensures (l >> 1) >> 1 == l >> 2
  {
  }
}

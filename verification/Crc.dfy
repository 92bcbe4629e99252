// The CRC of boot images as bitwise division, and why a table of bytes computes it (mkpimage.c).
module Crc {

  // ----- the bitwise definition of the CRC -----

  // The generator polynomial of IEEE 802.3, without its leading term.
  const POLY: bv32 := 0x04c11db7

  function Xor(a: bv32, b: bv32): bv32 { a ^ b }

  function Twice(c: bv32): bv32 { c << 1 }

  function Half(b: bv32): bv32 { b >> 1 }

  // The upper byte of a register.
  function Top(c: bv32): bv32 { c >> 24 }

  predicate Odd(c: bv32, bit: bv32) { ((c >> 31) ^ bit) & 1 == 1 }

  // One step of the division, for the lowest bit of bit: the register moves up, and the
  // polynomial is subtracted if the bit moved out differs from the new one.
  function StepBit(crc: bv32, bit: bv32): bv32 {
    if Odd(crc, bit) then Xor(Twice(crc), POLY) else Twice(crc)
  }

  // The eight bits of a byte, most significant bit first.
  function CrcByte(crc: bv32, b: bv32): bv32 {
    var b1 := Half(b);
    var b2 := Half(b1);
    var b3 := Half(b2);
    var b4 := Half(b3);
    var b5 := Half(b4);
    var b6 := Half(b5);
    var b7 := Half(b6);
    var c := StepBit(StepBit(StepBit(StepBit(crc, b7), b6), b5), b4);
    StepBit(StepBit(StepBit(StepBit(c, b3), b2), b1), b)
  }

  // ----- laws of words -----

  lemma XorComm(a: bv32, b: bv32)
    ensures Xor(a, b) == Xor(b, a)
  {
    assert a ^ b == b ^ a;
  }

  lemma XorAssoc(a: bv32, b: bv32, c: bv32)
    ensures Xor(Xor(a, b), c) == Xor(a, Xor(b, c))
  {
    assert (a ^ b) ^ c == a ^ (b ^ c);
  }

  lemma XorTwice(a: bv32, b: bv32)
    ensures Xor(Xor(a, b), b) == a
  {
    assert (a ^ b) ^ b == a;
  }

  lemma XorOnce(a: bv32)
    ensures Xor(a, 0) == a
  {
    assert a ^ 0 == a;
  }

  lemma XorBoth(p: bv32, q: bv32, m: bv32)
    ensures Xor(Xor(p, q), m) == Xor(p, Xor(q, m)) == Xor(Xor(p, m), q)
    ensures Xor(Xor(p, m), Xor(q, m)) == Xor(p, q)
  {
    hide Xor;
    XorAssoc(p, q, m);
    XorAssoc(p, m, q);
    XorComm(m, q);
    XorAssoc(Xor(p, m), q, m);
    XorTwice(Xor(p, q), m);
  }

  lemma ShiftXor(c: bv32, d: bv32)
    ensures (c ^ d) >> 1 == (c >> 1) ^ (d >> 1) && (c ^ d) << 1 == (c << 1) ^ (d << 1)
  {
  }

  lemma HalfLinear(c: bv32, d: bv32)
    ensures Half(Xor(c, d)) == Xor(Half(c), Half(d))
  {
    ShiftXor(c, d);
  }

  lemma TwiceLinear(c: bv32, d: bv32)
    ensures Twice(Xor(c, d)) == Xor(Twice(c), Twice(d))
  {
    ShiftXor(c, d);
  }

  lemma OddXor(c: bv32, x: bv32, d: bv32, y: bv32)
    ensures ((((c ^ d) >> 31) ^ (x ^ y)) & 1 == 1) <==> ((((c >> 31) ^ x) & 1 == 1) != (((d >> 31) ^ y) & 1 == 1))
  {
  }

  lemma OddLinear(c: bv32, x: bv32, d: bv32, y: bv32)
    ensures Odd(Xor(c, d), Xor(x, y)) <==> Odd(c, x) != Odd(d, y)
  {
    OddXor(c, x, d, y);
  }

  // ----- division is linear -----

  lemma StepLinear(c: bv32, x: bv32, d: bv32, y: bv32)
    ensures StepBit(Xor(c, d), Xor(x, y)) == Xor(StepBit(c, x), StepBit(d, y))
  {
    hide Xor, Twice, Odd;
    OddLinear(c, x, d, y);
    TwiceLinear(c, d);
    XorBoth(Twice(c), Twice(d), POLY);
  }

  lemma StepTwo(c: bv32, b: bv32, d: bv32, e: bv32) returns (c': bv32, d': bv32)
    ensures c' == StepBit(c, b) && d' == StepBit(d, e) && StepBit(Xor(c, d), Xor(b, e)) == Xor(c', d')
  {
    hide StepBit, Xor;
    StepLinear(c, b, d, e);
    c', d' := StepBit(c, b), StepBit(d, e);
  }

  lemma Linear(c: bv32, b: bv32, d: bv32, e: bv32)
    ensures CrcByte(Xor(c, d), Xor(b, e)) == Xor(CrcByte(c, b), CrcByte(d, e))
  {
    hide StepBit, Xor, Half;
    var b1, e1 := Half(b), Half(e);
    var b2, e2 := Half(b1), Half(e1);
    var b3, e3 := Half(b2), Half(e2);
    var b4, e4 := Half(b3), Half(e3);
    var b5, e5 := Half(b4), Half(e4);
    var b6, e6 := Half(b5), Half(e5);
    HalfLinear(b, e);
    HalfLinear(b1, e1);
    HalfLinear(b2, e2);
    HalfLinear(b3, e3);
    HalfLinear(b4, e4);
    HalfLinear(b5, e5);
    HalfLinear(b6, e6);
    var c1, d1 := StepTwo(c, Half(b6), d, Half(e6));
    var c2, d2 := StepTwo(c1, b6, d1, e6);
    var c3, d3 := StepTwo(c2, b5, d2, e5);
    var c4, d4 := StepTwo(c3, b4, d3, e4);
    var c5, d5 := StepTwo(c4, b3, d4, e3);
    var c6, d6 := StepTwo(c5, b2, d5, e2);
    var c7, d7 := StepTwo(c6, b1, d6, e1);
    StepLinear(c7, b, d7, e);
  }

  // ----- why a table of bytes works -----

  // The bit moved out of a register after k steps is bit 7 - k of its upper byte.
  lemma EvenXor(c: bv32)
    ensures ((c >> 31) ^ (c >> 24 >> 1 >> 1 >> 1 >> 1 >> 1 >> 1 >> 1)) & 1 == 0
    ensures (((c << 1) >> 31) ^ (c >> 24 >> 1 >> 1 >> 1 >> 1 >> 1 >> 1)) & 1 == 0
    ensures (((c << 1 << 1) >> 31) ^ (c >> 24 >> 1 >> 1 >> 1 >> 1 >> 1)) & 1 == 0
    ensures (((c << 1 << 1 << 1) >> 31) ^ (c >> 24 >> 1 >> 1 >> 1 >> 1)) & 1 == 0
    ensures (((c << 1 << 1 << 1 << 1) >> 31) ^ (c >> 24 >> 1 >> 1 >> 1)) & 1 == 0
    ensures (((c << 1 << 1 << 1 << 1 << 1) >> 31) ^ (c >> 24 >> 1 >> 1)) & 1 == 0
    ensures (((c << 1 << 1 << 1 << 1 << 1 << 1) >> 31) ^ (c >> 24 >> 1)) & 1 == 0
    ensures (((c << 1 << 1 << 1 << 1 << 1 << 1 << 1) >> 31) ^ (c >> 24)) & 1 == 0
    ensures c << 1 << 1 << 1 << 1 << 1 << 1 << 1 << 1 == c << 8
  {
  }

  lemma EvenFirst(c: bv32)
    ensures var h4 := Half(Half(Half(Half(Top(c)))));
      && !Odd(c, Half(Half(Half(h4)))) && !Odd(Twice(c), Half(Half(h4)))
      && !Odd(Twice(Twice(c)), Half(h4)) && !Odd(Twice(Twice(Twice(c))), h4)
  {
    EvenXor(c);
  }

  lemma EvenLast(c: bv32)
    ensures var c4, h := Twice(Twice(Twice(Twice(c)))), Top(c);
      && !Odd(c4, Half(Half(Half(h)))) && !Odd(Twice(c4), Half(Half(h)))
      && !Odd(Twice(Twice(c4)), Half(h)) && !Odd(Twice(Twice(Twice(c4))), h)
  {
    EvenXor(c);
  }

  lemma EightTimes(c: bv32)
    ensures Twice(Twice(Twice(Twice(Twice(Twice(Twice(Twice(c)))))))) == c << 8
  {
    EvenXor(c);
  }

  // The upper byte of the register cancels an equal byte, the lower bytes only move up.
  lemma ShiftsOut(crc: bv32)
    ensures CrcByte(crc, Top(crc)) == crc << 8
  {
    hide Twice, Half, Odd, Top;
    EvenFirst(crc);
    EvenLast(crc);
    EightTimes(crc);
  }

  // Moving the register up and adding the remainder of its upper byte and b is a step of the
  // division.
  lemma TableStep(crc: bv32, b: bv32)
    ensures Xor(crc << 8, CrcByte(0, Xor(Top(crc), b))) == CrcByte(crc, b)
  {
    hide CrcByte, Xor, Top;
    var h := Top(crc);
    ShiftsOut(crc);
    Linear(crc, h, 0, Xor(h, b));
    XorOnce(crc);
    XorComm(h, b);
    XorComm(h, Xor(b, h));
    XorTwice(b, h);
  }

  // The index into the table is a byte.
  lemma IndexIsByte(crc: bv32, b: bv32)
    requires b <= 0xff
    ensures Xor(Top(crc), b) & 0xff == Xor(Top(crc), b) <= 0xff
  {
    assert ((crc >> 24) ^ b) & 0xff == (crc >> 24) ^ b <= 0xff;
  }

  function HighNibble(x: bv32): bv32 { x >> 4 }

  function Upper(x: bv32): bv32 { x << 4 }

  function LowNibble(x: bv32): bv32 { x & 0xf }

  lemma NibbleXor(x: bv32)
    requires x <= 0xff
    ensures Xor(Upper(HighNibble(x)), LowNibble(x)) == x && HighNibble(x) <= 0xf && LowNibble(x) <= 0xf
  {
    assert ((x >> 4) << 4) ^ (x & 0xf) == x && x >> 4 <= 0xf && x & 0xf <= 0xf;
  }

  // The remainder of a sum is the sum of the remainders.
  lemma RemainderSum(a: bv32, b: bv32)
    ensures CrcByte(0, Xor(a, b)) == Xor(CrcByte(0, a), CrcByte(0, b))
  {
    hide CrcByte, Xor;
    Linear(0, a, 0, b);
    XorOnce(0);
  }

  lemma StepZero()
    ensures StepBit(0, 0) == 0 && StepBit(0, 1) == POLY && Half(1) == 0 && Half(0) == 0
  {
    assert ((0 as bv32 >> 31) ^ 0) & 1 == 0 && ((0 as bv32 >> 31) ^ 1) & 1 == 1;
    assert (0 as bv32) << 1 == 0 && 0 ^ POLY == POLY;
  }

  // The remainders of the powers of two.
  lemma Powers()
    ensures CrcByte(0, 0) == 0 && CrcByte(0, 1) == 0x04c11db7 && CrcByte(0, 2) == 0x09823b6e
    ensures CrcByte(0, 4) == 0x130476dc
    ensures CrcByte(0, 8) == 0x2608edb8 && CrcByte(0, 0x10) == 0x4c11db70 && CrcByte(0, 0x20) == 0x9823b6e0
    ensures CrcByte(0, 0x40) == 0x34867077 && CrcByte(0, 0x80) == 0x690ce0ee
  {
    StepZero();
    assert StepBit(0x04c11db7, 2) == 0x09823b6e && Half(2) == 1;
    assert StepBit(0x09823b6e, 4) == 0x130476dc && Half(4) == 2;
    assert StepBit(0x130476dc, 8) == 0x2608edb8 && Half(8) == 4;
    assert StepBit(0x2608edb8, 0x10) == 0x4c11db70 && Half(0x10) == 8;
    assert StepBit(0x4c11db70, 0x20) == 0x9823b6e0 && Half(0x20) == 0x10;
    assert StepBit(0x9823b6e0, 0x40) == 0x34867077 && Half(0x40) == 0x20;
    assert StepBit(0x34867077, 0x80) == 0x690ce0ee && Half(0x80) == 0x40;
  }
}

// A CRC notices every change of a single byte, and what that means for an image whose CRC stands
// where its trampoline should be (mkpimage.c).
module CrcChange {
  import opened Crc
  import opened CrcTable
  import opened Mkpimage
  import opened ByteWords

  // ----- steps of the division can be undone -----

  lemma StepRaw(c: bv32, d: bv32, x: bv32)
    ensures ((c >> 31) ^ x) & 1 == 1 && ((d >> 31) ^ x) & 1 == 1 && (c << 1) ^ POLY == (d << 1) ^ POLY ==> c == d
    ensures ((c >> 31) ^ x) & 1 != 1 && ((d >> 31) ^ x) & 1 != 1 && c << 1 == d << 1 ==> c == d
    ensures (c << 1) ^ POLY != d << 1
  {
  }

  lemma StepLaws(c: bv32, d: bv32, x: bv32)
    ensures Odd(c, x) && Odd(d, x) && Xor(Twice(c), POLY) == Xor(Twice(d), POLY) ==> c == d
    ensures !Odd(c, x) && !Odd(d, x) && Twice(c) == Twice(d) ==> c == d
    ensures Xor(Twice(c), POLY) != Twice(d)
  {
    StepRaw(c, d, x);
  }

  lemma StepInjective(c: bv32, d: bv32, x: bv32)
    requires StepBit(c, x) == StepBit(d, x)
    ensures c == d
  {
    hide Xor, Twice, Odd;
    StepLaws(c, d, x);
    StepLaws(d, c, x);
  }

  lemma ByteInjective(c: bv32, d: bv32, b: bv32)
    requires CrcByte(c, b) == CrcByte(d, b)
    ensures c == d
  {
    hide StepBit, Half;
    var b1 := Half(b);
    var b2 := Half(b1);
    var b3 := Half(b2);
    var b4 := Half(b3);
    var b5 := Half(b4);
    var b6 := Half(b5);
    var b7 := Half(b6);
    var c1, d1 := StepBit(c, b7), StepBit(d, b7);
    var c2, d2 := StepBit(c1, b6), StepBit(d1, b6);
    var c3, d3 := StepBit(c2, b5), StepBit(d2, b5);
    var c4, d4 := StepBit(c3, b4), StepBit(d3, b4);
    var c5, d5 := StepBit(c4, b3), StepBit(d4, b3);
    var c6, d6 := StepBit(c5, b2), StepBit(d5, b2);
    var c7, d7 := StepBit(c6, b1), StepBit(d6, b1);
    StepInjective(c7, d7, b);
    StepInjective(c6, d6, b1);
    StepInjective(c5, d5, b2);
    StepInjective(c4, d4, b3);
    StepInjective(c3, d3, b4);
    StepInjective(c2, d2, b5);
    StepInjective(c1, d1, b6);
    StepInjective(c, d, b7);
  }

  lemma AtTop(y: bv32)
    requires y <= 0xff
    ensures (y << 24) >> 24 == y && (y << 24) << 8 == 0 && (y << 24 == 0 ==> y == 0)
  {
  }

  lemma XorZero(x: bv32, y: bv32)
    ensures Xor(x, x) == 0 && (Xor(x, y) == 0 ==> x == y) && Xor(0, x) == x
    ensures x <= 0xff && y <= 0xff ==> Xor(x, y) <= 0xff
  {
  }

  // Different bytes lead to different registers.
  lemma InputInjective(c: bv32, x: bv32, y: bv32)
    requires x <= 0xff && y <= 0xff && CrcByte(c, x) == CrcByte(c, y)
    ensures x == y
  {
    hide CrcByte, Xor, Top;
    var z := Xor(x, y);
    XorZero(x, y);
    XorZero(c, c);
    XorZero(CrcByte(c, x), CrcByte(c, y));
    Linear(c, x, c, y);
    assert CrcByte(0, z) == 0;
    Raised(z);
  }

  lemma Raised(z: bv32)
    requires z <= 0xff && CrcByte(0, z) == 0
    ensures z == 0
  {
    hide CrcByte, Xor;
    AtTop(z);
    var r := z << 24;
    assert Top(r) == z;
    ShiftsOut(r);
    Linear(r, z, 0, z);
    XorZero(z, z);
    XorZero(0, 0);
    XorOnce(r);
    Powers();
    ByteInjective(r, 0, 0);
  }

  lemma LastShows(c: bv32, x: Byte, y: Byte)
    requires x != y
    ensures CrcByte(c, x as bv32) != CrcByte(c, y as bv32)
  {
    hide CrcByte;
    ByteBound(x);
    ByteBound(y);
    if CrcByte(c, x as bv32) == CrcByte(c, y as bv32) {
      InputInjective(c, x as bv32, y as bv32);
      Differ(x, y);
    }
  }

  lemma NextShows(c: bv32, d: bv32, b: Byte)
    requires c != d
    ensures CrcByte(c, b as bv32) != CrcByte(d, b as bv32)
  {
    hide CrcByte;
    if CrcByte(c, b as bv32) == CrcByte(d, b as bv32) { ByteInjective(c, d, b as bv32); }
  }

  lemma {:induction false} BitsSnoc(crc: bv32, a: seq<Byte>, b: Byte)
    ensures CrcBits(crc, a + [b]) == CrcByte(CrcBits(crc, a), b as bv32)
  {
    hide CrcByte;
    assert (a + [b])[..|a|] == a;
  }

  // Everything behind a byte that differs keeps the registers apart.
  lemma {:induction false} OneByteShows(crc: bv32, a: seq<Byte>, x: Byte, y: Byte, t: seq<Byte>)
    requires x != y
    ensures CrcBits(crc, a + [x] + t) != CrcBits(crc, a + [y] + t)
    decreases |t|
  {
    hide CrcByte, CrcBits;
    if t == [] {
      assert a + [x] + t == a + [x] && a + [y] + t == a + [y];
      BitsSnoc(crc, a, x);
      BitsSnoc(crc, a, y);
      LastShows(CrcBits(crc, a), x, y);
    } else {
      var init, b := t[..|t| - 1], t[|t| - 1];
      OneByteShows(crc, a, x, y, init);
      assert a + [x] + t == a + [x] + init + [b] && a + [y] + t == a + [y] + init + [b];
      BitsSnoc(crc, a + [x] + init, b);
      BitsSnoc(crc, a + [y] + init, b);
      NextShows(CrcBits(crc, a + [x] + init), CrcBits(crc, a + [y] + init), b);
    }
  }

  // ----- an image of 88 bytes -----

  lemma WordShows(w: bv32, v: bv32)
    requires WordBytes(w) == WordBytes(v)
    ensures w == v
  {
    hide LeBytes, Le;
    NumberShows(w as int, v as int);
    RoundTrip(w);
    RoundTrip(v);
  }

  lemma {:induction false} NumberShows(w: nat, v: nat)
    requires w < 0x1_0000_0000 && v < 0x1_0000_0000 && LeBytes(w, 4) == LeBytes(v, 4)
    ensures w == v
  {
    hide LeBytes, Le;
    Le4(w);
    Le4(v);
  }

  // There is one instruction for each destination.
  lemma OneBranch(v: seq<Byte>, w: seq<Byte>, entry: nat)
    requires |v| == |w| == 4 && Branches(v, entry) && Branches(w, entry)
    ensures v == w
  {
    hide Le;
    LeShows(v[..3], w[..3]);
    LeShows(w[..3], v[..3]);
    assert Power256(3) == 0x100_0000;
    assert Le(v[..3]) == Le(w[..3]);
    assert v == v[..3] + [v[3]] && w == w[..3] + [w[3]];
  }

  lemma {:induction false} LeShows(a: seq<Byte>, b: seq<Byte>)
    requires |a| == |b|
    ensures Le(a) < Power256(|a|) && (Le(a) == Le(b) ==> a == b)
  {
    if a != [] {
      LeShows(a[1..], b[1..]);
      assert a == [a[0]] + a[1..] && b == [b[0]] + b[1..];
    }
  }

  function Power256(n: nat): nat { if n == 0 then 1 else 256 * Power256(n - 1) }

  // Of two inputs that differ in one byte in front of the header, at least one gives an image of
  // 88 bytes that version 1 does not start: its trampoline is lost.
  lemma TrampolineLost(s: seq<Byte>, i: nat, b: Byte, startAddr: nat)
    requires |s| >= 88 && i < HEADER && b != s[i] && startAddr < HEADER
    ensures !(Boots1(Finished(s, 88, startAddr, 1)[..88], startAddr)
              && Boots1(Finished(s[i := b], 88, startAddr, 1)[..88], startAddr))
  {
    hide Boots1, Finished, HeaderBytes, CrcBits, Branches, Headed, WordBytes;
    CrcOverTrampoline(s, startAddr);
    CrcOverTrampoline(s[i := b], startAddr);
    var p, q := Headed(s, 88, startAddr, 1)[..84], Headed(s[i := b], 88, startAddr, 1)[..84];
    OneByteOfMany(s, i, b, startAddr);
    var t := p[i + 1..];
    OneByteShows(0xffffffff, s[..i], s[i], b, t);
    if Branches(CrcWord(p), startAddr) && Branches(CrcWord(q), startAddr) {
      OneBranch(CrcWord(p), CrcWord(q), startAddr);
      var c, d := CrcBits(0xffffffff, p), CrcBits(0xffffffff, q);
      WordShows(Xor(c, 0xffffffff), Xor(d, 0xffffffff));
      XorTwice(c, 0xffffffff);
      XorTwice(d, 0xffffffff);
    }
  }

  lemma OneByteOfMany(s: seq<Byte>, i: nat, b: Byte, startAddr: nat)
    requires |s| >= 88 && i < HEADER && startAddr < HEADER
    ensures var p, q := Headed(s, 88, startAddr, 1)[..84], Headed(s[i := b], 88, startAddr, 1)[..84];
      p == s[..i] + [s[i]] + p[i + 1..] && q == s[..i] + [b] + p[i + 1..]
  {
    hide HeaderBytes;
  }
}

// Bytes as numbers and as words of 8 and 32 bits.
module ByteWords {
  lemma Differ(x: int, y: int)
    requires 0 <= x < 256 && 0 <= y < 256 && x as bv32 == y as bv32
    ensures x == y
  {
    var u := Narrow(x);
    var v := Narrow(y);
    Widen(u);
    Widen(v);
    SameWidened(u, v);
  }

  lemma {:induction false} Narrow(x: int) returns (u: bv8)
    requires 0 <= x < 256
    ensures u as int == x
  {
    u := 0;
    if x > 0 {
      u := Narrow(x - 1);
      Next(u);
      u := u + 1;
    }
  }

  lemma Next(u: bv8)
    requires u as int < 255
    ensures (u + 1) as int == u as int + 1
  {
  }

  lemma Widen(u: bv8)
    ensures (u as int) as bv32 == u as bv32
  {
    WidenInt(u);
    RoundTrip(u as bv32);
  }

  lemma WidenInt(u: bv8)
    ensures (u as bv32) as int == u as int
  {
  }

  lemma RoundTrip(w: bv32)
    ensures (w as int) as bv32 == w
  {
  }

  lemma SameWidened(u: bv8, v: bv8)
    requires u as bv32 == v as bv32
    ensures u == v
  {
  }
}

// Headers of boot images for the SoCFPGA ROM loader (branch and add_socfpga_header in mkpimage.c).
module Mkpimage {
  import opened Crc
  import opened CrcTable

  // ----- little-endian numbers -----

  // The k lowest bytes of a number, as shifts and masks give them for negative numbers as well.
  function LeBytes(n: int, k: nat): (bs: seq<Byte>)
    ensures |bs| == k
    decreases k
  {
    if k == 0 then [] else [n % 256] + LeBytes(n / 256, k - 1)
  }

  function Le(bs: seq<Byte>): nat {
    if bs == [] then 0 else bs[0] + 256 * Le(bs[1..])
  }

  lemma LeStep(n: int, k: nat)
    requires k > 0
    ensures Le(LeBytes(n, k)) == n % 256 + 256 * Le(LeBytes(n / 256, k - 1))
  {
    assert LeBytes(n, k)[1..] == LeBytes(n / 256, k - 1);
  }

  lemma {:induction false} Le2(n: int)
    ensures Le(LeBytes(n, 2)) == n % 0x1_0000
  {
    hide LeBytes, Le;
    LeStep(n, 2);
    LeOne(n / 256);
  }

  lemma {:induction false} LeOne(n: int)
    ensures Le(LeBytes(n, 1)) == n % 256
  {
    LeStep(n, 1);
  }

  lemma {:induction false} Le3(n: int)
    ensures Le(LeBytes(n, 3)) == n % 0x100_0000
  {
    hide LeBytes, Le;
    LeStep(n, 3);
    Le2(n / 256);
    var q := n / 256;
    var t, r := q / 0x1_0000, q % 0x1_0000;
    assert n == 0x100_0000 * t + (256 * r + n % 256);
  }

  lemma {:induction false} Le4(n: int)
    ensures Le(LeBytes(n, 4)) == n % 0x1_0000_0000
  {
    hide LeBytes, Le;
    LeStep(n, 4);
    Le3(n / 256);
    var q := n / 256;
    var t, r := q / 0x100_0000, q % 0x100_0000;
    assert n == 0x1_0000_0000 * t + (256 * r + n % 256);
  }

  // ----- branch instructions -----

  const BRANCH_INST := 0xea

  // The instruction word branch writes at address from for a branch to dest.
  function BranchBytes(from: nat, dest: nat): (bs: seq<Byte>)
    ensures |bs| == 4
  {
    LeBytes((dest - from - 8) / 4, 3) + [BRANCH_INST]
  }

  // Where a processor in ARM state goes from the branch instruction bs at address at: the
  // signed 24-bit field counts words from the instruction after the next (ARM Architecture
  // Reference Manual, DDI 0406C, section A8.8.18, encoding A1).
  function BranchTarget(bs: seq<Byte>, at: nat): int
    requires |bs| == 4 && bs[3] == BRANCH_INST
  {
    var field := Le(bs[..3]);
    at + 8 + 4 * (if field >= 0x80_0000 then field - 0x100_0000 else field)
  }

  // The branch goes where it should exactly for destinations that are a whole number of words
  // away and within 32 MB.
  lemma BranchReaches(from: nat, dest: nat)
    ensures BranchTarget(BranchBytes(from, dest), from) == dest
      <==> (dest - from) % 4 == 0 && -0x200_0000 <= dest - from - 8 < 0x200_0000
  {
    var offset := dest - from - 8;
    Le3(offset / 4);
    assert BranchBytes(from, dest)[..3] == LeBytes(offset / 4, 3);
    Signed24(offset / 4);
  }

  lemma Signed24(w: int)
    ensures var field := w % 0x100_0000;
      (if field >= 0x80_0000 then field - 0x100_0000 else field) == w <==> -0x80_0000 <= w < 0x80_0000
  {
  }

  // ----- the header -----

  const VALIDATION_WORD := 0x31305341
  // where the header is, and the sizes of its two versions' fields
  const HEADER := 0x40
  const HEADER_SIZE := 20

  // s with bytes written over it from at on.
  function Splice(s: seq<Byte>, at: nat, bytes: seq<Byte>): (r: seq<Byte>)
    requires at + |bytes| <= |s|
    ensures |r| == |s| && r[..at] == s[..at] && r[at..at + |bytes|] == bytes && r[at + |bytes|..] == s[at + |bytes|..]
  {
    s[..at] + bytes + s[at + |bytes|..]
  }

  // Writing on behind what has been written.
  lemma SpliceOn(s: seq<Byte>, at: nat, x: seq<Byte>, y: seq<Byte>)
    requires at + |x| + |y| <= |s|
    ensures Splice(Splice(s, at, x), at + |x|, y) == Splice(s, at, x + y)
  {
  }

  // Writing into a gap.
  lemma SpliceGap(s: seq<Byte>, at: nat, x: seq<Byte>, y: seq<Byte>, z: seq<Byte>)
    requires at + |x| + |y| + |z| <= |s|
    ensures Splice(Splice(Splice(s, at, x), at + |x| + |y|, z), at + |x|, y) == Splice(s, at, x + y + z)
  {
  }

  method Put(buf: array<Byte>, at: nat, bytes: seq<Byte>)
    requires at + |bytes| <= buf.Length
    modifies buf
    ensures buf[..] == Splice(old(buf[..]), at, bytes)
  {
    var i := 0;
    while i < |bytes|
      invariant 0 <= i <= |bytes| && buf[..] == Splice(old(buf[..]), at, bytes[..i])
    {
      SpliceOn(old(buf[..]), at, bytes[..i], [bytes[i]]);
      assert bytes[..i + 1] == bytes[..i] + [bytes[i]];
      buf[at + i] := bytes[i];
      i := i + 1;
    }
    assert bytes[..i] == bytes;
  }

  function Sum(bs: seq<Byte>): nat {
    if bs == [] then 0 else Sum(bs[..|bs| - 1]) + bs[|bs| - 1]
  }

  // The loop over the header up to its checksum.
  method Checksum(buf: array<Byte>, from: nat, end: nat) returns (sum: nat)
    requires from <= end <= buf.Length
    ensures sum == Sum(buf[from..end])
  {
    sum := 0;
    var p := from;
    while p < end
      invariant from <= p <= end && sum == Sum(buf[from..p])
    {
      assert buf[from..p + 1][..p - from] == buf[from..p];
      sum := sum + buf[p];
      p := p + 1;
    }
  }

  lemma {:induction false} SumBound(bs: seq<Byte>)
    ensures Sum(bs) <= 255 * |bs|
  {
    if bs != [] { SumBound(bs[..|bs| - 1]); }
  }

  // The bytes of a word in the memory of a little-endian host, on which the program runs.
  function WordBytes(w: bv32): (bs: seq<Byte>)
    ensures |bs| == 4
  {
    LeBytes(w as int, 4)
  }

  // The value of the bytes, spelt out for words.
  lemma LeWord(bs: seq<Byte>)
    requires |bs| == 4
    ensures var a: int, b: int, c: int, d: int := bs[0], bs[1], bs[2], bs[3];
      Le(bs) == a + 0x100 * b + 0x1_0000 * c + 0x100_0000 * d
  {
    assert Le(bs[1..][1..][1..][1..]) == 0;
    assert Le(bs[1..][1..][1..]) == bs[3];
    var c: int, d: int := bs[2], bs[3];
    assert Le(bs[1..][1..]) == c + 256 * d;
  }

  lemma WordDenotes(w: bv32)
    ensures Le(WordBytes(w)) == w as int
  {
    hide LeBytes, Le;
    NumberDenotes(w as int);
  }

  lemma {:induction false} NumberDenotes(n: nat)
    requires n < 0x1_0000_0000
    ensures Le(LeBytes(n, 4)) == n
  {
    hide LeBytes, Le;
    Le4(n);
  }

  // What the boot ROM checks and follows in an image of version 0 ...
  ghost predicate Boots0(image: seq<Byte>, entry: nat)
    requires |image| >= HEADER + HEADER_SIZE
  {
    && Le(image[64..68]) == VALIDATION_WORD && image[68..70] == [0, 0]
    && 4 * Le(image[70..72]) == |image| && image[72..74] == [0, 0]
    && Le(image[74..76]) == Sum(image[64..74])
    && image[79] == BRANCH_INST && BranchTarget(image[76..80], 76) == entry
  }

  // ... and of version 1, where the entry may be a branch behind the header.
  ghost predicate Boots1(image: seq<Byte>, entry: nat)
    requires |image| >= HEADER + HEADER_SIZE
  {
    && Le(image[64..68]) == VALIDATION_WORD && image[68..70] == [1, 0]
    && Le(image[70..72]) == HEADER_SIZE && Le(image[72..76]) == |image| && image[80..82] == [0, 0]
    && Le(image[82..84]) == Sum(image[64..82])
    && var start := HEADER + Le(image[76..80]);
      (start == entry || (start == 84 && |image| >= 88 && Branches(image[84..88], entry)))
  }

  // The instruction at 84 is a branch to entry.
  predicate Branches(word: seq<Byte>, entry: nat)
    requires |word| == 4
  {
    word[3] == BRANCH_INST && BranchTarget(word, 84) == entry
  }

  // The last word, least significant byte first, is the CRC of everything before it.
  ghost predicate Sealed(image: seq<Byte>)
    requires |image| >= 4
  {
    var n := |image| - 4;
    Le(image[n..]) == Xor(CrcBits(0xffffffff, image[..n]), 0xffffffff) as int
  }

  // The fields up to the checksum.
  function Fields0(size: nat): (bs: seq<Byte>)
    ensures |bs| == 10
  {
    LeBytes(VALIDATION_WORD, 4) + [0, 0] + LeBytes(size / 4, 2) + [0, 0]
  }

  function Fields1(size: nat, offset: int): (bs: seq<Byte>)
    ensures |bs| == 18
  {
    LeBytes(VALIDATION_WORD, 4) + [1, 0] + LeBytes(HEADER_SIZE, 2) + LeBytes(size, 4) + LeBytes(offset, 4) + [0, 0]
  }

  method WriteHeader0(buf: array<Byte>, size: nat, startAddr: nat)
    requires buf.Length >= HEADER + HEADER_SIZE
    modifies buf
    ensures buf[..]
      == Splice(old(buf[..]), HEADER, Fields0(size) + LeBytes(Sum(Fields0(size)), 2) + BranchBytes(76, startAddr))
  {
    hide LeBytes, Splice, Sum;
    ghost var s := buf[..];
    Put(buf, 64, LeBytes(VALIDATION_WORD, 4));
    Put(buf, 68, [0, 0]);
    SpliceOn(s, 64, LeBytes(VALIDATION_WORD, 4), [0, 0]);
    Put(buf, 70, LeBytes(size / 4, 2));
    SpliceOn(s, 64, LeBytes(VALIDATION_WORD, 4) + [0, 0], LeBytes(size / 4, 2));
    Put(buf, 72, [0, 0]);
    SpliceOn(s, 64, LeBytes(VALIDATION_WORD, 4) + [0, 0] + LeBytes(size / 4, 2), [0, 0]);
    assert buf[..] == Splice(s, 64, Fields0(size));
    Put(buf, 76, BranchBytes(76, startAddr));
    SpliceApart(Splice(s, 64, Fields0(size)), 64, 74, 76, BranchBytes(76, startAddr));
    assert buf[64..74] == buf[..][64..74];
    var checksum := Checksum(buf, 64, 74);
    Put(buf, 74, LeBytes(checksum, 2));
    SpliceGap(s, 64, Fields0(size), LeBytes(checksum, 2), BranchBytes(76, startAddr));
  }

  // What lies before the bytes written stays.
  lemma SpliceApart(s: seq<Byte>, from: nat, end: nat, at: nat, bytes: seq<Byte>)
    requires from <= end <= at && at + |bytes| <= |s|
    ensures Splice(s, at, bytes)[from..end] == s[from..end]
  {
    assert Splice(s, at, bytes)[from..end] == Splice(s, at, bytes)[..at][from..end] == s[..at][from..end];
  }

  method WriteHeader1(buf: array<Byte>, size: nat, offset: nat)
    requires buf.Length >= HEADER + HEADER_SIZE
    modifies buf
    ensures buf[..] == Splice(old(buf[..]), HEADER, Fields1(size, offset) + LeBytes(Sum(Fields1(size, offset)), 2))
  {
    hide LeBytes, Splice, Sum;
    ghost var s := buf[..];
    var w := LeBytes(VALIDATION_WORD, 4);
    Put(buf, 64, w);
    Put(buf, 68, [1, 0]);
    SpliceOn(s, 64, w, [1, 0]);
    Put(buf, 70, LeBytes(HEADER_SIZE, 2));
    SpliceOn(s, 64, w + [1, 0], LeBytes(HEADER_SIZE, 2));
    Put(buf, 72, LeBytes(size, 4));
    SpliceOn(s, 64, w + [1, 0] + LeBytes(HEADER_SIZE, 2), LeBytes(size, 4));
    Put(buf, 76, LeBytes(offset, 4));
    SpliceOn(s, 64, w + [1, 0] + LeBytes(HEADER_SIZE, 2) + LeBytes(size, 4), LeBytes(offset, 4));
    Put(buf, 80, [0, 0]);
    SpliceOn(s, 64, w + [1, 0] + LeBytes(HEADER_SIZE, 2) + LeBytes(size, 4) + LeBytes(offset, 4), [0, 0]);
    assert buf[64..82] == buf[..][64..82] == Fields1(size, offset);
    var checksum := Checksum(buf, 64, 82);
    Put(buf, 82, LeBytes(checksum, 2));
    SpliceOn(s, 64, Fields1(size, offset), LeBytes(checksum, 2));
  }

  // Writing in front of what has been written.
  lemma SpliceBefore(s: seq<Byte>, at: nat, x: seq<Byte>, y: seq<Byte>)
    requires at + |x| + |y| <= |s|
    ensures Splice(Splice(s, at + |x|, y), at, x) == Splice(s, at, x + y)
  {
  }

  // The header, with the trampoline behind it if there is one.
  function HeaderBytes(size: nat, startAddr: nat, version: nat): (bs: seq<Byte>)
    ensures |bs| == if version == 0 then 16 else if startAddr < HEADER then 24 else 20
  {
    if version == 0 then Fields0(size) + LeBytes(Sum(Fields0(size)), 2) + BranchBytes(76, startAddr)
    else if startAddr < HEADER then
      Fields1(size, HEADER_SIZE) + LeBytes(Sum(Fields1(size, HEADER_SIZE)), 2) + BranchBytes(84, startAddr)
    else Fields1(size, startAddr - HEADER) + LeBytes(Sum(Fields1(size, startAddr - HEADER)), 2)
  }

  // The buffer after header and trampoline have been written, and then the CRC.
  function Headed(s: seq<Byte>, size: nat, startAddr: nat, version: nat): (r: seq<Byte>)
    requires HEADER + |HeaderBytes(size, startAddr, version)| <= |s|
    ensures |r| == |s|
  {
    Splice(s, HEADER, HeaderBytes(size, startAddr, version))
  }

  function CrcWord(bytes: seq<Byte>): (w: seq<Byte>)
    ensures |w| == 4
  {
    WordBytes(Xor(CrcBits(0xffffffff, bytes), 0xffffffff))
  }

  function Finished(s: seq<Byte>, size: nat, startAddr: nat, version: nat): (r: seq<Byte>)
    requires 4 <= size <= |s| && HEADER + |HeaderBytes(size, startAddr, version)| <= |s|
    ensures |r| == |s|
  {
    var h := Headed(s, size, startAddr, version);
    Splice(h, size - 4, CrcWord(h[..size - 4]))
  }

  // add_socfpga_header for an image of the given size at the start of a buffer that has room for
  // the header and the trampoline: refused if the size is not a whole number of words.
  method AddSocfpgaHeader(buf: array<Byte>, size: nat, startAddr: nat, version: nat) returns (ok: bool)
    requires version <= 1 && HEADER + HEADER_SIZE <= size <= buf.Length
    requires HEADER + |HeaderBytes(size, startAddr, version)| <= buf.Length
    modifies buf
    ensures ok <==> size % 4 == 0
    ensures !ok ==> buf[..] == old(buf[..])
    ensures ok ==> buf[..] == Finished(old(buf[..]), size, startAddr, version)
  {
    hide Splice, Fields0, Fields1, LeBytes, Sum, BranchBytes, CrcWord;
    if size % 4 != 0 {
      return false;
    }
    ghost var s := buf[..];
    if version == 0 {
      WriteHeader0(buf, size, startAddr);
    } else {
      var entry := startAddr;
      if entry < HEADER {
        // a trampoline behind the header, which becomes the entry point
        Put(buf, 84, BranchBytes(84, entry));
        entry := 84;
        ghost var h := Fields1(size, HEADER_SIZE) + LeBytes(Sum(Fields1(size, HEADER_SIZE)), 2);
        SpliceBefore(s, HEADER, h, BranchBytes(84, startAddr));
      }
      WriteHeader1(buf, size, entry - HEADER);
    }
    assert buf[..] == Headed(s, size, startAddr, version);
    Seal(buf, size);
    ok := true;
  }

  // *crc = crc32(0xffffffff, buf, size - 4) ^ 0xffffffff
  method Seal(buf: array<Byte>, size: nat)
    requires 4 <= size <= buf.Length
    modifies buf
    ensures buf[..] == Splice(old(buf[..]), size - 4, CrcWord(old(buf[..])[..size - 4]))
  {
    hide Splice, CrcBits, LeBytes;
    var n := size - 4;
    var crc := Crc32(0xffffffff, buf, n);
    assert buf[..n] == buf[..][..n];
    Put(buf, n, WordBytes(Xor(crc, 0xffffffff)));
  }

  // Whatever the sizes, the CRC is right, and it is the last thing written into the image.
  lemma FinishedParts(s: seq<Byte>, size: nat, startAddr: nat, version: nat)
    requires 4 <= size <= |s| && HEADER + |HeaderBytes(size, startAddr, version)| <= |s|
    ensures var image, h := Finished(s, size, startAddr, version)[..size], Headed(s, size, startAddr, version);
      image[..size - 4] == h[..size - 4] && image[size - 4..] == CrcWord(h[..size - 4]) && Sealed(image)
  {
    hide Headed, CrcBits, LeBytes, WordBytes, Le;
    var h := Headed(s, size, startAddr, version);
    WordDenotes(Xor(CrcBits(0xffffffff, h[..size - 4]), 0xffffffff));
    var r := Finished(s, size, startAddr, version);
    assert r[..size][..size - 4] == r[..size - 4];
    assert r[..size][size - 4..] == r[size - 4..size];
  }

  // Header, trampoline and CRC lie apart inside the image.
  predicate Apart(size: nat, startAddr: nat, version: nat) {
    HEADER + |HeaderBytes(size, startAddr, version)| + 4 <= size
  }

  // For the sizes main accepts, that fails for version 1 only: with a trampoline below 92 bytes,
  // without one below 88.
  lemma ApartExactly(size: nat, startAddr: nat, version: nat)
    requires version <= 1 && size >= 84 && size % 4 == 0
    ensures Apart(size, startAddr, version)
      <==> version == 0 || size > 88 || (size == 88 && startAddr >= HEADER)
  {
    hide HeaderBytes;
  }

  // The field f of a header a + f + b at from.
  lemma FieldAt(image: seq<Byte>, from: nat, a: seq<Byte>, f: seq<Byte>, b: seq<Byte>)
    requires from + |a| + |f| + |b| <= |image| && image[from..from + |a| + |f| + |b|] == a + f + b
    ensures image[from + |a|..from + |a| + |f|] == f
  {
    var h := a + f + b;
    forall k | 0 <= k < |f|
      ensures image[from + |a| + k] == f[k]
    {
      assert image[from..from + |a| + |f| + |b|][|a| + k] == h[|a| + k];
    }
  }

  // The parts of a header of version 0.
  lemma {:induction false} Parts0(image: seq<Byte>, size: nat, startAddr: nat)
    requires |image| >= 84 && image[64..80] == HeaderBytes(size, startAddr, 0)
    ensures image[64..68] == LeBytes(VALIDATION_WORD, 4) && image[68..70] == [0, 0]
    ensures image[70..72] == LeBytes(size / 4, 2)
    ensures image[72..74] == [0, 0] && image[64..74] == Fields0(size) && image[74..76] == LeBytes(Sum(Fields0(size)), 2)
    ensures image[76..80] == BranchBytes(76, startAddr)
  {
    hide LeBytes, Sum, BranchBytes;
    var w, n := LeBytes(VALIDATION_WORD, 4), LeBytes(size / 4, 2);
    var c, t := LeBytes(Sum(Fields0(size)), 2), BranchBytes(76, startAddr);
    assert image[64..80] == [] + w + ([0, 0] + n + [0, 0] + c + t);
    FieldAt(image, 64, [], w, [0, 0] + n + [0, 0] + c + t);
    assert image[64..80] == w + [0, 0] + (n + [0, 0] + c + t);
    FieldAt(image, 64, w, [0, 0], n + [0, 0] + c + t);
    assert image[64..80] == (w + [0, 0]) + n + ([0, 0] + c + t);
    FieldAt(image, 64, w + [0, 0], n, [0, 0] + c + t);
    assert image[64..80] == (w + [0, 0] + n) + [0, 0] + (c + t);
    FieldAt(image, 64, w + [0, 0] + n, [0, 0], c + t);
    assert image[64..80] == [] + Fields0(size) + (c + t);
    FieldAt(image, 64, [], Fields0(size), c + t);
    FieldAt(image, 64, Fields0(size), c, t);
    assert image[64..80] == (Fields0(size) + c) + t + [];
    FieldAt(image, 64, Fields0(size) + c, t, []);
  }

  // The boot ROM accepts an image of version 0 and starts it at its entry exactly if that is a
  // whole number of words away and in reach of a branch.
  lemma Version0Boots(image: seq<Byte>, startAddr: nat)
    requires |image| >= 84 && |image| % 4 == 0 && |image| < 0x4_0000
    requires image[64..80] == HeaderBytes(|image|, startAddr, 0)
    ensures Boots0(image, startAddr) <==> startAddr % 4 == 0 && startAddr < 0x200_0054
  {
    hide LeBytes, Le, Sum, BranchTarget, BranchBytes, HeaderBytes, Fields0;
    Parts0(image, |image|, startAddr);
    Le4(VALIDATION_WORD);
    Le2(|image| / 4);
    SumBound(Fields0(|image|));
    Le2(Sum(Fields0(|image|)));
    BranchReaches(76, startAddr);
    BranchLast(76, startAddr);
    assert image[79] == image[76..80][3];
  }

  lemma BranchLast(from: nat, dest: nat)
    ensures BranchBytes(from, dest)[3] == BRANCH_INST
  {
  }

  lemma {:induction false} Parts1(image: seq<Byte>, size: nat, startAddr: nat)
    requires |image| >= 88 && image[64..64 + |HeaderBytes(size, startAddr, 1)|] == HeaderBytes(size, startAddr, 1)
    ensures var offset := if startAddr < HEADER then HEADER_SIZE else startAddr - HEADER;
      && image[64..68] == LeBytes(VALIDATION_WORD, 4) && image[68..70] == [1, 0]
      && image[70..72] == LeBytes(HEADER_SIZE, 2) && image[72..76] == LeBytes(size, 4)
      && image[76..80] == LeBytes(offset, 4) && image[80..82] == [0, 0]
      && image[64..82] == Fields1(size, offset) && image[82..84] == LeBytes(Sum(Fields1(size, offset)), 2)
    ensures startAddr < HEADER ==> image[84..88] == BranchBytes(84, startAddr)
  {
    hide LeBytes, Sum, BranchBytes;
    var offset := if startAddr < HEADER then HEADER_SIZE else startAddr - HEADER;
    var f, t := Fields1(size, offset), if startAddr < HEADER then BranchBytes(84, startAddr) else [];
    var c := LeBytes(Sum(f), 2);
    assert HeaderBytes(size, startAddr, 1) == f + c + t;
    FieldAt(image, 64, f, c, t);
    assert f + c + t == [] + f + (c + t);
    FieldAt(image, 64, [], f, c + t);
    assert f + c + t == (f + c) + t + [];
    FieldAt(image, 64, f + c, t, []);
    Fields1At(image, size, offset);
  }

  lemma {:induction false} Fields1At(image: seq<Byte>, size: nat, offset: nat)
    requires |image| >= 82 && image[64..82] == Fields1(size, offset)
    ensures image[64..68] == LeBytes(VALIDATION_WORD, 4) && image[68..70] == [1, 0]
    ensures image[70..72] == LeBytes(HEADER_SIZE, 2) && image[72..76] == LeBytes(size, 4)
    ensures image[76..80] == LeBytes(offset, 4)
    ensures image[80..82] == [0, 0]
  {
    hide LeBytes;
    var f := Fields1(size, offset);
    Slice(image, 64, 82, 0, 4);
    Slice(image, 64, 82, 4, 6);
    Slice(image, 64, 82, 6, 8);
    Slice(image, 64, 82, 8, 12);
    Slice(image, 64, 82, 12, 16);
    Slice(image, 64, 82, 16, 18);
    assert f[0..4] == LeBytes(VALIDATION_WORD, 4) && f[4..6] == [1, 0] && f[6..8] == LeBytes(HEADER_SIZE, 2);
    assert f[8..12] == LeBytes(size, 4) && f[12..16] == LeBytes(offset, 4) && f[16..18] == [0, 0];
  }

  lemma Slice(s: seq<Byte>, from: nat, end: nat, a: nat, b: nat)
    requires from <= end <= |s| && a <= b <= end - from
    ensures s[from..end][a..b] == s[from + a..from + b]
  {
    var x, y := s[from..end][a..b], s[from + a..from + b];
    forall i | 0 <= i < |x|
      ensures x[i] == y[i]
    {
      assert s[from..end][a + i] == s[from + a + i];
    }
    assert x == y;
  }

  // In version 1 an entry behind the start of the header is always found; one in front of it
  // needs a trampoline, which reaches it exactly if it is a whole number of words away.
  lemma Version1Boots(image: seq<Byte>, startAddr: nat)
    requires |image| >= 88 && |image| % 4 == 0 && |image| < 0x1_0000_0000 && startAddr < 0x1_0000_0000
    requires image[64..64 + |HeaderBytes(|image|, startAddr, 1)|] == HeaderBytes(|image|, startAddr, 1)
    ensures Boots1(image, startAddr) <==> startAddr >= HEADER || startAddr % 4 == 0
  {
    hide LeBytes, Le, Sum, BranchTarget, BranchBytes, HeaderBytes, Fields1;
    Parts1(image, |image|, startAddr);
    var offset := if startAddr < HEADER then HEADER_SIZE else startAddr - HEADER;
    Le4(VALIDATION_WORD);
    Le2(HEADER_SIZE);
    Le4(|image|);
    Le4(offset);
    SumBound(Fields1(|image|, offset));
    Le2(Sum(Fields1(|image|, offset)));
    if startAddr < HEADER {
      BranchReaches(84, startAddr);
      BranchLast(84, startAddr);
    }
  }

  // Nothing of header and trampoline is lost if they lie apart from the CRC.
  lemma HeaderInPlace(s: seq<Byte>, size: nat, startAddr: nat, version: nat)
    requires size <= |s| && Apart(size, startAddr, version)
    ensures var h := HeaderBytes(size, startAddr, version);
      Finished(s, size, startAddr, version)[..size][HEADER..HEADER + |h|] == h
  {
    hide Splice, Finished, HeaderBytes, CrcWord, Sealed;
    var h := HeaderBytes(size, startAddr, version);
    var image, headed := Finished(s, size, startAddr, version)[..size], Headed(s, size, startAddr, version);
    FinishedParts(s, size, startAddr, version);
    assert headed[HEADER..HEADER + |h|] == h;
    SameInFront(image, headed, size - 4, HEADER, HEADER + |h|);
  }

  lemma SameInFront(a: seq<Byte>, b: seq<Byte>, n: nat, from: nat, to: nat)
    requires n <= |a| && n <= |b| && a[..n] == b[..n] && from <= to <= n
    ensures a[from..to] == b[from..to]
  {
    assert a[from..to] == a[..n][from..to];
    assert b[from..to] == b[..n][from..to];
  }

  // In an image of 88 bytes the CRC replaces the trampoline; the header in front of it stays.
  lemma CrcOverTrampoline(s: seq<Byte>, startAddr: nat)
    requires |s| >= 88 && startAddr < HEADER
    ensures var image, h := Finished(s, 88, startAddr, 1)[..88], Headed(s, 88, startAddr, 1);
      && image[84..88] == CrcWord(h[..84])
      && (Boots1(image, startAddr) <==> Branches(CrcWord(h[..84]), startAddr))
  {
    hide Splice, Headed, CrcWord, LeBytes, Le, Sum, BranchTarget, BranchBytes, Fields1;
    var image, h := Finished(s, 88, startAddr, 1)[..88], Headed(s, 88, startAddr, 1);
    FinishedParts(s, 88, startAddr, 1);
    HeaderFront(s, 88, startAddr);
    assert image[64..84] == image[..84][64..84] == h[..84][64..84] == h[64..84];
    Fields1Front(image, 88, startAddr);
  }

  // In an image of 84 bytes it replaces the end of the header, and the trampoline is behind the
  // image: where version 1 would start, there is nothing.
  lemma CrcOverHeader(s: seq<Byte>, startAddr: nat)
    requires |s| >= 88 && startAddr < HEADER
    ensures var r := Finished(s, 84, startAddr, 1);
      && r[80..84] == CrcWord(Headed(s, 84, startAddr, 1)[..80]) && r[84..88] == BranchBytes(84, startAddr)
      && Le(r[76..80]) == 84 - HEADER && !Boots1(r[..84], startAddr)
  {
    hide Headed, CrcWord, LeBytes, Le, Sum, BranchTarget, BranchBytes, Fields1;
    var r, h := Finished(s, 84, startAddr, 1), Headed(s, 84, startAddr, 1);
    HeaderFront(s, 84, startAddr);
    Le4(HEADER_SIZE);
    assert r[76..80] == h[76..80] == h[64..82][12..16] == LeBytes(HEADER_SIZE, 4) by {
      Fields1At(h, 84, HEADER_SIZE);
    }
    assert r[..84][76..80] == r[76..80];
  }

  // Without a trampoline, an image of 84 bytes passes the checks of the ROM only if the CRC looks
  // like what it replaces.
  lemma CrcOverChecksum(s: seq<Byte>, startAddr: nat)
    requires |s| >= 84 && HEADER <= startAddr < 0x1_0000_0000
    ensures var image, h := Finished(s, 84, startAddr, 1)[..84], Headed(s, 84, startAddr, 1);
      Boots1(image, startAddr)
      <==> CrcWord(h[..80]) == [0, 0] + LeBytes(Sum(Fields1(84, startAddr - HEADER)), 2)
  {
    hide Splice, Headed, CrcWord, LeBytes, Le, Sum, Branches, Fields1, Boots1;
    var image, h := Finished(s, 84, startAddr, 1)[..84], Headed(s, 84, startAddr, 1);
    FinishedParts(s, 84, startAddr, 1);
    HeaderBehind(s, startAddr);
    assert image[64..80] == image[..80][64..80] == h[..80][64..80] == h[64..80];
    assert image[80..84] == CrcWord(h[..80]);
    Checked(image, h, startAddr);
  }

  lemma HeaderBehind(s: seq<Byte>, startAddr: nat)
    requires |s| >= 84 && HEADER <= startAddr
    ensures Headed(s, 84, startAddr, 1)[64..82] == Fields1(84, startAddr - HEADER)
  {
    hide LeBytes, Sum, Fields1;
    var h := Headed(s, 84, startAddr, 1);
    assert h[64..84] == HeaderBytes(84, startAddr, 1);
    assert h[64..82] == h[64..84][..18];
  }

  lemma Checked(image: seq<Byte>, h: seq<Byte>, startAddr: nat)
    requires |image| == 84 <= |h| && HEADER <= startAddr < 0x1_0000_0000
    requires h[64..82] == Fields1(84, startAddr - HEADER) && image[64..80] == h[64..80]
    ensures Boots1(image, startAddr) <==> image[80..84] == [0, 0] + LeBytes(Sum(Fields1(84, startAddr - HEADER)), 2)
  {
    hide LeBytes, Le, Sum, Branches, Fields1;
    var f, word := Fields1(84, startAddr - HEADER), image[80..84];
    Fields1At(h, 84, startAddr - HEADER);
    SamePart(image, h, 64, 68);
    SamePart(image, h, 68, 70);
    SamePart(image, h, 70, 72);
    SamePart(image, h, 72, 76);
    SamePart(image, h, 76, 80);
    Le4(VALIDATION_WORD);
    Le2(HEADER_SIZE);
    Le4(84);
    Le4(startAddr - HEADER);
    SumBound(f);
    Le2(Sum(f));
    assert word[..2] == image[80..82] && word[2..] == image[82..84] && word == word[..2] + word[2..];
    assert h[64..82] == h[64..80] + h[80..82] && image[64..82] == image[64..80] + image[80..82];
    LeTwo(image[82..84]);
    assert ([0, 0] + LeBytes(Sum(f), 2))[..2] == [0, 0] && ([0, 0] + LeBytes(Sum(f), 2))[2..] == LeBytes(Sum(f), 2);
  }

  lemma SamePart(a: seq<Byte>, b: seq<Byte>, from: nat, end: nat)
    requires 64 <= from <= end <= 80 <= |a| && 80 <= |b| && a[64..80] == b[64..80]
    ensures a[from..end] == b[from..end]
  {
    Slice(a, 64, 80, from - 64, end - 64);
    Slice(b, 64, 80, from - 64, end - 64);
  }

  lemma {:induction false} LeTwo(bs: seq<Byte>)
    requires |bs| == 2
    ensures LeBytes(Le(bs), 2) == bs
  {
    var low: int, high: int := bs[0], bs[1];
    assert bs[1..] == [bs[1]] && Le([bs[1]]) == bs[1] && Le(bs) == low + 256 * high;
    assert LeBytes(bs[1], 1) == [bs[1]];
  }

  // The header with its fields, in a buffer it has just been written into.
  lemma HeaderFront(s: seq<Byte>, size: nat, startAddr: nat)
    requires |s| >= 88 && startAddr < HEADER
    ensures var h := Headed(s, size, startAddr, 1);
      && h[64..82] == Fields1(size, HEADER_SIZE) && h[82..84] == LeBytes(Sum(Fields1(size, HEADER_SIZE)), 2)
      && h[84..88] == BranchBytes(84, startAddr)
  {
    hide LeBytes, Sum, BranchBytes, Fields1;
    var h := Headed(s, size, startAddr, 1);
    assert h[64..88] == HeaderBytes(size, startAddr, 1);
    assert h[64..82] == h[64..88][..18] && h[82..84] == h[64..88][18..20] && h[84..88] == h[64..88][20..];
  }

  // What the ROM checks of the header of an image with a trampoline holds; what is left is the
  // instruction at 84.
  lemma Fields1Front(image: seq<Byte>, size: nat, startAddr: nat)
    requires 88 <= |image| == size < 0x1_0000_0000 && startAddr < HEADER
    requires image[64..82] == Fields1(size, HEADER_SIZE) && image[82..84] == LeBytes(Sum(Fields1(size, HEADER_SIZE)), 2)
    ensures Boots1(image, startAddr) <==> Branches(image[84..88], startAddr)
  {
    hide LeBytes, Le, Sum, Branches, Fields1;
    Fields1At(image, size, HEADER_SIZE);
    Le4(VALIDATION_WORD);
    Le2(HEADER_SIZE);
    Le4(size);
    Le4(HEADER_SIZE);
    SumBound(Fields1(size, HEADER_SIZE));
    Le2(Sum(Fields1(size, HEADER_SIZE)));
  }

  const MAX_V0IMAGE_SIZE := 60 * 1024 - 4
  const MAX_V1IMAGE_SIZE := 224 * 1024 - 4

  // What the ROM makes of an image of any size main accepts.
  predicate Starts(s: seq<Byte>, size: nat, startAddr: nat, version: nat)
    requires 84 <= size <= |s| && HEADER + |HeaderBytes(size, startAddr, version)| <= |s|
  {
    if version == 0 then startAddr % 4 == 0
    else if startAddr >= HEADER then
      size > 84
      || CrcWord(Headed(s, 84, startAddr, 1)[..80]) == [0, 0] + LeBytes(Sum(Fields1(84, startAddr - HEADER)), 2)
    else if size > 88 then startAddr % 4 == 0
    else size == 88 && Branches(CrcWord(Headed(s, 88, startAddr, 1)[..84]), startAddr)
  }

  // A whole image of a size main accepts, the four bytes of the CRC included.  The CRC is right,
  // and the ROM starts the image at startAddr exactly if that is aligned or behind the start of a
  // version 1 header, and there is room for the header, which two sizes of version 1 lack.
  method MakeImage(buf: array<Byte>, size: nat, startAddr: nat, version: nat) returns (ok: bool)
    requires version <= 1 && HEADER + HEADER_SIZE <= size <= buf.Length
    requires HEADER + |HeaderBytes(size, startAddr, version)| <= buf.Length
    requires size <= 4 + (if version == 0 then MAX_V0IMAGE_SIZE else MAX_V1IMAGE_SIZE)
    requires startAddr <= size
    modifies buf
    ensures ok <==> size % 4 == 0
    ensures ok ==> Sealed(buf[..size])
    ensures ok && version == 0 ==> (Boots0(buf[..size], startAddr) <==> Starts(old(buf[..]), size, startAddr, 0))
    ensures ok && version == 1 ==> (Boots1(buf[..size], startAddr) <==> Starts(old(buf[..]), size, startAddr, 1))
  {
    hide Finished, Sealed, Boots0, Boots1, Starts, HeaderBytes, Apart;
    ghost var s := buf[..];
    ok := AddSocfpgaHeader(buf, size, startAddr, version);
    if ok {
      assert buf[..size] == buf[..][..size];
      ImageStarts(s, size, startAddr, version);
    }
  }

  lemma ImageStarts(s: seq<Byte>, size: nat, startAddr: nat, version: nat)
    requires version <= 1 && 84 <= size <= |s| && size % 4 == 0
    requires HEADER + |HeaderBytes(size, startAddr, version)| <= |s|
    requires size <= 4 + (if version == 0 then MAX_V0IMAGE_SIZE else MAX_V1IMAGE_SIZE)
    requires startAddr <= size
    ensures var image := Finished(s, size, startAddr, version)[..size];
      && Sealed(image)
      && ((if version == 0 then Boots0(image, startAddr) else Boots1(image, startAddr))
          <==> Starts(s, size, startAddr, version))
  {
    hide Finished, Sealed, Boots0, Boots1, HeaderBytes, Headed, Branches, CrcWord;
    FinishedParts(s, size, startAddr, version);
    ApartExactly(size, startAddr, version);
    if Apart(size, startAddr, version) {
      HeaderInPlace(s, size, startAddr, version);
      var image := Finished(s, size, startAddr, version)[..size];
      if version == 0 { Version0Boots(image, startAddr); } else { Version1Boots(image, startAddr); }
    } else if startAddr >= HEADER {
      CrcOverChecksum(s, startAddr);
    } else if size == 88 {
      CrcOverTrampoline(s, startAddr);
    } else {
      CrcOverHeader(s, startAddr);
    }
  }
}

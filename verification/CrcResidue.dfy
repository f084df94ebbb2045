/** What pins the CRC-32 of RFC 1952: the value of the empty message, its check value, and the residue that
    a message followed by its own checksum leaves. */
module CrcResidue {
  import opened CrcBits
  import opened CrcRegister
  import opened CrcTable
  import opened Crc32

  lemma ByteAdvances(c: bv32, b: bv8, i: bv8, next: bv32)
    requires i == ((c & 0xFF) as bv8) ^ b && next == (c >> 8) ^ CrcTable.CrcTable(i)
    ensures Run(WordBits(c), ByteBits(b)) == WordBits(next)
  {
    hide Run, WordBits, ByteBits, Shift8, CrcTable.CrcTable;
    TableIsEightSteps(i);
    TableStep(c, b, CrcTable.CrcTable(i));
  }

  /** One byte of a message: the register goes from c to next, by the table entry i. */
  lemma Advance(s: seq<bv8>, k: nat, c: bv32, i: bv8, entry: bv32, next: bv32)
    requires k < |s| && i == ((c & 0xFF) as bv8) ^ s[k] && entry == CrcTable.CrcTable(i) && next == (c >> 8) ^ entry
    ensures Run(WordBits(c), Bits(s[k..])) == Run(WordBits(next), Bits(s[k + 1..]))
  {
    hide Run, WordBits, ByteBits, CrcTable.CrcTable;
    ByteAdvances(c, s[k], i, next);
    assert s[k..][1..] == s[k + 1..];
    RunConcat(WordBits(c), ByteBits(s[k]), Bits(s[k + 1..]));
  }

  lemma RunNothing(r: Poly)
    requires |r| == 32
    ensures Run(r, Bits([])) == r
  {}

  /** The checksum of nothing is 0. */
  lemma EmptyChecksum()
    ensures Checksum([]) == Zeros(32)
  {
    RunIsRemainder(Ones(32), Bits([]));
    assert Run(Ones(32), Bits([])) == Ones(32);
  }

  lemma ChecksumOfRun(s: seq<bv8>, c: bv32)
    requires Run(WordBits(0xFFFFFFFF), Bits(s)) == WordBits(c)
    ensures Checksum(s) == WordBits(c ^ 0xFFFFFFFF)
  {
    WordOfOnes();
    RunIsRemainder(Ones(32), Bits(s));
    ComplementWord(c);
  }

  lemma Entries0()
    ensures CrcTable.CrcTable(0xCE) == 0x7CDCEFB7
    ensures CrcTable.CrcTable(0x7A) == 0xB0D09822
    ensures CrcTable.CrcTable(0x01) == 0x77073096
  {}

  lemma Entries1()
    ensures CrcTable.CrcTable(0x19) == 0x646BA8C0
    ensures CrcTable.CrcTable(0x69) == 0x346ED9FC
    ensures CrcTable.CrcTable(0xD5) == 0xF6B9265B
  {}

  lemma Entries2()
    ensures CrcTable.CrcTable(0xA9) == 0xAF0A1B4C
    ensures CrcTable.CrcTable(0x58) == 0x65B0D9C6
    ensures CrcTable.CrcTable(0x69) == 0x346ED9FC
  {}

  lemma Entries3()
    ensures CrcTable.CrcTable(0xFF) == 0x2D02EF8D
    ensures CrcTable.CrcTable(0x72) == 0xBE0B1010
    ensures CrcTable.CrcTable(0x00) == 0x00000000
    ensures CrcTable.CrcTable(0xED) == 0xDEBB9EC5
  {}

  /** The register after the bytes of "123456789". */
  lemma RunOfDigits()
    ensures Run(WordBits(0xFFFFFFFF), Bits([0x31, 0x32, 0x33, 0x34, 0x35, 0x36, 0x37, 0x38, 0x39])) == WordBits(0x340BC6D9)
  {
    hide Run, WordBits, Bits, CrcTable.CrcTable;
    Entries0();
    Entries1();
    Entries2();
    var s: seq<bv8> := [0x31, 0x32, 0x33, 0x34, 0x35, 0x36, 0x37, 0x38, 0x39];
    assert s[0..] == s && s[9..] == [];
    Advance(s, 0, 0xFFFFFFFF, 0xCE, 0x7CDCEFB7, 0x7C231048);
    Advance(s, 1, 0x7C231048, 0x7A, 0xB0D09822, 0xB0ACBB32);
    Advance(s, 2, 0xB0ACBB32, 0x01, 0x77073096, 0x77B79C2D);
    Advance(s, 3, 0x77B79C2D, 0x19, 0x646BA8C0, 0x641C1F5C);
    Advance(s, 4, 0x641C1F5C, 0x69, 0x346ED9FC, 0x340AC5E3);
    Advance(s, 5, 0x340AC5E3, 0xD5, 0xF6B9265B, 0xF68D2C9E);
    Advance(s, 6, 0xF68D2C9E, 0xA9, 0xAF0A1B4C, 0xAFFC9660);
    Advance(s, 7, 0xAFFC9660, 0x58, 0x65B0D9C6, 0x651F2550);
    Advance(s, 8, 0x651F2550, 0x69, 0x346ED9FC, 0x340BC6D9);
    RunNothing(WordBits(0x340BC6D9));
  }

  /** The check value of the CRC-32: of the bytes of "123456789". */
  lemma CheckValue()
    ensures Checksum([0x31, 0x32, 0x33, 0x34, 0x35, 0x36, 0x37, 0x38, 0x39]) == WordBits(0xCBF43926)
  {
    RunOfDigits();
    ChecksumOfRun([0x31, 0x32, 0x33, 0x34, 0x35, 0x36, 0x37, 0x38, 0x39], 0x340BC6D9);
  }

  /** The register after four zero bytes. */
  lemma RunOfZeros()
    ensures Run(WordBits(0xFFFFFFFF), Bits([0, 0, 0, 0])) == WordBits(0xDEBB20E3)
  {
    hide Run, WordBits, Bits, CrcTable.CrcTable;
    Entries3();
    var s: seq<bv8> := [0, 0, 0, 0];
    assert s[0..] == s && s[4..] == [];
    Advance(s, 0, 0xFFFFFFFF, 0xFF, 0x2D02EF8D, 0x2DFD1072);
    Advance(s, 1, 0x2DFD1072, 0x72, 0xBE0B1010, 0xBE26ED00);
    Advance(s, 2, 0xBE26ED00, 0x00, 0x00000000, 0x00BE26ED);
    Advance(s, 3, 0x00BE26ED, 0xED, 0xDEBB9EC5, 0xDEBB20E3);
    RunNothing(WordBits(0xDEBB20E3));
  }

  lemma ZeroBytes()
    ensures Bits([0, 0, 0, 0]) == Zeros(32)
  {
    assert ByteBits(0) == Zeros(8) by {
      forall i | 0 <= i < 8
        ensures !ByteBit(0, i)
      {
        assert 0 & Mask(i) == 0;
      }
    }
    assert Bits([]) == [] && [0][1..] == [] && [0, 0][1..] == [0] && [0, 0, 0][1..] == [0, 0]
           && [0, 0, 0, 0][1..] == [0, 0, 0];
    assert Bits([0]) == Zeros(8) + [];
    assert Bits([0, 0]) == Zeros(8) + Bits([0]);
    assert Bits([0, 0, 0]) == Zeros(8) + Bits([0, 0]);
    assert Bits([0, 0, 0, 0]) == Zeros(8) + Bits([0, 0, 0]);
  }

  /** A message followed by its own checksum, lowest byte first, always has the same checksum. */
  lemma Residue(s: seq<bv8>, t: seq<bv8>)
    requires Bits(t) == Checksum(s)
    ensures Checksum(s + t) == WordBits(0x2144DF1C)
  {
    var r := Run(Ones(32), Bits(s));
    RunIsRemainder(Ones(32), Bits(s));
    assert Bits(t) == AddFront(r, Ones(32));
    BitsConcat(s, t);
    RunConcat(Ones(32), Bits(s), Bits(t));
    RunPreloaded(r, Bits(t));
    assert AddFront(r, AddFront(r, Ones(32))) == Ones(32);
    WordOfOnes();
    ZeroBytes();
    RunOfZeros();
    ChecksumOfRun(s + t, 0xDEBB20E3);
  }

  /** The four bytes of a word, lowest first, have its bits. */
  lemma BytesOfWordBits(w: bv32)
    ensures Bits([(w & 0xFF) as bv8, ((w >> 8) & 0xFF) as bv8, ((w >> 16) & 0xFF) as bv8, ((w >> 24) & 0xFF) as bv8])
            == WordBits(w)
  {
    hide WordBits, ByteBits;
    var a, b, c, d := (w & 0xFF) as bv8, ((w >> 8) & 0xFF) as bv8, ((w >> 16) & 0xFF) as bv8, ((w >> 24) & 0xFF) as bv8;
    FourBytes(a, b, c, d);
    forall i | 0 <= i < 8
      ensures ByteBits(a)[i] == WordBits(w)[i] && ByteBits(b)[i] == WordBits(w)[8 + i]
      ensures ByteBits(c)[i] == WordBits(w)[16 + i] && ByteBits(d)[i] == WordBits(w)[24 + i]
    {
      BitsOfBytes(w, i, a, b, c, d);
    }
    FourParts(ByteBits(a), ByteBits(b), ByteBits(c), ByteBits(d), WordBits(w));
  }

  lemma FourParts(a: Poly, b: Poly, c: Poly, d: Poly, w: Poly)
    requires |a| == |b| == |c| == |d| == 8 && |w| == 32
    requires forall i | 0 <= i < 8 :: a[i] == w[i] && b[i] == w[8 + i] && c[i] == w[16 + i] && d[i] == w[24 + i]
    ensures a + b + c + d == w
  {
    forall i | 0 <= i < 32
      ensures (a + b + c + d)[i] == w[i]
    {
      if 8 <= i < 16 {
        assert w[8 + (i - 8)] == b[i - 8];
      } else if 16 <= i < 24 {
        assert w[16 + (i - 16)] == c[i - 16];
      } else if 24 <= i {
        assert w[24 + (i - 24)] == d[i - 24];
      }
    }
  }

  lemma BitsOfBytes(w: bv32, i: nat, a: bv8, b: bv8, c: bv8, d: bv8)
    requires i < 8 && IsUnpacked(w, a, b, c, d)
    ensures ByteBits(a)[i] == WordBits(w)[i] && ByteBits(b)[i] == WordBits(w)[8 + i]
    ensures ByteBits(c)[i] == WordBits(w)[16 + i] && ByteBits(d)[i] == WordBits(w)[24 + i]
  {
    hide Mask, WordBits, ByteBits, IsUnpacked, AreShifted, Touches;
    MasksApart(i);
    BitOfByte(w, Mask(i), Mask(8 + i), Mask(16 + i), Mask(24 + i), a, b, c, d);
    SameBit(w, a, i, i);
    SameBit(w, b, i, 8 + i);
    SameBit(w, c, i, 16 + i);
    SameBit(w, d, i, 24 + i);
  }

  /** The bytes of a word, lowest first. */
  predicate IsUnpacked(w: bv32, a: bv8, b: bv8, c: bv8, d: bv8) {
    a == (w & 0xFF) as bv8 && b == ((w >> 8) & 0xFF) as bv8 && c == ((w >> 16) & 0xFF) as bv8 && d == ((w >> 24) & 0xFF) as bv8
  }

  predicate Touches(w: bv32, m: bv32) {
    w & m != 0
  }

  lemma SameBit(w: bv32, b: bv8, i: nat, j: nat)
    requires i < 8 && j < 32 && (Touches(b as bv32, Mask(i)) <==> Touches(w, Mask(j)))
    ensures ByteBits(b)[i] == WordBits(w)[j]
  {
    hide Mask;
  }

  lemma FourBytes(a: bv8, b: bv8, c: bv8, d: bv8)
    ensures Bits([a, b, c, d]) == ByteBits(a) + ByteBits(b) + ByteBits(c) + ByteBits(d)
  {
    hide ByteBits;
    assert [a, b, c, d][1..] == [b, c, d] && [b, c, d][1..] == [c, d] && [c, d][1..] == [d] && [d][1..] == [];
    assert Bits([d]) == ByteBits(d) + [] == ByteBits(d);
    assert Bits([c, d]) == ByteBits(c) + ByteBits(d);
    assert Bits([b, c, d]) == ByteBits(b) + (ByteBits(c) + ByteBits(d));
  }

  lemma Masks()
    ensures && Mask(0) == 0x1 && Mask(1) == 0x2 && Mask(2) == 0x4 && Mask(3) == 0x8
            && Mask(4) == 0x10 && Mask(5) == 0x20 && Mask(6) == 0x40 && Mask(7) == 0x80
            && Mask(8) == 0x100 && Mask(9) == 0x200 && Mask(10) == 0x400 && Mask(11) == 0x800
            && Mask(12) == 0x1000 && Mask(13) == 0x2000 && Mask(14) == 0x4000 && Mask(15) == 0x8000
            && Mask(16) == 0x10000 && Mask(17) == 0x20000 && Mask(18) == 0x40000 && Mask(19) == 0x80000
            && Mask(20) == 0x100000 && Mask(21) == 0x200000 && Mask(22) == 0x400000 && Mask(23) == 0x800000
            && Mask(24) == 0x1000000 && Mask(25) == 0x2000000 && Mask(26) == 0x4000000 && Mask(27) == 0x8000000
            && Mask(28) == 0x10000000 && Mask(29) == 0x20000000 && Mask(30) == 0x40000000 && Mask(31) == 0x80000000
  {
    assert Mask(1) == Mask(0) << 1 == 0x2;
    assert Mask(2) == Mask(1) << 1 == 0x4;
    assert Mask(3) == Mask(2) << 1 == 0x8;
    assert Mask(4) == Mask(3) << 1 == 0x10;
    assert Mask(5) == Mask(4) << 1 == 0x20;
    assert Mask(6) == Mask(5) << 1 == 0x40;
    assert Mask(7) == Mask(6) << 1 == 0x80;
    assert Mask(8) == Mask(7) << 1 == 0x100;
    assert Mask(9) == Mask(8) << 1 == 0x200;
    assert Mask(10) == Mask(9) << 1 == 0x400;
    assert Mask(11) == Mask(10) << 1 == 0x800;
    assert Mask(12) == Mask(11) << 1 == 0x1000;
    assert Mask(13) == Mask(12) << 1 == 0x2000;
    assert Mask(14) == Mask(13) << 1 == 0x4000;
    assert Mask(15) == Mask(14) << 1 == 0x8000;
    assert Mask(16) == Mask(15) << 1 == 0x10000;
    assert Mask(17) == Mask(16) << 1 == 0x20000;
    assert Mask(18) == Mask(17) << 1 == 0x40000;
    assert Mask(19) == Mask(18) << 1 == 0x80000;
    assert Mask(20) == Mask(19) << 1 == 0x100000;
    assert Mask(21) == Mask(20) << 1 == 0x200000;
    assert Mask(22) == Mask(21) << 1 == 0x400000;
    assert Mask(23) == Mask(22) << 1 == 0x800000;
    assert Mask(24) == Mask(23) << 1 == 0x1000000;
    assert Mask(25) == Mask(24) << 1 == 0x2000000;
    assert Mask(26) == Mask(25) << 1 == 0x4000000;
    assert Mask(27) == Mask(26) << 1 == 0x8000000;
    assert Mask(28) == Mask(27) << 1 == 0x10000000;
    assert Mask(29) == Mask(28) << 1 == 0x20000000;
    assert Mask(30) == Mask(29) << 1 == 0x40000000;
    assert Mask(31) == Mask(30) << 1 == 0x80000000;
  }

  lemma MasksApart(i: nat)
    requires i < 8
    ensures AreShifted(Mask(i), Mask(8 + i), Mask(16 + i), Mask(24 + i))
  {
    hide Mask;
    Masks();
    assert i == 0 || i == 1 || i == 2 || i == 3 || i == 4 || i == 5 || i == 6 || i == 7;
  }

  predicate AreShifted(m: bv32, m8: bv32, m16: bv32, m24: bv32) {
    m <= 0x80 && m8 == m << 8 && m16 == m << 16 && m24 == m << 24
  }

  lemma BitOfByte(w: bv32, m: bv32, m8: bv32, m16: bv32, m24: bv32, a: bv8, b: bv8, c: bv8, d: bv8)
    requires AreShifted(m, m8, m16, m24) && IsUnpacked(w, a, b, c, d)
    ensures (Touches(a as bv32, m) <==> Touches(w, m)) && (Touches(b as bv32, m) <==> Touches(w, m8))
    ensures (Touches(c as bv32, m) <==> Touches(w, m16)) && (Touches(d as bv32, m) <==> Touches(w, m24))
  {}

  /** `CalculateCrc` of a message, appended lowest byte first: the checksum of the whole is the residue. */
  method AppendOwnCrc(all: array<bv8>, n: nat)
    requires all.Length == n + 4
    modifies all
    ensures all[..n] == old(all[..n]) && Checksum(all[..]) == WordBits(0x2144DF1C)
  {
    var w := CalculateCrc(all, n);
    ghost var message := all[..n];
    all[n] := (w & 0xFF) as bv8;
    all[n + 1] := ((w >> 8) & 0xFF) as bv8;
    all[n + 2] := ((w >> 16) & 0xFF) as bv8;
    all[n + 3] := ((w >> 24) & 0xFF) as bv8;
    BytesOfWordBits(w);
    assert all[n..] == [all[n], all[n + 1], all[n + 2], all[n + 3]];
    Residue(message, all[n..]);
    assert all[..] == message + all[n..];
  }

  // ---------------------------------------------------------------------------
  // Table headers, byte by byte
  // ---------------------------------------------------------------------------

  lemma UnpackWord(a: bv8, b: bv8, c: bv8, d: bv8, w: bv32)
    requires w == Word(a, b, c, d)
    ensures (w & 0xFF) as bv8 == a && ((w >> 8) & 0xFF) as bv8 == b
    ensures ((w >> 16) & 0xFF) as bv8 == c && ((w >> 24) & 0xFF) as bv8 == d
  {}

  /** The stored word is that of bytes 16 to 19, lowest first. */
  lemma StoredInBytes(t: seq<bv8>)
    requires |t| >= 24
    ensures Bits(t[16..20]) == WordBits(StoredCrc(t))
  {
    hide WordBits, Bits, Word;
    var w := StoredCrc(t);
    UnpackWord(t[16], t[17], t[18], t[19], w);
    assert t[16..20] == [t[16], t[17], t[18], t[19]];
    BytesOfWordBits(w);
  }

  /** A table passes exactly when bytes 16 to 19 are the checksum of its first `size` bytes with zeros in
      their place. */
  lemma AcceptsInBytes(t: seq<bv8>, maxSize: nat, size: nat, z: seq<bv8>)
    requires |t| >= 24 && size <= |t| && |z| == size
    requires forall i | 0 <= i < size :: z[i] == if 16 <= i < 20 then 0 else t[i]
    ensures Accepts(t, maxSize, size)
            <==> size != 0 && (maxSize == 0 || size <= maxSize) && Bits(t[16..20]) == Checksum(z)
  {
    StoredInBytes(t);
    assert Covered(t, size) == z;
  }

  /** The header size is that of bytes 12 to 15, lowest first. */
  lemma HeaderSizeInBytes(t: seq<bv8>)
    requires |t| >= 24
    ensures HeaderSize(t)
            == (t[12] as nat) + 256 * (t[13] as nat) + 65536 * (t[14] as nat) + 16777216 * (t[15] as nat)
  {}
}

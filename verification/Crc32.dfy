/** CRC-32 protection of EFI tables (section 4.2 of the UEFI 2.4 Specification; the
    polynomial and bit order are those of section 8 of RFC 1952).

    The checksum that `lib/crc.c` computes is proved equal to long division of the message by
    the CRC polynomial over GF(2). */
module Crc32 {
  import opened CrcBits
  import opened CrcRegister
  import opened CrcTable

  /** RFC 1952 section 8: complement the 32 leading coefficients of the message, multiply
      by x^32, divide, complement the remainder. */
  function Checksum(s: seq<bv8>): (p: Poly)
    ensures |p| == 32
  {
    AddFront(Remainder(Dividend(Ones(32), Bits(s))), Ones(32))
  }

  lemma RunByte(s: seq<bv8>, n: nat, r: Poly)
    requires n < |s| && r == Run(Ones(32), Bits(s[..n]))
    ensures Run(r, ByteBits(s[n])) == Run(Ones(32), Bits(s[..n + 1]))
  {
    BitsSnoc(s, n);
    RunConcat(Ones(32), Bits(s[..n]), ByteBits(s[n]));
  }

  lemma ComplementWord(c: bv32)
    ensures WordBits(c ^ 0xFFFFFFFF) == AddFront(WordBits(c), Ones(32))
  {
    XorOfWords(c, 0xFFFFFFFF);
    WordOfOnes();
  }

  lemma WordOfOnes()
    ensures WordBits(0xFFFFFFFF) == Ones(32)
  {
    forall i | 0 <= i < 32
      ensures Bit(0xFFFFFFFF, i)
    {
      MaskNonzero(i);
      assert 0xFFFFFFFF & Mask(i) == Mask(i);
    }
  }

  /** `CalculateCrc`. The running value is declared as a 64-bit UINTN in the source; it starts
      as a 32-bit value and every table entry is one, so its upper half is always 0. */
  method CalculateCrc(pt: array<bv8>, size: nat) returns (crc: bv32)
    requires size <= pt.Length
    ensures WordBits(crc) == Checksum(pt[..size])
  {
    crc := 0xFFFFFFFF;
    WordOfOnes();
    var i := 0;
    while i < size
      invariant i <= size
      invariant WordBits(crc) == Run(Ones(32), Bits(pt[..][..i]))
    {
      RunByte(pt[..], i, WordBits(crc));
      crc := AdvanceByte(crc, pt[i]);
      i := i + 1;
    }
    ComplementWord(crc);
    crc := crc ^ 0xFFFFFFFF;
    assert pt[..][..size] == pt[..size];
    RunIsRemainder(Ones(32), Bits(pt[..size]));
  }

  /** The CRC32 field of a table header is the little-endian word at offset 16. */
  const CRC_OFFSET := 16
  const HEADER_LENGTH := 24

  predicate InField(i: int) {
    CRC_OFFSET <= i < CRC_OFFSET + 4
  }

  function Byte(v: bv32, k: nat): bv8
    requires k < 4
  {
    if k == 0 then (v & 0xFF) as bv8
    else if k == 1 then ((v >> 8) & 0xFF) as bv8
    else if k == 2 then ((v >> 16) & 0xFF) as bv8
    else ((v >> 24) & 0xFF) as bv8
  }

  function Word(b0: bv8, b1: bv8, b2: bv8, b3: bv8): bv32 {
    (b0 as bv32) | ((b1 as bv32) << 8) | ((b2 as bv32) << 16) | ((b3 as bv32) << 24)
  }

  lemma WordOfBytes(v: bv32)
    ensures Word(Byte(v, 0), Byte(v, 1), Byte(v, 2), Byte(v, 3)) == v
  {}

  lemma BytesOfWord(b0: bv8, b1: bv8, b2: bv8, b3: bv8)
    ensures var v := Word(b0, b1, b2, b3);
            Byte(v, 0) == b0 && Byte(v, 1) == b1 && Byte(v, 2) == b2 && Byte(v, 3) == b3
  {}

  function StoredCrc(t: seq<bv8>): bv32
    requires |t| >= HEADER_LENGTH
  {
    Word(t[CRC_OFFSET], t[CRC_OFFSET + 1], t[CRC_OFFSET + 2], t[CRC_OFFSET + 3])
  }

  function WithCrc(t: seq<bv8>, v: bv32): (r: seq<bv8>)
    requires |t| >= HEADER_LENGTH
    ensures |r| == |t|
  {
    t[CRC_OFFSET := Byte(v, 0)][CRC_OFFSET + 1 := Byte(v, 1)]
     [CRC_OFFSET + 2 := Byte(v, 2)][CRC_OFFSET + 3 := Byte(v, 3)]
  }

  /** What the checksum of a table covers: its first `size` bytes with the field zeroed. */
  function Covered(t: seq<bv8>, size: nat): seq<bv8>
    requires |t| >= HEADER_LENGTH && size <= |t|
  {
    WithCrc(t, 0)[..size]
  }

  lemma WithCrcTwice(t: seq<bv8>, v: bv32, w: bv32)
    requires |t| >= HEADER_LENGTH
    ensures StoredCrc(WithCrc(t, v)) == v
    ensures WithCrc(WithCrc(t, v), w) == WithCrc(t, w)
    ensures WithCrc(t, StoredCrc(t)) == t
  {
    WordOfBytes(v);
    BytesOfWord(t[CRC_OFFSET], t[CRC_OFFSET + 1], t[CRC_OFFSET + 2], t[CRC_OFFSET + 3]);
  }

  /** The condition under which a table passes the check. */
  predicate Accepts(t: seq<bv8>, maxSize: nat, size: nat)
    requires |t| >= HEADER_LENGTH && size <= |t|
  {
    size != 0 && (maxSize == 0 || size <= maxSize) && WordBits(StoredCrc(t)) == Checksum(Covered(t, size))
  }

  method StoreCrc(hdr: array<bv8>, v: bv32)
    requires hdr.Length >= HEADER_LENGTH
    modifies hdr
    ensures hdr[..] == WithCrc(old(hdr[..]), v)
  {
    hdr[CRC_OFFSET] := Byte(v, 0);
    hdr[CRC_OFFSET + 1] := Byte(v, 1);
    hdr[CRC_OFFSET + 2] := Byte(v, 2);
    hdr[CRC_OFFSET + 3] := Byte(v, 3);
  }

  /** The result carries the checksum of its own covered bytes and changes nothing else. */
  method SetCrcAltSize(size: nat, hdr: array<bv8>)
    requires HEADER_LENGTH <= hdr.Length && size <= hdr.Length
    modifies hdr
    ensures WordBits(StoredCrc(hdr[..])) == Checksum(Covered(hdr[..], size))
    ensures forall i | 0 <= i < hdr.Length && !(16 <= i < 20) :: hdr[i] == old(hdr[i])
  {
    ghost var t := hdr[..];
    StoreCrc(hdr, 0);
    var crc := CalculateCrc(hdr, size);
    assert hdr[..size] == Covered(t, size);
    ghost var zeroed := hdr[..];
    StoreCrc(hdr, crc);
    WithCrcTwice(t, 0, crc);
    WithCrcTwice(t, crc, 0);
    assert Covered(hdr[..], size) == Covered(t, size);
    forall i | 0 <= i < hdr.Length && !InField(i)
      ensures hdr[i] == t[i]
    {
      assert hdr[..][i] == WithCrc(t, crc)[i];
    }
  }

  /** The check decides `Accepts` and leaves the table as it was. */
  method CheckCrcAltSize(maxSize: nat, size: nat, hdr: array<bv8>) returns (ok: bool)
    requires HEADER_LENGTH <= hdr.Length
    requires (maxSize == 0 || size <= maxSize) ==> size <= hdr.Length
    modifies hdr
    ensures hdr[..] == old(hdr[..])
    ensures ok <==> size <= hdr.Length && Accepts(hdr[..], maxSize, size)
  {
    if size == 0 {
      return false;
    }
    if maxSize != 0 && size > maxSize {
      return false;
    }
    ghost var t := hdr[..];
    var orgCrc := Word(hdr[CRC_OFFSET], hdr[CRC_OFFSET + 1], hdr[CRC_OFFSET + 2], hdr[CRC_OFFSET + 3]);
    StoreCrc(hdr, 0);
    var crc := CalculateCrc(hdr, size);
    assert hdr[..size] == Covered(t, size);
    StoreCrc(hdr, orgCrc);
    WithCrcTwice(t, 0, orgCrc);
    WithCrcTwice(t, orgCrc, 0);
    ok := orgCrc == crc;
    if WordBits(orgCrc) == WordBits(crc) {
      WordBitsInjective(orgCrc, crc);
    }
  }

  function HeaderSize(t: seq<bv8>): nat
    requires |t| >= HEADER_LENGTH
  {
    t[12] as nat + 0x100 * (t[13] as nat) + 0x1_0000 * (t[14] as nat) + 0x100_0000 * (t[15] as nat)
  }

  method SetCrc(hdr: array<bv8>)
    requires HEADER_LENGTH <= hdr.Length && HeaderSize(hdr[..]) <= hdr.Length
    modifies hdr
    ensures HeaderSize(hdr[..]) == old(HeaderSize(hdr[..]))
    ensures WordBits(StoredCrc(hdr[..])) == Checksum(Covered(hdr[..], HeaderSize(hdr[..])))
    ensures forall i | 0 <= i < hdr.Length && !(16 <= i < 20) :: hdr[i] == old(hdr[i])
  {
    SetCrcAltSize(HeaderSize(hdr[..]), hdr);
  }

  method CheckCrc(maxSize: nat, hdr: array<bv8>) returns (ok: bool)
    requires HEADER_LENGTH <= hdr.Length
    requires (maxSize == 0 || HeaderSize(hdr[..]) <= maxSize) ==> HeaderSize(hdr[..]) <= hdr.Length
    modifies hdr
    ensures hdr[..] == old(hdr[..])
    ensures ok <==> HeaderSize(hdr[..]) <= hdr.Length && Accepts(hdr[..], maxSize, HeaderSize(hdr[..]))
  {
    ok := CheckCrcAltSize(maxSize, HeaderSize(hdr[..]), hdr);
  }

  /** A table that was stamped passes the check, unless its size is 0 or over the limit. */
  method StampThenCheck(maxSize: nat, size: nat, hdr: array<bv8>) returns (ok: bool)
    requires HEADER_LENGTH <= hdr.Length && size <= hdr.Length
    modifies hdr
    ensures ok <==> size != 0 && (maxSize == 0 || size <= maxSize)
    ensures forall i | 0 <= i < hdr.Length && !(16 <= i < 20) :: hdr[i] == old(hdr[i])
  {
    SetCrcAltSize(size, hdr);
    ghost var t := hdr[..];
    ok := CheckCrcAltSize(maxSize, size, hdr);
    assert forall i | 0 <= i < hdr.Length :: hdr[i] == t[i];
  }
}

/** What the check of a table notices, for tables of every length. */
module CrcDetection {
  import opened CrcBits
  import opened CrcRegister
  import opened Crc32

  /** Equal checksums mean equal registers. */
  lemma ChecksumByRun(a: seq<bv8>, b: seq<bv8>)
    ensures Checksum(a) == Checksum(b) <==> Run(Ones(32), Bits(a)) == Run(Ones(32), Bits(b))
  {
    RunIsRemainder(Ones(32), Bits(a));
    RunIsRemainder(Ones(32), Bits(b));
    if Checksum(a) == Checksum(b) {
      ComplementInjective(Run(Ones(32), Bits(a)), Run(Ones(32), Bits(b)));
    }
  }

  /** Byte strings that differ only in a window of at most four bytes have different checksums. */
  lemma BurstOfBytes(a: seq<bv8>, b: seq<bv8>, lo: nat, hi: nat)
    requires |a| == |b| && lo <= hi <= |a| && hi - lo <= 4
    requires a[..lo] == b[..lo] && a[hi..] == b[hi..]
    requires a[lo..hi] != b[lo..hi]
    ensures Checksum(a) != Checksum(b)
  {
    SplitBits(a, lo, hi);
    SplitBits(b, lo, hi);
    if Bits(a[lo..hi]) == Bits(b[lo..hi]) {
      BitsInjective(a[lo..hi], b[lo..hi]);
    }
    BurstOfBits(Ones(32), Bits(a[..lo]), Bits(a[lo..hi]), Bits(b[lo..hi]), Bits(a[hi..]));
    ChecksumByRun(a, b);
  }

  /** Burst detection: once a table passes, no change confined to four consecutive bytes
      outside the CRC32 field that touches the covered range passes again. */
  lemma BurstDetected(t: seq<bv8>, u: seq<bv8>, maxSize: nat, size: nat, p: nat)
    requires |t| == |u| >= HEADER_LENGTH && size <= |t|
    requires Accepts(t, maxSize, size)
    requires forall i | 0 <= i < |t| && !(p <= i < p + 4 && !(16 <= i < 20)) :: u[i] == t[i]
    requires t[..size] != u[..size]
    ensures !Accepts(u, maxSize, size)
  {
    hide Checksum;
    var a, b := Covered(t, size), Covered(u, size);
    assert StoredCrc(t) == StoredCrc(u);
    var k :| 0 <= k < size && t[k] != u[k];
    var hi := if p + 4 <= size then p + 4 else size;
    CoveredAgree(t, u, size, p, hi);
    assert a[p..hi][k - p] == t[k] && b[p..hi][k - p] == u[k];
    BurstOfBytes(a, b, p, hi);
  }

  lemma CoveredAgree(t: seq<bv8>, u: seq<bv8>, size: nat, lo: nat, hi: nat)
    requires |t| == |u| >= HEADER_LENGTH && lo <= hi <= size <= |t|
    requires forall i | 0 <= i < size && !(lo <= i < hi) :: u[i] == t[i]
    ensures var a, b := Covered(t, size), Covered(u, size);
            a[..lo] == b[..lo] && a[hi..] == b[hi..]
  {}

  /** A damaged CRC32 field is always noticed when the rest of the table is intact. */
  lemma FieldDamageDetected(t: seq<bv8>, v: bv32, maxSize: nat, size: nat)
    requires |t| >= HEADER_LENGTH && size <= |t|
    requires Accepts(t, maxSize, size) && v != StoredCrc(t)
    ensures !Accepts(WithCrc(t, v), maxSize, size)
  {
    WithCrcTwice(t, v, 0);
    if WordBits(v) == WordBits(StoredCrc(t)) {
      WordBitsInjective(v, StoredCrc(t));
    }
  }

  /** Exactly which changes slip through: those whose difference, read as a message with
      an empty register, is divisible by the polynomial. */
  lemma UndetectedIffDivisible(t: seq<bv8>, u: seq<bv8>, maxSize: nat, size: nat)
    requires |t| == |u| >= HEADER_LENGTH && size <= |t|
    requires Accepts(t, maxSize, size) && StoredCrc(u) == StoredCrc(t)
    ensures var e := AddFront(Bits(Covered(t, size)), Bits(Covered(u, size)));
            Accepts(u, maxSize, size) <==> Remainder(e + Zeros(32)) == Zeros(32)
  {
    var a, b := Covered(t, size), Covered(u, size);
    var e := AddFront(Bits(a), Bits(b));
    var r, q := Run(Ones(32), Bits(a)), Run(Ones(32), Bits(b));
    RunLinear(Ones(32), Ones(32), Bits(a), Bits(b));
    assert AddFront(Ones(32), Ones(32)) == Zeros(32);
    RunIsRemainder(Zeros(32), e);
    assert Dividend(Zeros(32), e) == e + Zeros(32);
    ChecksumByRun(a, b);
    SumIsZero(r, q);
  }
}

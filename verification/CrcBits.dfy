/** Polynomials over GF(2) as coefficient sequences, highest power first, and the words and bytes
    that stand for them: bit 0 is the highest power. */
module CrcBits {

  /** A polynomial over GF(2): its coefficients, highest power first. */
  type Poly = seq<bool>

  /** Adds a shorter coefficient string to the leading coefficients of a longer one. */
  function AddFront(d: Poly, g: Poly): (r: Poly)
    ensures |r| == |d|
  {
    seq(|d|, i requires 0 <= i < |d| => if i < |g| then d[i] != g[i] else d[i])
  }

  function Zeros(n: nat): (z: Poly)
    ensures |z| == n
  {
    seq(n, _ => false)
  }

  function Ones(n: nat): (p: Poly)
    ensures |p| == n
  {
    seq(n, _ => true)
  }

  const POLY: bv32 := 0xEDB88320

  /** The word with only bit i set. */
  function Mask(i: nat): bv32 {
    if i == 0 then 1 else Mask(i - 1) << 1
  }

  predicate Bit(c: bv32, i: nat) {
    c & Mask(i) != 0
  }

  predicate ByteBit(b: bv8, i: nat) {
    Bit(b as bv32, i)
  }

  function WordBits(c: bv32): (p: Poly)
    ensures |p| == 32
  {
    seq(32, i requires 0 <= i < 32 => Bit(c, i))
  }

  function ByteBits(b: bv8): (p: Poly)
    ensures |p| == 8
  {
    seq(8, i requires 0 <= i < 8 => ByteBit(b, i))
  }

  /** A byte string in the order the division consumes it. */
  function Bits(s: seq<bv8>): (bits: Poly)
    ensures |bits| == 8 * |s|
  {
    if s == [] then [] else ByteBits(s[0]) + Bits(s[1..])
  }

  /** The CRC-32 polynomial: x^32 and then the 32 lower coefficients. */
  const LOWER: Poly := WordBits(POLY)

  const DIVISOR: Poly := [true] + LOWER

  lemma {:induction false} BitsConcat(a: seq<bv8>, b: seq<bv8>)
    ensures Bits(a + b) == Bits(a) + Bits(b)
  {
    if a == [] {
      assert a + b == b;
    } else {
      assert (a + b)[1..] == a[1..] + b;
      BitsConcat(a[1..], b);
    }
  }

  /** A word without bits below position n. */
  lemma {:induction false} NoLowBits(e: bv32, n: nat)
    requires forall i: nat | i < n :: !Bit(e, i)
    ensures e & (Mask(n) - 1) == 0
  {
    if n > 0 {
      NoLowBits(e, n - 1);
      assert !Bit(e, n - 1);
      MaskOneHot(n - 1);
      MaskGrows(e, Mask(n - 1));
    }
  }

  lemma MaskGrows(e: bv32, m: bv32)
    requires m & (m - 1) == 0 && e & (m - 1) == 0 && e & m == 0
    ensures e & ((m << 1) - 1) == 0
  {}

  lemma {:induction false} MaskOneHot(i: nat)
    ensures Mask(i) & (Mask(i) - 1) == 0
  {
    if i > 0 {
      MaskOneHot(i - 1);
      OneHotShift(Mask(i - 1));
    }
  }

  lemma OneHotShift(m: bv32)
    requires m & (m - 1) == 0
    ensures (m << 1) & ((m << 1) - 1) == 0
  {}

  lemma MaskBounds()
    ensures Mask(8) == 0x100 && Mask(31) == 0x8000_0000 && Mask(32) == 0
  {
    assert Mask(8) == 0x100;
    assert Mask(16) == 0x10000;
    assert Mask(24) == 0x1000000;
  }

  lemma {:induction false} MaskNonzero(i: nat)
    requires i < 32
    ensures Mask(i) != 0
    decreases 32 - i
  {
    MaskBounds();
    if i < 31 {
      MaskNonzero(i + 1);
      assert Mask(i + 1) == Mask(i) << 1;
    }
  }

  lemma WordBitsInjective(c: bv32, d: bv32)
    requires WordBits(c) == WordBits(d)
    ensures c == d
  {
    forall i: nat {:trigger Bit(c ^ d, i)} | i < 32
      ensures !Bit(c ^ d, i)
    {
      assert WordBits(c)[i] == WordBits(d)[i];
      XorBit(c, d, i);
    }
    NoLowBits(c ^ d, 32);
    MaskBounds();
    assert (c ^ d) & (0 - 1) == 0;
  }

  lemma ByteBitsInjective(a: bv8, b: bv8)
    requires ByteBits(a) == ByteBits(b)
    ensures a == b
  {
    var c, d := a as bv32, b as bv32;
    forall i: nat {:trigger Bit(c ^ d, i)} | i < 8
      ensures !Bit(c ^ d, i)
    {
      assert ByteBits(a)[i] == ByteBits(b)[i];
      XorBit(c, d, i);
    }
    NoLowBits(c ^ d, 8);
    MaskBounds();
    assert (c ^ d) & 0xFF == 0;
  }

  /** The lower coefficients end in 1, so a step can be undone. */
  lemma LowerEndsInOne()
    ensures LOWER[31]
  {
    MaskBounds();
  }

  lemma XorAtMask(c: bv32, d: bv32, m: bv32)
    requires m & (m - 1) == 0
    ensures ((c ^ d) & m != 0) == ((c & m != 0) != (d & m != 0))
  {}

  lemma XorBit(c: bv32, d: bv32, i: nat)
    ensures Bit(c ^ d, i) == (Bit(c, i) != Bit(d, i))
  {
    MaskOneHot(i);
    XorAtMask(c, d, Mask(i));
  }

  lemma BitsSnoc(s: seq<bv8>, n: nat)
    requires n < |s|
    ensures Bits(s[..n + 1]) == Bits(s[..n]) + ByteBits(s[n])
  {
    assert s[..n + 1] == s[..n] + [s[n]];
    BitsConcat(s[..n], [s[n]]);
    assert Bits([s[n]]) == ByteBits(s[n]);
  }

  lemma {:induction false} BitsInjective(a: seq<bv8>, b: seq<bv8>)
    requires |a| == |b| && Bits(a) == Bits(b)
    ensures a == b
    decreases |a|
  {
    if a != [] {
      assert ByteBits(a[0]) == Bits(a)[..8] == Bits(b)[..8] == ByteBits(b[0]);
      ByteBitsInjective(a[0], b[0]);
      assert Bits(a[1..]) == Bits(a)[8..] == Bits(b)[8..] == Bits(b[1..]);
      BitsInjective(a[1..], b[1..]);
    }
  }

  lemma SplitBits(a: seq<bv8>, lo: nat, hi: nat)
    requires lo <= hi <= |a|
    ensures Bits(a) == Bits(a[..lo]) + Bits(a[lo..hi]) + Bits(a[hi..])
  {
    SplitAt(a, hi);
    BitsConcat(a[..hi], a[hi..]);
    SplitAt(a[..hi], lo);
    BitsConcat(a[..lo], a[lo..hi]);
  }

  lemma SplitAt(a: seq<bv8>, n: nat)
    requires n <= |a|
    ensures a == a[..n] + a[n..]
    ensures forall m | 0 <= m <= n :: a[..n][..m] == a[..m] && a[..n][m..] == a[m..n]
  {}
}

/** Little-endian words in byte memory. */
module ByteWords {
  import opened Basics
  import opened Digits

  /** Unsigned 64-bit addition. */
  function Plus(x: uint64, y: uint64): (z: uint64)
    ensures z == x + y || z == x + y - TWO64
  {
    if x + y < TWO64 then x + y else x + y - TWO64
  }

  function Value(b: seq<byte>): nat {
    if b == [] then 0 else b[0] + 256 * Value(b[1..])
  }

  function Bytes(v: nat, n: nat): (b: seq<byte>)
    ensures |b| == n
  {
    if n == 0 then [] else [v % 256] + Bytes(v / 256, n - 1)
  }

  function Limit(n: nat): nat {
    if n == 0 then 1 else 256 * Limit(n - 1)
  }

  lemma LimitOfEight()
    ensures Limit(8) == TWO64
  {
    assert Limit(4) == 0x1_0000_0000;
  }

  lemma {:induction false} ValueBound(b: seq<byte>)
    ensures Value(b) < Limit(|b|)
  {
    if b != [] {
      ValueBound(b[1..]);
    }
  }

  lemma {:induction false} ValueOfBytes(v: nat, n: nat)
    requires v < Limit(n)
    ensures Value(Bytes(v, n)) == v
  {
    if n > 0 {
      assert v == v / 256 * 256 + v % 256;
      ValueOfBytes(v / 256, n - 1);
      assert Bytes(v, n)[1..] == Bytes(v / 256, n - 1);
    }
  }

  lemma {:induction false} BytesOfValue(b: seq<byte>)
    ensures Bytes(Value(b), |b|) == b
  {
    if b != [] {
      BytesOfValue(b[1..]);
      assert Value(b) % 256 == b[0] && Value(b) / 256 == Value(b[1..]);
    }
  }

  /** Four bytes, the lowest first. */
  function Quad(b0: int, b1: int, b2: int, b3: int): int {
    b0 + 0x100 * b1 + 0x1_0000 * b2 + 0x100_0000 * b3
  }

  lemma EightBytes(b: seq<byte>)
    requires |b| == 8
    ensures Value(b) == Quad(b[0], b[1], b[2], b[3]) + 0x1_0000_0000 * Quad(b[4], b[5], b[6], b[7])
  {
    FourMore(b);
    FourMore(b[4..]);
    assert b[4..][4..] == [];
  }

  lemma FourMore(b: seq<byte>)
    requires |b| >= 4
    ensures Value(b) == Quad(b[0], b[1], b[2], b[3]) + 0x1_0000_0000 * Value(b[4..])
  {
    assert b[1..][1..] == b[2..] && b[2..][1..] == b[3..] && b[3..][1..] == b[4..];
    assert Value(b) == b[0] + 256 * Value(b[1..]) && Value(b[1..]) == b[1] + 256 * Value(b[2..]);
    assert Value(b[2..]) == b[2] + 256 * Value(b[3..]) && Value(b[3..]) == b[3] + 256 * Value(b[4..]);
  }

  /** Addition of words, written out. */
  lemma PlusIs(x: uint64, y: uint64)
    ensures Plus(x, y) == if x + y < 0x1_0000_0000_0000_0000 then x + y else x + y - 0x1_0000_0000_0000_0000
  {}

  // ---------------------------------------------------------------------------
  // Memory
  // ---------------------------------------------------------------------------

  /** The word at an address. */
  function LoadAt(m: seq<byte>, at: nat): uint64
    requires at + 8 <= |m|
  {
    ValueBound(m[at..at + 8]);
    LimitOfEight();
    Value(m[at..at + 8])
  }

  /** It is made of its bytes, the lowest first. */
  lemma LoadIs(m: seq<byte>, at: nat)
    requires at + 8 <= |m|
    ensures LoadAt(m, at)
            == Quad(m[at], m[at + 1], m[at + 2], m[at + 3])
               + 0x1_0000_0000 * Quad(m[at + 4], m[at + 5], m[at + 6], m[at + 7])
  {
    EightBytes(m[at..at + 8]);
  }

  function StoreAt(m: seq<byte>, at: nat, v: uint64): (r: seq<byte>)
    requires at + 8 <= |m|
    ensures |r| == |m|
  {
    m[..at] + Bytes(v, 8) + m[at + 8..]
  }

  lemma LoadStored(m: seq<byte>, at: nat, v: uint64)
    requires at + 8 <= |m|
    ensures LoadAt(StoreAt(m, at, v), at) == v
  {
    LimitOfEight();
    ValueOfBytes(v, 8);
    assert StoreAt(m, at, v)[at..at + 8] == Bytes(v, 8);
  }

  /** Two stretches of memory have no byte in common. */
  predicate Apart(a: int, n: int, b: int, k: int) {
    a + n <= b || b + k <= a
  }

  lemma LoadApart(m: seq<byte>, at: nat, v: uint64, b: nat)
    requires at + 8 <= |m| && b + 8 <= |m| && Apart(at, 8, b, 8)
    ensures LoadAt(StoreAt(m, at, v), b) == LoadAt(m, b)
  {
    assert StoreAt(m, at, v)[b..b + 8] == m[b..b + 8];
  }

  method Load(mem: array<byte>, at: nat) returns (v: uint64)
    requires at + 8 <= mem.Length
    ensures v == LoadAt(mem[..], at)
  {
    LimitOfEight();
    ghost var word := mem[at..at + 8];
    ValueBound(word);
    assert mem[..][at..at + 8] == word;
    var k: nat, w: nat := 8, 0;
    assert word[8..] == [];
    while k > 0
      invariant k <= 8 && w == Value(word[k..])
    {
      k := k - 1;
      assert word[k..][1..] == word[k + 1..];
      w := mem[at + k] + 256 * w;
    }
    assert word[0..] == word;
    v := w;
  }

  method Store(mem: array<byte>, at: nat, v: uint64)
    requires at + 8 <= mem.Length
    modifies mem
    ensures mem[..] == StoreAt(old(mem[..]), at, v)
  {
    var k: nat, w: nat := 0, v;
    ghost var all := Bytes(v, 8);
    while k < 8
      invariant k <= 8 && all[k..] == Bytes(w, 8 - k)
      invariant mem[..at] == old(mem[..at]) && mem[at..at + k] == all[..k] && mem[at + 8..] == old(mem[at + 8..])
    {
      assert all[k..][0] == all[k] == w % 256 && all[k..][1..] == all[k + 1..];
      mem[at + k] := w % 256;
      k, w := k + 1, w / 256;
    }
    assert mem[..] == mem[..at] + mem[at..at + 8] + mem[at + 8..];
  }
}

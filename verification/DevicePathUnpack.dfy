/** `UnpackDevicePath`: a copy of a path in which every node starts on an aligned offset. */
module DevicePathUnpack {
  import opened Basics
  import opened DevicePathFormat
  import opened DevicePath

  lemma UnpackSnoc(ns: seq<Node>, k: nat, align: alignment)
    requires k < |ns|
    ensures UnpackAll(ns[..k + 1], align) == UnpackAll(ns[..k], align) + [UnpackNode(ns[k], align)]
  {
    UnpackConcat(ns[..k], [ns[k]], align);
    assert ns[..k + 1] == ns[..k] + [ns[k]];
    assert UnpackAll([ns[k]], align) == [UnpackNode(ns[k], align)];
  }

  lemma {:induction false} UnpackConcat(a: seq<Node>, b: seq<Node>, align: alignment)
    ensures UnpackAll(a + b, align) == UnpackAll(a, align) + UnpackAll(b, align)
  {
    if a == [] {
      assert a + b == b;
    } else {
      assert (a + b)[1..] == a[1..] + b;
      UnpackConcat(a[1..], b, align);
    }
  }

  /** Rounding the running total after each node is rounding each node. */
  lemma RunningTotal(ns: seq<Node>, k: nat, align: alignment, size: nat)
    requires k < |ns| && size == Total(UnpackAll(ns[..k], align))
    ensures RoundUp(size + Length(ns[k]), align) == Total(UnpackAll(ns[..k + 1], align))
  {
    OffsetAligned(ns[..k], align, k);
    assert UnpackAll(ns[..k], align)[..k] == UnpackAll(ns[..k], align);
    AlignedSum(size, Length(ns[k]), align);
    UnpackSnoc(ns, k, align);
    var u := UnpackNode(ns[k], align);
    TotalConcat(UnpackAll(ns[..k], align), [u]);
    assert Total([u]) == Length(u) == RoundUp(Length(ns[k]), align);
  }

  /** The first pass: the size of the aligned copy. */
  method UnpackedSize(buf: array<byte>, p: nat, align: alignment) returns (size: nat)
    requires Decode(buf[..], p).Some?
    ensures size == Total(UnpackAll(Decode(buf[..], p).value, align))
  {
    ghost var ns := Decode(buf[..], p).value;
    var src := p;
    size := 0;
    ghost var k := 0;
    NodeHere(buf[..], p, ns, 0, src);
    while true
      invariant k < |ns| && src == p + Total(ns[..k])
      invariant HeaderAt(buf[..], src, ns[k])
      invariant size == Total(UnpackAll(ns[..k], align))
      decreases |ns| - k
    {
      NodeHere(buf[..], p, ns, k, src);
      RunningTotal(ns, k, align, size);
      size := size + NodeLength(buf[..], src);
      size := size + AlignSize(size, align);
      if buf[src] % UNPACKED == END_TYPE && buf[src + 1] == END_ENTIRE {
        break;
      }
      src := src + NodeLength(buf[..], src);
      k := k + 1;
      NodeHere(buf[..], p, ns, k, src);
    }
    assert ns[..k + 1] == ns;
  }

  /** One round of the second pass: copy a node into zeroed memory, then overwrite its
      length and set the unpacked bit. */
  method UnpackOne(dst: array<byte>, dest: nat, buf: array<byte>, src: nat, align: alignment,
                   ghost u: seq<byte>)
    returns (size: nat)
    requires dst != buf && NodeAt(buf[..], src)
    requires u == EncodeNode(UnpackNode(ReadNode(buf[..], src), align))
    requires dest + RoundUp(NodeLength(buf[..], src), align) <= dst.Length
    requires forall j | dest <= j < dst.Length :: dst[j] == 0
    modifies dst
    ensures size == |u| == RoundUp(NodeLength(buf[..], src), align)
    ensures dst[..dest + size] == old(dst[..dest]) + u
    ensures forall j | dest + size <= j < dst.Length :: dst[j] == 0
  {
    hide EncodeNode, UnpackNode;
    ghost var n := ReadNode(buf[..], src);
    size := NodeLength(buf[..], src);
    ghost var length := size;
    ghost var before := dst[..];
    CopyMem(dst, dest, buf, src, size);
    ghost var copied := dst[..];
    size := size + AlignSize(size, align);
    dst[dest + 2] := size % 0x100;
    dst[dest + 3] := size / 0x100 % 0x100;
    dst[dest] := SetUnpackedBit(dst[dest]);
    EncodeRead(buf[..], src);
    UnpackedBytes(before, dest, n, align, copied, dst[..]);
  }

  lemma UnpackedBytes(before: seq<byte>, dest: nat, n: Node, align: alignment,
                      copied: seq<byte>, after: seq<byte>)
    requires Length(n) >= HEADER
    requires dest + RoundUp(Length(n), align) <= |before|
    requires forall j | dest <= j < |before| :: before[j] == 0
    requires copied == before[..dest] + EncodeNode(n) + before[dest + Length(n)..]
    requires var size := RoundUp(Length(n), align);
             after == copied[dest + 2 := size % 0x100][dest + 3 := size / 0x100 % 0x100]
                            [dest := SetUnpackedBit(copied[dest])]
    ensures var size := RoundUp(Length(n), align);
            && after[..dest + size] == before[..dest] + EncodeNode(UnpackNode(n, align))
            && forall j | dest + size <= j < |after| :: after[j] == 0
  {
    var size, length := RoundUp(Length(n), align), Length(n);
    var e := EncodeNode(UnpackNode(n, align));
    UnpackNodeKeeps(n, align);
    assert |e| == size;
    forall j | 0 <= j < size
      ensures after[dest + j] == e[j]
    {
      if HEADER <= j < length {
        assert copied[dest + j] == EncodeNode(n)[j] == n.data[j - HEADER];
      } else if j >= length {
        assert copied[dest + j] == before[dest + j];
      } else {
        assert copied[dest + j] == EncodeNode(n)[j];
      }
    }
    assert after[..dest + size] == before[..dest] + e;
  }

  /** Everything a round of the second pass relies on: `done` holds the k copies made so far
      and `whole` all of them. */
  lemma UnpackRound(s: seq<byte>, p: nat, ns: seq<Node>, k: nat, src: nat, align: alignment,
                    done: seq<byte>, whole: seq<byte>)
    requires Decode(s, p) == Some(ns)
    requires k < |ns| && src == p + Total(ns[..k])
    requires done == Encode(UnpackAll(ns[..k], align)) && whole == Encode(UnpackAll(ns, align))
    ensures NodeAt(s, src)
    ensures var u := EncodeNode(UnpackNode(ReadNode(s, src), align));
            && |u| == RoundUp(NodeLength(s, src), align)
            && done + u == Encode(UnpackAll(ns[..k + 1], align))
            && |done + u| <= |whole|
            && (k == |ns| - 1 ==> done + u == whole)
    ensures s[src] % UNPACKED == END_TYPE && s[src + 1] == END_ENTIRE <==> k == |ns| - 1
    ensures src + NodeLength(s, src) == p + Total(ns[..k + 1])
  {
    NodeHere(s, p, ns, k, src);
    DecodeStep(s, src);
    RoundFits(ns, k, align, done);
  }

  /** The body of the second pass. */
  method CopyNode(dst: array<byte>, dest: nat, buf: array<byte>, src: nat, align: alignment,
                  ghost p: nat, ghost ns: seq<Node>, ghost k: nat, ghost whole: seq<byte>)
    returns (nextDest: nat, nextSrc: nat, last: bool)
    requires dst != buf && Decode(buf[..], p) == Some(ns)
    requires whole == Encode(UnpackAll(ns, align)) && dst.Length == |whole|
    requires k < |ns| && src == p + Total(ns[..k])
    requires dest <= dst.Length && dst[..dest] == Encode(UnpackAll(ns[..k], align))
    requires forall j | dest <= j < dst.Length :: dst[j] == 0
    modifies dst
    ensures last <==> k == |ns| - 1
    ensures nextSrc == p + Total(ns[..k + 1])
    ensures nextDest <= dst.Length && dst[..nextDest] == Encode(UnpackAll(ns[..k + 1], align))
    ensures forall j | nextDest <= j < dst.Length :: dst[j] == 0
    ensures last ==> nextDest == dst.Length
  {
    UnpackRound(buf[..], p, ns, k, src, align, dst[..dest], whole);
    ghost var u := EncodeNode(UnpackNode(ReadNode(buf[..], src), align));
    var size := UnpackOne(dst, dest, buf, src, align, u);
    nextDest := dest + size;
    nextSrc := src + NodeLength(buf[..], src);
    last := buf[src] % UNPACKED == END_TYPE && buf[src + 1] == END_ENTIRE;
  }

  /** The second pass fills the buffer sized by the first exactly. */
  method UnpackInto(dst: array<byte>, buf: array<byte>, p: nat, align: alignment,
                    ghost ns: seq<Node>, ghost whole: seq<byte>)
    requires dst != buf && Decode(buf[..], p) == Some(ns)
    requires whole == Encode(UnpackAll(ns, align)) && dst.Length == |whole|
    requires forall j | 0 <= j < dst.Length :: dst[j] == 0
    modifies dst
    ensures dst[..] == whole
  {
    var src: nat, dest: nat, last := p, 0, false;
    ghost var s, k: nat := buf[..], 0;
    while !last
      invariant buf[..] == s
      invariant if last then k == |ns| && dest == dst.Length else k < |ns| && src == p + Total(ns[..k])
      invariant dest <= dst.Length && dst[..dest] == Encode(UnpackAll(ns[..k], align))
      invariant forall j | dest <= j < dst.Length :: dst[j] == 0
      decreases |ns| - k
    {
      dest, src, last := CopyNode(dst, dest, buf, src, align, p, ns, k, whole);
      k := k + 1;
    }
    assert ns[..k] == ns && dst[..dest] == dst[..];
  }

  lemma RoundFits(ns: seq<Node>, k: nat, align: alignment, done: seq<byte>)
    requires k < |ns| && done == Encode(UnpackAll(ns[..k], align))
    ensures var u := EncodeNode(UnpackNode(ns[k], align));
            && |u| == RoundUp(Length(ns[k]), align)
            && done + u == Encode(UnpackAll(ns[..k + 1], align))
            && |done + u| <= Total(UnpackAll(ns, align))
            && (k == |ns| - 1 ==> done + u == Encode(UnpackAll(ns, align)))
  {
    var u, before := UnpackNode(ns[k], align), UnpackAll(ns[..k], align);
    UnpackNodeKeeps(ns[k], align);
    UnpackSnoc(ns, k, align);
    EncodeConcat(before, [u]);
    EncodeCons(u, []);
    assert [u] + [] == [u];
    assert ns == ns[..k + 1] + ns[k + 1..];
    UnpackConcat(ns[..k + 1], ns[k + 1..], align);
    TotalConcat(UnpackAll(ns[..k + 1], align), UnpackAll(ns[k + 1..], align));
    if k == |ns| - 1 {
      assert ns[..k + 1] == ns;
    }
  }

  /** `UnpackDevicePath`; `allocOk` is the answer of the pool. For every path the two passes agree on
      the size and nothing is left over. The copy decodes to the unpacked nodes exactly when no
      rounded length needs a 17th bit; a node whose does claims length 0, and a reader gets no
      further. */
  method UnpackDevicePath(buf: array<byte>, p: nat, align: alignment, allocOk: bool)
    returns (dst: array?<byte>)
    requires Decode(buf[..], p).Some?
    ensures dst != null <==> allocOk
    ensures dst != null ==> fresh(dst) && dst[..] == Encode(UnpackAll(Decode(buf[..], p).value, align))
    ensures dst != null ==>
              var ns := Decode(buf[..], p).value;
              Decode(dst[..], 0) == if FitsAligned(ns, align) then Some(UnpackAll(ns, align)) else None
    ensures dst != null ==>
              var ns := Decode(buf[..], p).value;
              forall k | 0 <= k < |ns| :: LengthClaimed(dst[..], ns, align, k)
  {
    var size := UnpackedSize(buf, p, align);
    if !allocOk {
      return null;
    }
    dst := new byte[size](_ => 0);
    ghost var ns := Decode(buf[..], p).value;
    UnpackInto(dst, buf, p, align, ns, Encode(UnpackAll(ns, align)));
    EncodeDecoded(buf[..], p);
    UnpackedDecodes(dst[..], ns, align);
    forall k | 0 <= k < |ns|
      ensures LengthClaimed(dst[..], ns, align, k)
    {
      UnpackedLength(ns, align, k);
    }
  }

  /** The length that the copy of node k claims. */
  predicate LengthClaimed(s: seq<byte>, ns: seq<Node>, align: alignment, k: nat)
    requires k < |ns|
  {
    var at := Total(UnpackAll(ns, align)[..k]);
    && at + HEADER <= |s|
    && NodeLength(s, at) == if Length(ns[k]) > 0x1_0000 - align then 0 else RoundUp(Length(ns[k]), align)
  }

  lemma UnpackedLength(ns: seq<Node>, align: alignment, k: nat)
    requires k < |ns| && Fits(ns)
    ensures LengthClaimed(Encode(UnpackAll(ns, align)), ns, align, k)
  {
    var all := UnpackAll(ns, align);
    var front, u, rest := all[..k], all[k], all[k + 1..];
    UnpackedNodes(ns, align, k);
    UnpackNodeKeeps(ns[k], align);
    RoundedLimit(Length(ns[k]), align);
    LengthField(Length(u));
    assert all == front + ([u] + rest);
    EncodeConcat(front, [u] + rest);
    EncodeCons(u, rest);
    HeaderBehind(Encode(front), u, Encode(rest));
  }

  lemma HeaderBehind(front: seq<byte>, u: Node, rest: seq<byte>)
    ensures NodeLength(front + (EncodeNode(u) + rest), |front|) == Length(u) % 0x100 + 0x100 * (Length(u) / 0x100 % 0x100)
  {
    var s := front + (EncodeNode(u) + rest);
    assert s[|front| + 2] == EncodeNode(u)[2] && s[|front| + 3] == EncodeNode(u)[3];
  }

  lemma UnpackedDecodes(s: seq<byte>, ns: seq<Node>, align: alignment)
    requires IsPath(ns) && Fits(ns) && s == Encode(UnpackAll(ns, align))
    ensures Decode(s, 0) == if FitsAligned(ns, align) then Some(UnpackAll(ns, align)) else None
  {
    if FitsAligned(ns, align) {
      UnpackedPath(ns, align);
      DecodeWhole(s, UnpackAll(ns, align));
    } else {
      assert s[0..] == s;
      ReaderStops(s, 0, ns, align);
    }
  }

  /** A reader does not get past a node that claims length 0. */
  lemma {:induction false} ReaderStops(s: seq<byte>, i: nat, ns: seq<Node>, align: alignment)
    requires IsPath(ns) && Fits(ns) && !FitsAligned(ns, align)
    requires i <= |s| && s[i..] == Encode(UnpackAll(ns, align))
    ensures Decode(s, i) == None
    decreases |ns|
  {
    var u, rest := UnpackNode(ns[0], align), Encode(UnpackAll(ns[1..], align));
    UnpackNodeKeeps(ns[0], align);
    RoundedLimit(Length(ns[0]), align);
    EncodeCons(u, UnpackAll(ns[1..], align));
    NodeAtHead(s, i, u, rest);
    if Length(u) < 0x1_0000 {
      BadNodeBehind(ns, align);
      assert s[i + Length(u)..] == s[i..][Length(u)..] == rest;
      ReaderStops(s, i + Length(u), ns[1..], align);
      DecodeStops(s, i, u);
    }
  }

  lemma BadNodeBehind(ns: seq<Node>, align: alignment)
    requires IsPath(ns) && Fits(ns) && !FitsAligned(ns, align) && RoundUp(Length(ns[0]), align) < 0x1_0000
    ensures !IsEnd(ns[0]) && IsPath(ns[1..]) && Fits(ns[1..]) && !FitsAligned(ns[1..], align)
  {
    PathTail(ns);
    var k :| 0 <= k < |ns| && RoundUp(Length(ns[k]), align) >= 0x1_0000;
    assert k > 0 && ns[1..][k - 1] == ns[k];
  }

  lemma DecodeStops(s: seq<byte>, i: nat, u: Node)
    requires NodeAt(s, i) && ReadNode(s, i) == u && !IsEnd(u) && Decode(s, i + Length(u)) == None
    ensures Decode(s, i) == None
  {}

  lemma NodeAtHead(s: seq<byte>, i: nat, u: Node, rest: seq<byte>)
    requires i <= |s| && s[i..] == EncodeNode(u) + rest && Length(u) <= 0x1_0000
    ensures Length(u) < 0x1_0000 ==> NodeAt(s, i) && ReadNode(s, i) == u
    ensures Length(u) == 0x1_0000 ==> !NodeAt(s, i)
  {
    if Length(u) < 0x1_0000 {
      assert s[i..i + Length(u)] == s[i..][..Length(u)] == EncodeNode(u);
      ReadEncoded(s, i, u);
    } else {
      assert s[i + 2] == s[i..][2] == 0 && s[i + 3] == s[i..][3] == 0;
    }
  }

  /** Unpacking the result again gives the same bytes. */
  method UnpackAgain(buf: array<byte>, p: nat, align: alignment) returns (once: array<byte>, twice: array<byte>)
    requires Decode(buf[..], p).Some?
    requires FitsAligned(Decode(buf[..], p).value, align)
    ensures Decode(once[..], 0) == Some(UnpackAll(Decode(buf[..], p).value, align))
    ensures twice[..] == once[..]
  {
    ghost var ns := Decode(buf[..], p).value;
    once := UnpackDevicePath(buf, p, align, true);
    UnpackedFits(ns, align);
    twice := UnpackDevicePath(once, 0, align, true);
    UnpackTwice(ns, align);
  }

  lemma UnpackedFits(ns: seq<Node>, align: alignment)
    requires FitsAligned(ns, align)
    ensures FitsAligned(UnpackAll(ns, align), align)
  {
    forall k | 0 <= k < |ns|
      ensures RoundUp(Length(UnpackAll(ns, align)[k]), align) < 0x1_0000
    {
      UnpackedNodes(ns, align, k);
      UnpackNodeKeeps(ns[k], align);
    }
  }

  /** The copy of a node can be walked exactly when its rounded length fits the 16-bit field; that
      is up to 65532 bytes for 4-byte and 65528 for 8-byte alignment. Above, it claims length 0. */
  lemma UnpackedWalkableIff(n: Node, align: alignment, rest: seq<byte>)
    requires Length(n) < 0x1_0000
    ensures NodeAt(EncodeNode(UnpackNode(n, align)) + rest, 0) <==> RoundUp(Length(n), align) < 0x1_0000
    ensures RoundUp(Length(n), align) < 0x1_0000 <==> Length(n) <= 0x1_0000 - align
  {
    UnpackNodeKeeps(n, align);
    RoundedLimit(Length(n), align);
    var u := UnpackNode(n, align);
    LengthField(Length(u));
    FirstNode(u, rest);
  }

  lemma FirstNode(u: Node, rest: seq<byte>)
    ensures NodeAt(EncodeNode(u) + rest, 0)
            <==> var k := Length(u) % 0x100 + 0x100 * (Length(u) / 0x100 % 0x100); HEADER <= k <= Length(u) + |rest|
  {
    var s := EncodeNode(u) + rest;
    assert s[2] == Length(u) % 0x100 && s[3] == Length(u) / 0x100 % 0x100;
  }

  /** A length field holds 16 bits. */
  lemma LengthField(n: nat)
    requires n <= 0x1_0000
    ensures n % 0x100 + 0x100 * (n / 0x100 % 0x100) == if n == 0x1_0000 then 0 else n
  {
    assert n == n / 0x100 * 0x100 + n % 0x100;
  }

  lemma RoundedLimit(n: nat, align: alignment)
    requires n < 0x1_0000
    ensures RoundUp(n, align) <= 0x1_0000
    ensures RoundUp(n, align) < 0x1_0000 <==> n <= 0x1_0000 - align
  {
    if align == 4 {
      assert n == n / 4 * 4 + n % 4;
    } else {
      assert n == n / 8 * 8 + n % 8;
    }
  }
}

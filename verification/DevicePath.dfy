/** The device path operations of `lib/dpath.c` on raw buffers. A C pointer is a buffer and
    an offset into it; a pointer that may be NULL is an optional offset. */
module DevicePath {
  import opened Basics
  import opened DevicePathFormat

  // ---------------------------------------------------------------------------
  // What a pointer designates
  // ---------------------------------------------------------------------------

  /** A complete path with regular end nodes starts here (or the pointer is NULL). */
  predicate Readable(s: seq<byte>, p: Option<nat>) {
    p.Some? ==> Decode(s, p.value).Some? && WellFormed(Decode(s, p.value).value)
  }

  /** The path also keeps every instance within the walking limit. */
  predicate Walkable(s: seq<byte>, p: Option<nat>) {
    Readable(s, p) && (p.Some? ==> Capped(Decode(s, p.value).value))
  }

  function NodesAt(s: seq<byte>, p: Option<nat>): seq<Node>
    requires Readable(s, p)
  {
    if p.None? then [] else Decode(s, p.value).value
  }

  function InstancesAt(s: seq<byte>, p: Option<nat>): seq<Instance>
    requires Readable(s, p)
  {
    if p.None? then [] else Instances(NodesAt(s, p))
  }

  predicate FitsEach(insts: seq<Instance>) {
    forall k | 0 <= k < |insts| :: Fits(insts[k])
  }

  lemma InstancesFit(s: seq<byte>, p: Option<nat>)
    requires Readable(s, p)
    ensures FitsEach(InstancesAt(s, p))
    ensures forall k, j | 0 <= k < |InstancesAt(s, p)| && 0 <= j < |InstancesAt(s, p)[k]| ::
              !IsEndType(InstancesAt(s, p)[k][j])
  {
    if p.Some? {
      EncodeDecoded(s, p.value);
      forall k | 0 <= k < |InstancesAt(s, p)|
        ensures Fits(InstancesAt(s, p)[k])
        ensures forall j | 0 <= j < |InstancesAt(s, p)[k]| :: !IsEndType(InstancesAt(s, p)[k][j])
      {
        InstanceNodes(NodesAt(s, p), k);
      }
    }
  }

  /** The header bytes at `at` are those of node n, which lies inside the memory. */
  ghost predicate HeaderAt(s: seq<byte>, at: nat, n: Node) {
    NodeAt(s, at) && s[at] == n.typ && s[at + 1] == n.sub && NodeLength(s, at) == Length(n)
  }

  /** Node k of the path at p lies at offset `at`. */
  lemma {:induction false} NodeHere(s: seq<byte>, p: nat, ns: seq<Node>, k: nat, at: nat)
    requires Decode(s, p) == Some(ns) && k < |ns| && at == p + Total(ns[..k])
    ensures Decode(s, at) == Some(ns[k..])
    ensures HeaderAt(s, at, ns[k])
    ensures IsEnd(ns[k]) <==> k == |ns| - 1
    ensures p + Total(ns[..k + 1]) == at + Length(ns[k])
    decreases k
  {
    if k == 0 {
      DecodeStep(s, p);
      assert ns[..1] == [ns[0]] && ns[0..] == ns;
    } else {
      TotalStep(ns, k - 1);
      TotalStep(ns, k);
      var before := at - Length(ns[k - 1]);
      NodeHere(s, p, ns, k - 1, before);
      DecodeStep(s, before);
      assert ns[k - 1..][1..] == ns[k..];
      DecodeStep(s, at);
    }
  }

  lemma TotalStep(ns: seq<Node>, k: nat)
    requires k < |ns|
    ensures Total(ns[..k + 1]) == Total(ns[..k]) + Length(ns[k])
  {
    assert ns[..k + 1] == ns[..k] + [ns[k]];
    TotalConcat(ns[..k], [ns[k]]);
    assert Total([ns[k]]) == Length(ns[k]);
  }

  // ---------------------------------------------------------------------------
  // Walking
  // ---------------------------------------------------------------------------

  /** `DevicePathInstance`: the first instance, its size, and the pointer to what follows. */
  method DevicePathInstance(buf: array<byte>, dp: Option<nat>)
    returns (inst: Option<nat>, next: Option<nat>, size: nat)
    requires Walkable(buf[..], dp)
    ensures inst == dp
    ensures dp.None? ==> next.None?
    ensures Walkable(buf[..], next)
    ensures dp.Some? ==> FirstOfPath(buf[..], dp.value, next, size)
  {
    if dp.None? {
      return None, None, 0;
    }
    ghost var ns := NodesAt(buf[..], dp);
    CapOfFirst(buf[..], dp.value, ns);
    var devPath := FindInstanceEnd(buf, dp.value, ns, FirstEnd(ns));
    next := if buf[devPath + 1] == END_ENTIRE then None else Some(devPath + NodeLength(buf[..], devPath));
    inst, size := dp, devPath - dp.value;
    AfterFirst(buf[..], dp.value, ns, FirstEnd(ns), next, size);
  }

  /** The loop of `DevicePathInstance`: it stops at the first end type, before its cap. */
  method FindInstanceEnd(buf: array<byte>, start: nat, ghost ns: seq<Node>, ghost k: nat)
    returns (devPath: nat)
    requires Decode(buf[..], start) == Some(ns)
    requires k < |ns| && k <= INSTANCE_CAP
    requires IsEndType(ns[k]) && forall j | 0 <= j < k :: !IsEndType(ns[j])
    ensures devPath == start + Total(ns[..k])
    ensures HeaderAt(buf[..], devPath, ns[k])
  {
    devPath := start;
    var count := 0;
    NodeHere(buf[..], start, ns, 0, devPath);
    while true
      invariant count <= k && devPath == start + Total(ns[..count])
      invariant HeaderAt(buf[..], devPath, ns[count])
      decreases k - count
    {
      var next := devPath + NodeLength(buf[..], devPath);
      if buf[devPath] % UNPACKED == END_TYPE {
        break;
      }
      if count > 0x200 {
        break;
      }
      NodeHere(buf[..], start, ns, count, devPath);
      devPath, count := next, count + 1;
      NodeHere(buf[..], start, ns, count, devPath);
    }
  }

  /** `next` and `size` describe the first instance of the path at `start`. */
  ghost predicate FirstOfPath(s: seq<byte>, start: nat, next: Option<nat>, size: nat)
    requires Walkable(s, Some(start)) && Walkable(s, next)
  {
    var insts := InstancesAt(s, Some(start));
    && InstancesAt(s, next) == insts[1..]
    && size == Total(insts[0])
    && start + size <= |s|
    && Fits(insts[0])
    && s[start..start + size] == Encode(insts[0])
  }

  lemma CapOfFirst(s: seq<byte>, start: nat, ns: seq<Node>)
    requires Decode(s, start) == Some(ns) && Capped(ns)
    ensures IsPath(ns) && Fits(ns) && FirstEnd(ns) <= INSTANCE_CAP
  {
    EncodeDecoded(s, start);
    FirstInstance(ns);
    assert |Instances(ns)[0]| <= INSTANCE_CAP;
  }

  lemma AfterFirst(s: seq<byte>, start: nat, ns: seq<Node>, k: nat, next: Option<nat>, size: nat)
    requires Walkable(s, Some(start)) && Decode(s, start) == Some(ns)
    requires IsPath(ns) && Fits(ns) && k == FirstEnd(ns) && size == Total(ns[..k])
    requires next == if ns[k].sub == END_ENTIRE then None else Some(start + size + Length(ns[k]))
    ensures Walkable(s, next) && FirstOfPath(s, start, next, size)
  {
    NodeHere(s, start, ns, k, start + size);
    FirstInstance(ns);
    RestIsWalkable(ns, k);
    InstanceBytes(s, start, ns, k);
    if next.Some? {
      NodeHere(s, start, ns, k + 1, next.value);
    }
  }

  lemma InstanceBytes(s: seq<byte>, i: nat, ns: seq<Node>, k: nat)
    requires Decode(s, i) == Some(ns) && k <= |ns|
    ensures Fits(ns[..k]) && i + Total(ns[..k]) <= |s|
    ensures s[i..i + Total(ns[..k])] == Encode(ns[..k])
  {
    EncodeDecoded(s, i);
    EncodeSplit(ns, k);
    SliceOfSlice(s, i, Total(ns[..k]), Total(ns));
  }

  lemma EncodeSplit(ns: seq<Node>, k: nat)
    requires k <= |ns|
    ensures Total(ns) == Total(ns[..k]) + Total(ns[k..])
    ensures Encode(ns)[..Total(ns[..k])] == Encode(ns[..k])
  {
    var a, b := ns[..k], ns[k..];
    assert ns == a + b;
    assert Total(ns) == Total(a) + Total(b) by {
      TotalConcat(a, b);
    }
    assert Encode(ns) == Encode(a) + Encode(b) by {
      EncodeConcat(a, b);
    }
  }

  lemma RestIsWalkable(ns: seq<Node>, k: nat)
    requires IsPath(ns) && WellFormed(ns) && Capped(ns) && k == FirstEnd(ns)
    ensures !IsEnd(ns[k]) ==> WellFormed(ns[k + 1..]) && Capped(ns[k + 1..])
  {
    FirstInstance(ns);
    if !IsEnd(ns[k]) {
      var rest := Instances(ns[k + 1..]);
      forall j | 0 <= j < |rest|
        ensures |rest[j]| <= INSTANCE_CAP
      {
        assert rest[j] == Instances(ns)[j + 1];
      }
    }
  }

  method DevicePathInstanceCount(buf: array<byte>, dp: Option<nat>) returns (count: nat)
    requires Walkable(buf[..], dp)
    ensures count == |InstancesAt(buf[..], dp)|
  {
    count := 0;
    var at := dp;
    while true
      invariant Walkable(buf[..], at)
      invariant count + |InstancesAt(buf[..], at)| == |InstancesAt(buf[..], dp)|
      decreases |InstancesAt(buf[..], at)|
    {
      var inst, next, size := DevicePathInstance(buf, at);
      if inst.None? {
        break;
      }
      at, count := next, count + 1;
    }
  }

  /** The bytes of the whole path at p, END node included. */
  ghost predicate PathBytes(s: seq<byte>, p: nat, size: nat)
    requires Readable(s, Some(p))
  {
    var ns := NodesAt(s, Some(p));
    && IsPath(ns)
    && Fits(ns)
    && size == Total(ns)
    && p + size <= |s|
    && s[p..p + size] == Encode(ns)
  }

  method DevicePathSize(buf: array<byte>, p: nat) returns (size: nat)
    requires Readable(buf[..], Some(p))
    ensures PathBytes(buf[..], p, size)
  {
    var end := FindEnd(buf, p);
    size := end - p + HEADER;
  }

  /** The walk to the END node that `DevicePathSize` and `AppendDevicePathInstance` share. */
  method FindEnd(buf: array<byte>, p: nat) returns (devPath: nat)
    requires Readable(buf[..], Some(p))
    ensures p <= devPath && PathBytes(buf[..], p, devPath - p + HEADER)
    ensures NodeLength(buf[..], devPath) == HEADER
  {
    hide Encode;
    ghost var s := buf[..];
    ghost var ns := NodesAt(s, Some(p));
    devPath := p;
    ghost var k := 0;
    NodeHere(s, p, ns, 0, p);
    while !(buf[devPath] % UNPACKED == END_TYPE && buf[devPath + 1] == END_ENTIRE)
      invariant k < |ns| && devPath == p + Total(ns[..k])
      invariant HeaderAt(s, devPath, ns[k])
      decreases |ns| - k
    {
      NodeHere(s, p, ns, k, devPath);
      devPath := devPath + NodeLength(buf[..], devPath);
      k := k + 1;
      NodeHere(s, p, ns, k, devPath);
    }
    NodeHere(s, p, ns, k, devPath);
    assert ns[..k + 1] == ns;
    EncodeDecoded(s, p);
  }

  // ---------------------------------------------------------------------------
  // Copying
  // ---------------------------------------------------------------------------

  /** `CopyMem` between different buffers. */
  method CopyMem(dst: array<byte>, d: nat, src: array<byte>, s: nat, len: nat)
    requires dst != src && d + len <= dst.Length && s + len <= src.Length
    modifies dst
    ensures dst[..] == old(dst[..d]) + src[s..s + len] + old(dst[d + len..])
    ensures dst[..d + len] == old(dst[..d]) + src[s..s + len]
  {
    var k := 0;
    while k < len
      invariant k <= len
      invariant forall j | 0 <= j < dst.Length ::
                  dst[j] == if d <= j < d + k then src[s + j - d] else old(dst[j])
    {
      dst[d + k] := src[s + k];
      k := k + 1;
    }
    assert dst[..] == old(dst[..d]) + src[s..s + len] + old(dst[d + len..]);
  }

  /** Copies `EndDevicePath` or `EndInstanceDevicePath`. */
  method StoreEnd(dst: array<byte>, d: nat, sub: byte)
    requires d + HEADER <= dst.Length
    modifies dst
    ensures dst[..] == old(dst[..d]) + EncodeNode(Node(END_TYPE, sub, [])) + old(dst[d + HEADER..])
    ensures dst[..d + HEADER] == old(dst[..d]) + EncodeNode(Node(END_TYPE, sub, []))
  {
    dst[d], dst[d + 1], dst[d + 2], dst[d + 3] := END_TYPE, sub, HEADER, 0;
    HeaderOnly(Node(END_TYPE, sub, []));
  }

  /** `DuplicateDevicePath`; `allocOk` is the answer of the pool. */
  method DuplicateDevicePath(src: array<byte>, p: nat, allocOk: bool) returns (dst: array?<byte>)
    requires Readable(src[..], Some(p))
    ensures dst != null <==> allocOk
    ensures dst != null ==> fresh(dst) && Decode(dst[..], 0) == Decode(src[..], p)
                            && dst.Length == Total(NodesAt(src[..], Some(p)))
  {
    var size := DevicePathSize(src, p);
    if !allocOk {
      return null;
    }
    dst := new byte[size];
    CopyMem(dst, 0, src, p, size);
    assert dst[..] == src[p..p + size];
    assert dst[..][0..size] == dst[..];
    DecodeElsewhere(src[..], p, dst[..], 0);
  }

  // ---------------------------------------------------------------------------
  // Appending an instance
  // ---------------------------------------------------------------------------

  /** `AppendDevicePathInstance`: both instance lists, one after the other. A failed
      allocation is caught by an ASSERT in the source. */
  method AppendDevicePathInstance(src: array<byte>, p: Option<nat>, inst: array<byte>, q: nat)
    returns (dst: array<byte>)
    requires Readable(src[..], p) && Readable(inst[..], Some(q))
    ensures Readable(dst[..], Some(0))
    ensures InstancesAt(dst[..], Some(0)) == InstancesAt(src[..], p) + InstancesAt(inst[..], Some(q))
    ensures dst.Length == Total(NodesAt(src[..], p)) + Total(NodesAt(inst[..], Some(q)))
    ensures p.Some? ==> IsPath(NodesAt(src[..], p)) && IsPath(NodesAt(inst[..], Some(q)))
                        && NodesAt(dst[..], Some(0)) == JoinInstances(NodesAt(src[..], p), NodesAt(inst[..], Some(q)))
  {
    if p.None? {
      var copy := DuplicateDevicePath(inst, q, true);
      assert [] + InstancesAt(inst[..], Some(q)) == InstancesAt(inst[..], Some(q));
      return copy;
    }
    var srcSize := DevicePathSize(src, p.value);
    var instanceSize := DevicePathSize(inst, q);
    dst := new byte[srcSize + instanceSize];
    JoinInto(dst, src, p.value, srcSize, inst, q, instanceSize);
  }

  /** Both copies and the conversion of the END node between them. */
  method JoinInto(dst: array<byte>, src: array<byte>, p: nat, srcSize: nat,
                  inst: array<byte>, q: nat, instanceSize: nat)
    requires Readable(src[..], Some(p)) && PathBytes(src[..], p, srcSize)
    requires Readable(inst[..], Some(q)) && PathBytes(inst[..], q, instanceSize)
    requires dst.Length == srcSize + instanceSize && dst != src && dst != inst
    modifies dst
    ensures Readable(dst[..], Some(0))
    ensures InstancesAt(dst[..], Some(0)) == InstancesAt(src[..], Some(p)) + InstancesAt(inst[..], Some(q))
    ensures NodesAt(dst[..], Some(0)) == JoinInstances(NodesAt(src[..], Some(p)), NodesAt(inst[..], Some(q)))
  {
    hide Encode, Decode;
    ghost var a := NodesAt(src[..], Some(p));
    ghost var s := CopyPath(dst, src, p, srcSize);
    var devPath := ConvertEnd(dst);
    ghost var marked := dst[..];
    CopyMem(dst, devPath, inst, q, instanceSize);
    Joined(s, a, srcSize, NodesAt(inst[..], Some(q)), inst[q..q + instanceSize], marked, dst[..]);
  }

  /** The first copy: the path now also reads from the start of dst. */
  method CopyPath(dst: array<byte>, src: array<byte>, p: nat, size: nat) returns (ghost s: seq<byte>)
    requires Readable(src[..], Some(p)) && PathBytes(src[..], p, size) && size <= dst.Length && dst != src
    modifies dst
    ensures s == dst[..] && Readable(s, Some(0)) && Decode(s, 0) == old(Decode(src[..], p))
    ensures s[..size] == Encode(NodesAt(s, Some(0)))
  {
    CopyMem(dst, 0, src, p, size);
    s := dst[..];
    CopyReads(src[..], p, s, size);
  }

  lemma Joined(s: seq<byte>, a: seq<Node>, size: nat, b: seq<Node>, bytes: seq<byte>,
               marked: seq<byte>, t: seq<byte>)
    requires IsPath(a) && Fits(a) && WellFormed(a)
    requires 3 <= size == Total(a) <= |s| && s[..size] == Encode(a)
    requires IsPath(b) && Fits(b) && WellFormed(b) && bytes == Encode(b)
    requires marked == s[size - 3 := END_INSTANCE] && t == marked[..size] + bytes
    ensures Readable(t, Some(0)) && InstancesAt(t, Some(0)) == Instances(a) + Instances(b)
    ensures NodesAt(t, Some(0)) == JoinInstances(a, b)
  {
    EndByteChanged(s, a, size);
    JoinedBytes(a, t, b, bytes);
    JoinKeepsForm(a, b);
    InstancesOfJoin(a, b);
  }

  /** Turns the END of the path at 0 into an END_INSTANCE and returns where it ends. */
  method ConvertEnd(dst: array<byte>) returns (next: nat)
    requires Readable(dst[..], Some(0))
    modifies dst
    ensures next == old(Total(NodesAt(dst[..], Some(0)))) && 3 <= next <= dst.Length
    ensures dst[..] == old(dst[..])[next - 3 := END_INSTANCE]
  {
    var devPath := FindEnd(dst, 0);
    dst[devPath + 1] := END_INSTANCE;
    next := devPath + NodeLength(dst[..], devPath);
  }

  lemma CopyReads(src: seq<byte>, p: nat, dst: seq<byte>, size: nat)
    requires Readable(src, Some(p)) && PathBytes(src, p, size)
    requires size <= |dst| && dst[..size] == src[p..p + size]
    ensures dst[..size] == Encode(NodesAt(src, Some(p)))
    ensures Readable(dst, Some(0)) && Decode(dst, 0) == Decode(src, p)
  {
    assert Decode(dst, 0) == Decode(src, p) by {
      assert dst[0..0 + size] == dst[..size];
      DecodeElsewhere(src, p, dst, 0);
    }
  }

  /** Writing END_INSTANCE into the subtype of the last node. */
  lemma EndByteChanged(s: seq<byte>, a: seq<Node>, size: nat)
    requires IsPath(a) && WellFormed(a)
    requires size == Total(a) <= |s| && s[..size] == Encode(a)
    ensures size >= HEADER
    ensures s[size - 3 := END_INSTANCE][..size]
            == Encode(a[..|a| - 1]) + EncodeNode(a[|a| - 1].(sub := END_INSTANCE))
  {
    JoinEncoding(a, a);
    var n := a[|a| - 1];
    HeaderOnly(n);
    HeaderOnly(n.(sub := END_INSTANCE));
    ByteReplaced(s, Encode(a[..|a| - 1]), EncodeNode(n), size);
  }

  lemma HeaderOnly(n: Node)
    requires n.data == []
    ensures EncodeNode(n) == [n.typ, n.sub, HEADER, 0]
  {}

  lemma ByteReplaced(s: seq<byte>, f: seq<byte>, e: seq<byte>, size: nat)
    requires size <= |s| && s[..size] == f + e && |e| == HEADER
    ensures size >= HEADER
    ensures s[size - 3 := END_INSTANCE][..size] == f + [e[0], END_INSTANCE, e[2], e[3]]
  {
    var x, y := s[size - 3 := END_INSTANCE][..size], f + [e[0], END_INSTANCE, e[2], e[3]];
    forall i | 0 <= i < size
      ensures x[i] == y[i]
    {
      assert s[i] == s[..size][i] == (f + e)[i];
    }
  }

  lemma JoinedBytes(a: seq<Node>, t: seq<byte>, b: seq<Node>, bytes: seq<byte>)
    requires IsPath(a) && Fits(a) && WellFormed(a)
    requires IsPath(b) && Fits(b) && bytes == Encode(b)
    requires t == Encode(a[..|a| - 1]) + EncodeNode(a[|a| - 1].(sub := END_INSTANCE)) + bytes
    ensures Decode(t, 0) == Some(JoinInstances(a, b)) && |t| == Total(a) + Total(b)
  {
    hide Encode, Decode, EncodeNode;
    var j := JoinInstances(a, b);
    assert t == Encode(j) && Total(j) == Total(a) + Total(b) by {
      JoinEncoding(a, b);
    }
    JoinKeepsForm(a, b);
    ReadsBack(t, j);
  }

  lemma ReadsBack(t: seq<byte>, ns: seq<Node>)
    requires IsPath(ns) && Fits(ns) && t == Encode(ns)
    ensures Decode(t, 0) == Some(ns) && |t| == Total(ns)
  {
    DecodeWhole(t, ns);
  }

  lemma JoinKeepsForm(a: seq<Node>, b: seq<Node>)
    requires IsPath(a) && IsPath(b)
    ensures WellFormed(a) && WellFormed(b) ==> WellFormed(JoinInstances(a, b))
    ensures Fits(a) && Fits(b) ==> Fits(JoinInstances(a, b))
  {}

  /** A path and its join with another differ in one byte up to the appended bytes. */
  lemma JoinEncoding(a: seq<Node>, b: seq<Node>)
    requires IsPath(a) && IsPath(b) && WellFormed(a)
    ensures Total(JoinInstances(a, b)) == Total(a) + Total(b)
    ensures var last := a[|a| - 1];
            && Length(last) == HEADER
            && Encode(a) == Encode(a[..|a| - 1]) + EncodeNode(last)
            && Encode(JoinInstances(a, b))
               == Encode(a[..|a| - 1]) + EncodeNode(last.(sub := END_INSTANCE)) + Encode(b)
  {
    var k := |a| - 1;
    var front, oldEnd, newEnd := a[..k], a[k], a[k].(sub := END_INSTANCE);
    assert Encode(a) == Encode(front) + EncodeNode(oldEnd) && Total(a) == Total(front) + Length(oldEnd) by {
      assert a == front + [oldEnd] && [oldEnd] + [] == [oldEnd];
      EncodeCons(oldEnd, []);
      EncodeConcat(front, [oldEnd]);
      TotalConcat(front, [oldEnd]);
    }
    var tail := [newEnd] + b;
    assert JoinInstances(a, b) == front + tail;
    EncodeCons(newEnd, b);
    EncodeConcat(front, tail);
    TotalConcat(front, tail);
  }
}

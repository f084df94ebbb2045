/** `AppendDevicePath` and `AppendDevicePathNode`: what they write, when it fits the buffer
    they allocate, and what a reader of the result sees. */
module DevicePathAppend {
  import opened Basics
  import opened DevicePathFormat
  import opened DevicePath

  /** What one round of the loop of `AppendDevicePath` stores. */
  function Chunk(inst: Instance, tail: seq<byte>): seq<byte> {
    Encode(inst) + tail + EncodeNode(END_INSTANCE_NODE)
  }

  function Chunks(insts: seq<Instance>, tail: seq<byte>): seq<byte> {
    if insts == [] then []
    else Chunks(insts[..|insts| - 1], tail) + Chunk(insts[|insts| - 1], tail)
  }

  /** All rounds, with the last end marker changed. */
  function Written(insts: seq<Instance>, tail: seq<byte>): seq<byte>
    requires insts != []
  {
    Chunks(insts[..|insts| - 1], tail) + (Encode(insts[|insts| - 1]) + tail) + EncodeNode(END_NODE)
  }

  lemma {:induction false} SizesSnoc(insts: seq<Instance>)
    requires insts != []
    ensures SizesWithEnds(insts)
            == SizesWithEnds(insts[..|insts| - 1]) + Total(insts[|insts| - 1]) + HEADER
  {
    if |insts| > 1 {
      SizesSnoc(insts[1..]);
      assert insts[1..][..|insts| - 2] == insts[..|insts| - 1][1..];
    }
  }

  lemma {:induction false} ChunksSize(insts: seq<Instance>, tail: seq<byte>)
    ensures |Chunks(insts, tail)| == SizesWithEnds(insts) + |insts| * |tail|
  {
    if insts != [] {
      var init := insts[..|insts| - 1];
      ChunksSize(init, tail);
      SizesSnoc(insts);
      TimesSucc(|init|, |tail|);
    }
  }

  lemma TimesSucc(n: nat, m: nat)
    ensures (n + 1) * m == n * m + m
  {}

  lemma {:induction false} ChunksGrow(insts: seq<Instance>, tail: seq<byte>, k: nat)
    requires k <= |insts|
    ensures |Chunks(insts[..k], tail)| <= |Chunks(insts, tail)|
    ensures Chunks(insts[..k], tail) <= Chunks(insts, tail)
  {
    if k < |insts| {
      var init := insts[..|insts| - 1];
      ChunksGrow(init, tail, k);
      assert init[..k] == insts[..k];
    } else {
      assert insts[..k] == insts;
    }
  }

  lemma ChunksSnoc(done: seq<Instance>, inst: Instance, tail: seq<byte>)
    ensures Chunks(done + [inst], tail) == Chunks(done, tail) + Chunk(inst, tail)
  {
    assert (done + [inst])[..|done|] == done;
  }

  // ---------------------------------------------------------------------------
  // Sizes
  // ---------------------------------------------------------------------------

  /** Bytes allocated by `AppendDevicePath`. */
  function Allocated(size1: nat, count: nat, size2: nat): nat {
    size1 * count + size2
  }

  /** Bytes written by `AppendDevicePath`. */
  function BytesWritten(size1: nat, count: nat, size2: nat): nat {
    size1 + count * size2
  }

  lemma SizesFitIff(size1: nat, count: nat, size2: nat)
    requires count >= 1
    ensures BytesWritten(size1, count, size2) <= Allocated(size1, count, size2)
            <==> count == 1 || size2 <= size1
  {
    var extra := count - 1;
    assert size1 * count == size1 + size1 * extra;
    assert count * size2 == size2 + size2 * extra;
    if size2 <= size1 {
      TimesOrdered(size2, size1, extra);
    } else {
      TimesOrdered(size1 + 1, size2, extra);
      assert (size1 + 1) * extra == size1 * extra + extra;
    }
  }

  lemma TimesOrdered(a: nat, b: nat, n: nat)
    requires a <= b
    ensures a * n <= b * n
  {}

  lemma WrittenSize(ns: seq<Node>, tail: seq<byte>)
    requires IsPath(ns) && WellFormed(ns)
    ensures var insts := Instances(ns);
            && |Written(insts, tail)| == |Chunks(insts, tail)|
            && |Written(insts, tail)| == BytesWritten(Total(ns), |insts|, |tail|)
  {
    ChunksSize(Instances(ns), tail);
    SizesSumToPath(ns);
  }

  /** The writes stay inside the allocation exactly for one instance, or when the appended
      path is no longer than the one it is appended to. */
  lemma FitsAllocationIff(a: seq<Node>, b: seq<Node>)
    requires IsPath(a) && WellFormed(a)
    ensures |Written(Instances(a), Encode(b))| <= Allocated(Total(a), |Instances(a)|, Total(b))
            <==> |Instances(a)| == 1 || Total(b) <= Total(a)
  {
    WrittenSize(a, Encode(b));
    SizesFitIff(Total(a), |Instances(a)|, Total(b));
  }

  /** Two empty instances and a path of one node with ten bytes: 44 bytes are written into 34. */
  lemma OverflowExample()
    ensures var a, b := [END_INSTANCE_NODE, END_NODE], [Node(1, 1, [0, 0, 0, 0, 0, 0, 0, 0, 0, 0]), END_NODE];
            && IsPath(a) && WellFormed(a) && IsPath(b) && WellFormed(b) && Instances(a) == [[], []]
            && |Written(Instances(a), Encode(b))| == 44 && Allocated(Total(a), |Instances(a)|, Total(b)) == 34
  {
    var a, b := [END_INSTANCE_NODE, END_NODE], [Node(1, 1, [0, 0, 0, 0, 0, 0, 0, 0, 0, 0]), END_NODE];
    assert a[1..] == [END_NODE] && b[1..] == [END_NODE];
    assert Total([END_NODE]) == 4 && Instances([END_NODE]) == [[]];
    WrittenSize(a, Encode(b));
  }

  // ---------------------------------------------------------------------------
  // What the result decodes to
  // ---------------------------------------------------------------------------

  lemma {:induction false} WrittenStart(insts: seq<Instance>, tail: seq<byte>)
    requires insts != []
    ensures Encode(insts[0]) + tail <= Written(insts, tail)
  {
    var head := Encode(insts[0]) + tail;
    if |insts| > 1 {
      var init := insts[..|insts| - 1];
      ChunksGrow(init, tail, 1);
      assert init[..1] == [insts[0]];
      ChunksSnoc([], insts[0], tail);
      assert [] + [insts[0]] == [insts[0]] && [] + Chunk(insts[0], tail) == Chunk(insts[0], tail);
      assert head <= Chunk(insts[0], tail) <= Chunks(init, tail);
    } else {
      assert Chunks([], tail) + head == head;
    }
  }

  /** The nodes a reader finds: the first instance, then the whole appended path. */
  lemma AppendedDecodes(dst: seq<byte>, insts: seq<Instance>, ns2: seq<Node>)
    requires insts != [] && Fits(insts[0])
    requires forall j | 0 <= j < |insts[0]| :: !IsEndType(insts[0][j])
    requires IsPath(ns2) && Fits(ns2)
    requires Written(insts, Encode(ns2)) <= dst
    ensures Decode(dst, 0) == Some(insts[0] + ns2)
    ensures Instances(insts[0] + ns2) == [insts[0] + Instances(ns2)[0]] + Instances(ns2)[1..]
  {
    WrittenStart(insts, Encode(ns2));
    EncodeConcat(insts[0], ns2);
    InstancesOfPrefix(insts[0], ns2);
    DecodeWhole(dst, insts[0] + ns2);
  }

  /** The instance list the comment of `AppendDevicePath` announces. */
  function Promised(a: seq<Instance>, b: seq<Instance>): seq<Instance>
    requires b != []
  {
    if a == [] then [] else [a[0] + b[0]] + b[1..] + Promised(a[1..], b)
  }

  lemma {:induction false} PromisedCount(a: seq<Instance>, b: seq<Instance>)
    requires b != []
    ensures |Promised(a, b)| == |a| * |b|
  {
    if a != [] {
      PromisedCount(a[1..], b);
      assert |a| * |b| == (|a| - 1) * |b| + |b|;
    }
  }

  /** The comment is right exactly for single-instance paths: the END node of Src2 is copied
      along with it, so a reader never gets past the first instance. */
  lemma PromiseKeptIff(a: seq<Instance>, b: seq<Instance>)
    requires a != [] && b != []
    ensures [a[0] + b[0]] + b[1..] == Promised(a, b) <==> |a| == 1
  {
    PromisedCount(a, b);
    if |a| > 1 {
      assert |a| * |b| >= 2 * |b|;
    } else {
      assert Promised(a[1..], b) == [];
    }
  }

  // ---------------------------------------------------------------------------
  // The methods
  // ---------------------------------------------------------------------------

  /** One round of the loop. */
  method PutInstance(dst: array<byte>, pos: nat, src1: array<byte>, inst: nat, size: nat,
                     src2: array<byte>, p2: nat, size2: nat)
    returns (next: nat)
    requires dst != src1 && dst != src2
    requires inst + size <= src1.Length && p2 + size2 <= src2.Length
    requires pos + size + size2 + HEADER <= dst.Length
    modifies dst
    ensures next == pos + size + size2 + HEADER
    ensures dst[..next] == old(dst[..pos])
              + (src1[inst..inst + size] + src2[p2..p2 + size2] + EncodeNode(END_INSTANCE_NODE))
  {
    next := pos;
    CopyMem(dst, next, src1, inst, size);
    next := next + size;
    CopyMem(dst, next, src2, p2, size2);
    next := next + size2;
    StoreEnd(dst, next, END_INSTANCE);
    next := next + HEADER;
  }

  method AppendRound(dst: array<byte>, pos: nat, src1: array<byte>, inst: nat, size: nat,
                     src2: array<byte>, p2: nat, size2: nat,
                     ghost insts: seq<Instance>, ghost done: seq<Instance>, ghost rest: seq<Instance>)
    returns (next: nat)
    requires dst != src1 && dst != src2 && inst + size <= src1.Length && p2 + size2 <= src2.Length
    requires done + rest == insts && rest != [] && src1[inst..inst + size] == Encode(rest[0])
    requires |Chunks(insts, src2[p2..p2 + size2])| <= dst.Length
    requires pos == |Chunks(done, src2[p2..p2 + size2])| <= dst.Length && dst[..pos] == Chunks(done, src2[p2..p2 + size2])
    modifies dst
    ensures next == |Chunks(done + [rest[0]], src2[p2..p2 + size2])| <= dst.Length
    ensures dst[..next] == Chunks(done + [rest[0]], src2[p2..p2 + size2])
    ensures done + [rest[0]] + rest[1..] == insts
  {
    RoundFits(insts, done, rest, src2[p2..p2 + size2]);
    next := PutInstance(dst, pos, src1, inst, size, src2, p2, size2);
  }

  /** The copying loop of `AppendDevicePath`. */
  method AppendInstances(dst: array<byte>, src1: array<byte>, p1: nat, src2: array<byte>, p2: nat, size2: nat)
    returns (pos: nat)
    requires Walkable(src1[..], Some(p1))
    requires dst != src1 && dst != src2 && p2 + size2 <= src2.Length
    requires |Chunks(InstancesAt(src1[..], Some(p1)), src2[p2..p2 + size2])| <= dst.Length
    modifies dst
    ensures pos <= dst.Length && dst[..pos] == Chunks(InstancesAt(src1[..], Some(p1)), src2[p2..p2 + size2])
  {
    hide Instances, Capped;
    ghost var s1, tail := src1[..], src2[p2..p2 + size2];
    ghost var insts := InstancesAt(s1, Some(p1));
    ghost var done: seq<Instance>, rest := [], insts;
    var at := Some(p1);
    pos := 0;
    while true
      invariant src1[..] == s1 && src2[p2..p2 + size2] == tail
      invariant Walkable(s1, at) && InstancesAt(s1, at) == rest
      invariant done + rest == insts
      invariant pos == |Chunks(done, tail)| <= dst.Length && dst[..pos] == Chunks(done, tail)
      decreases |rest|
    {
      var inst, next, size := DevicePathInstance(src1, at);
      if inst.None? {
        assert done == insts;
        break;
      }
      pos := AppendRound(dst, pos, src1, inst.value, size, src2, p2, size2, insts, done, rest);
      done, rest, at := done + [rest[0]], rest[1..], next;
    }
  }

  method AppendInto(dst: array<byte>, src1: array<byte>, p1: nat, src2: array<byte>, p2: nat, size2: nat)
    requires Walkable(src1[..], Some(p1))
    requires dst != src1 && dst != src2 && p2 + size2 <= src2.Length
    requires |Chunks(InstancesAt(src1[..], Some(p1)), src2[p2..p2 + size2])| <= dst.Length
    modifies dst
    ensures Written(InstancesAt(src1[..], Some(p1)), src2[p2..p2 + size2]) <= dst[..]
  {
    var pos := AppendInstances(dst, src1, p1, src2, p2, size2);
    EndLast(dst, pos, InstancesAt(src1[..], Some(p1)), src2[p2..p2 + size2]);
  }

  /** The last END_INSTANCE becomes the END. */
  method EndLast(dst: array<byte>, pos: nat, ghost insts: seq<Instance>, ghost tail: seq<byte>)
    requires insts != [] && pos <= dst.Length && dst[..pos] == Chunks(insts, tail)
    modifies dst
    ensures Written(insts, tail) <= dst[..]
  {
    ghost var written := dst[..pos];
    LastMarker(insts, tail, written, written[..|written| - HEADER] + EncodeNode(END_NODE));
    var last := pos - HEADER;
    StoreEnd(dst, last, END_ENTIRE);
    assert dst[..last + HEADER] == written[..last] + EncodeNode(END_NODE);
  }

  lemma RoundFits(insts: seq<Instance>, done: seq<Instance>, rest: seq<Instance>, tail: seq<byte>)
    requires done + rest == insts && rest != []
    ensures Chunks(done + [rest[0]], tail) == Chunks(done, tail) + Chunk(rest[0], tail)
    ensures |Chunks(done + [rest[0]], tail)| == |Chunks(done, tail)| + Total(rest[0]) + |tail| + HEADER
    ensures |Chunks(done + [rest[0]], tail)| <= |Chunks(insts, tail)|
    ensures done + [rest[0]] + rest[1..] == insts
  {
    ChunksSnoc(done, rest[0], tail);
    assert insts[..|done| + 1] == done + [rest[0]];
    ChunksGrow(insts, tail, |done| + 1);
  }

  lemma LastMarker(insts: seq<Instance>, tail: seq<byte>, written: seq<byte>, t: seq<byte>)
    requires insts != [] && written == Chunks(insts, tail)
    ensures |written| >= HEADER
    ensures t == written[..|written| - HEADER] + EncodeNode(END_NODE) ==> t == Written(insts, tail)
  {}

  /** `AppendDevicePath` with two paths; `allocOk` is the answer of the pool. */
  method AppendDevicePath(src1: array<byte>, p1: Option<nat>, src2: array<byte>, p2: Option<nat>,
                          allocOk: bool)
    returns (dst: array?<byte>)
    requires Walkable(src1[..], p1) && Readable(src2[..], p2) && (p1.Some? || p2.Some?)
    requires p1.Some? && p2.Some? ==>
               |InstancesAt(src1[..], p1)| == 1
               || Total(NodesAt(src2[..], p2)) <= Total(NodesAt(src1[..], p1))
    ensures dst != null <==> allocOk
    ensures dst != null ==> fresh(dst) && Readable(dst[..], Some(0))
    ensures dst != null && p1.None? ==> NodesAt(dst[..], Some(0)) == NodesAt(src2[..], p2)
    ensures dst != null && p2.None? ==> NodesAt(dst[..], Some(0)) == NodesAt(src1[..], p1)
    ensures dst != null && p1.Some? && p2.Some? ==>
              var insts := InstancesAt(src1[..], p1);
              && Written(insts, Encode(NodesAt(src2[..], p2))) <= dst[..]
              && NodesAt(dst[..], Some(0)) == insts[0] + NodesAt(src2[..], p2)
  {
    if p1.None? {
      dst := DuplicateDevicePath(src2, p2.value, allocOk);
    } else if p2.None? {
      dst := DuplicateDevicePath(src1, p1.value, allocOk);
    } else {
      dst := AppendBoth(src1, p1.value, src2, p2.value, allocOk);
    }
  }

  method AppendBoth(src1: array<byte>, p1: nat, src2: array<byte>, p2: nat, allocOk: bool)
    returns (dst: array?<byte>)
    requires Walkable(src1[..], Some(p1)) && Readable(src2[..], Some(p2))
    requires |InstancesAt(src1[..], Some(p1))| == 1
             || Total(NodesAt(src2[..], Some(p2))) <= Total(NodesAt(src1[..], Some(p1)))
    ensures dst != null <==> allocOk
    ensures dst != null ==> fresh(dst) && Readable(dst[..], Some(0))
    ensures dst != null ==>
              var insts := InstancesAt(src1[..], Some(p1));
              && Written(insts, Encode(NodesAt(src2[..], Some(p2)))) <= dst[..]
              && NodesAt(dst[..], Some(0)) == insts[0] + NodesAt(src2[..], Some(p2))
  {
    hide Encode, Decode, Instances, Written, Total;
    var size1 := DevicePathSize(src1, p1);
    var count := DevicePathInstanceCount(src1, Some(p1));
    var size2 := DevicePathSize(src2, p2);
    var size := size1 * count + size2;
    if !allocOk {
      return null;
    }
    dst := new byte[size];
    ghost var ns2 := NodesAt(src2[..], Some(p2));
    WrittenSize(NodesAt(src1[..], Some(p1)), Encode(ns2));
    SizesFitIff(size1, count, size2);
    AppendInto(dst, src1, p1, src2, p2, size2);
    ResultReads(src1[..], p1, ns2, dst[..]);
  }

  lemma ResultReads(s1: seq<byte>, p1: nat, ns2: seq<Node>, dst: seq<byte>)
    requires Walkable(s1, Some(p1)) && IsPath(ns2) && Fits(ns2) && WellFormed(ns2)
    requires Written(InstancesAt(s1, Some(p1)), Encode(ns2)) <= dst
    ensures Readable(dst, Some(0)) && NodesAt(dst, Some(0)) == InstancesAt(s1, Some(p1))[0] + ns2
  {
    InstancesFit(s1, Some(p1));
    AppendedDecodes(dst, InstancesAt(s1, Some(p1)), ns2);
    AppendedForm(InstancesAt(s1, Some(p1))[0], ns2);
  }

  lemma AppendedForm(inst: Instance, ns2: seq<Node>)
    requires WellFormed(ns2) && forall j | 0 <= j < |inst| :: !IsEndType(inst[j])
    ensures WellFormed(inst + ns2)
  {}

  /** A lone node given a terminator of its own. */
  lemma Terminated(n: Node)
    requires !IsEndType(n)
    ensures IsPath([n, END_NODE]) && WellFormed([n, END_NODE])
    ensures Encode([n, END_NODE]) == EncodeNode(n) + EncodeNode(END_NODE)
    ensures Total([n, END_NODE]) == Length(n) + HEADER
    ensures Instances([n, END_NODE]) == [[n]]
  {
    EncodeCons(END_NODE, []);
    EncodeCons(n, [END_NODE]);
    assert [END_NODE] + [] == [END_NODE] && [n] + [END_NODE] == [n, END_NODE];
    assert [n, END_NODE][1..] == [END_NODE] && [n] + [] == [n];
    assert Instances([END_NODE]) == [[]];
  }

  /** The temporary path of `AppendDevicePathNode`: the node and an END node. */
  method TerminateNode(src: array<byte>, q: nat) returns (temp: array<byte>)
    requires NodeAt(src[..], q) && !IsEndType(ReadNode(src[..], q))
    ensures fresh(temp) && Decode(temp[..], 0) == Some([ReadNode(src[..], q), END_NODE])
  {
    var length := NodeLength(src[..], q);
    temp := new byte[length + HEADER];
    CopyMem(temp, 0, src, q, length);
    ghost var n := ReadNode(src[..], q);
    EncodeRead(src[..], q);
    assert temp[..length] == EncodeNode(n);
    ReadEncoded(temp[..], 0, n);
    var eop := NodeLength(temp[..], 0);
    StoreEnd(temp, eop, END_ENTIRE);
    Terminated(n);
    assert temp[..] == EncodeNode(n) + EncodeNode(END_NODE);
    DecodeWhole(temp[..], [n, END_NODE]);
  }

  /** `AppendDevicePathNode`: exactly one node is added after the first instance. */
  method AppendDevicePathNode(src1: array<byte>, p1: Option<nat>, src2: array<byte>, q: nat,
                              tempOk: bool, allocOk: bool)
    returns (dst: array?<byte>)
    requires Walkable(src1[..], p1)
    requires NodeAt(src2[..], q) && !IsEndType(ReadNode(src2[..], q))
    requires p1.Some? ==> |InstancesAt(src1[..], p1)| == 1
                          || NodeLength(src2[..], q) + HEADER <= Total(NodesAt(src1[..], p1))
    ensures dst != null <==> tempOk && allocOk
    ensures dst != null ==> Readable(dst[..], Some(0))
    ensures dst != null ==>
              InstancesAt(dst[..], Some(0))
              == [(if p1.None? then [] else InstancesAt(src1[..], p1)[0]) + [ReadNode(src2[..], q)]]
  {
    if !tempOk {
      return null;
    }
    ghost var n := ReadNode(src2[..], q);
    var temp := TerminateNode(src2, q);
    Terminated(n);
    dst := AppendDevicePath(src1, p1, temp, Some(0), allocOk);
    if dst != null {
      if p1.None? {
        assert [] + [n] == [n];
      } else {
        InstancesFit(src1[..], p1);
        InstancesOfPrefix(InstancesAt(src1[..], p1)[0], [n, END_NODE]);
      }
    }
  }
}

/** The byte format of EFI device paths (section 9.3 of the UEFI 2.4 Specification): a
    decoder from raw memory to nodes and instances, the matching encoder, and the laws
    that the buffer code of `lib/dpath.c` rests on. */
module DevicePathFormat {
  import opened Basics

  // ---------------------------------------------------------------------------
  // Nodes
  // ---------------------------------------------------------------------------

  /** A node: type and subtype bytes and what follows the four header bytes. */
  datatype Node = Node(typ: byte, sub: byte, data: seq<byte>)

  const HEADER := 4
  const END_TYPE: byte := 0x7F
  const END_ENTIRE: byte := 0xFF
  const END_INSTANCE: byte := 0x01
  const UNPACKED := 0x80

  /** The most non-end nodes `DevicePathInstance` walks before it gives up (octal 01000, plus one). */
  const INSTANCE_CAP := 513

  /** `IsDevicePathEndType` masks off the unpacked bit. */
  predicate IsEndType(n: Node) {
    n.typ % UNPACKED == END_TYPE
  }

  predicate IsEnd(n: Node) {
    IsEndType(n) && n.sub == END_ENTIRE
  }

  function Length(n: Node): nat {
    HEADER + |n.data|
  }

  predicate Fits(ns: seq<Node>) {
    forall k | 0 <= k < |ns| :: Length(ns[k]) < 0x1_0000
  }

  const END_NODE := Node(END_TYPE, END_ENTIRE, [])
  const END_INSTANCE_NODE := Node(END_TYPE, END_INSTANCE, [])

  /** A complete path: the only END_ENTIRE node is the last one. */
  predicate IsPath(ns: seq<Node>) {
    && |ns| > 0
    && IsEnd(ns[|ns| - 1])
    && forall k | 0 <= k < |ns| - 1 :: !IsEnd(ns[k])
  }

  /** What the ASSERT of `DevicePathInstance` demands of end nodes, and their length. */
  predicate WellFormed(ns: seq<Node>) {
    forall k | 0 <= k < |ns| && IsEndType(ns[k]) ::
      ns[k].data == [] && (ns[k].sub == END_ENTIRE || ns[k].sub == END_INSTANCE)
  }

  function Total(ns: seq<Node>): nat {
    if ns == [] then 0 else Length(ns[0]) + Total(ns[1..])
  }

  lemma {:induction false} TotalConcat(a: seq<Node>, b: seq<Node>)
    ensures Total(a + b) == Total(a) + Total(b)
  {
    if a == [] {
      assert a + b == b;
    } else {
      assert (a + b)[1..] == a[1..] + b;
      TotalConcat(a[1..], b);
    }
  }

  // ---------------------------------------------------------------------------
  // Encoding and decoding
  // ---------------------------------------------------------------------------

  /** Like `SetDevicePathNodeLength`, keeps 16 bits of the length. */
  function EncodeNode(n: Node): (s: seq<byte>)
    ensures |s| == Length(n)
  {
    [n.typ, n.sub, Length(n) % 0x100, Length(n) / 0x100 % 0x100] + n.data
  }

  function Encode(ns: seq<Node>): (s: seq<byte>)
    ensures |s| == Total(ns)
  {
    if ns == [] then [] else EncodeNode(ns[0]) + Encode(ns[1..])
  }

  lemma EncodeCons(n: Node, ns: seq<Node>)
    ensures Total([n] + ns) == Length(n) + Total(ns)
    ensures Encode([n] + ns) == EncodeNode(n) + Encode(ns)
  {
    assert ([n] + ns)[1..] == ns;
  }

  /** `DevicePathNodeLength` of the node at offset i. */
  function NodeLength(s: seq<byte>, i: nat): nat
    requires i + HEADER <= |s|
  {
    (s[i + 2] as int) + 0x100 * (s[i + 3] as int)
  }

  predicate NodeAt(s: seq<byte>, i: nat) {
    i + HEADER <= |s| && HEADER <= NodeLength(s, i) && i + NodeLength(s, i) <= |s|
  }

  function ReadNode(s: seq<byte>, i: nat): (n: Node)
    requires NodeAt(s, i)
    ensures Length(n) == NodeLength(s, i) < 0x1_0000
  {
    Node(s[i], s[i + 1], s[i + HEADER..i + NodeLength(s, i)])
  }

  /** The path that starts at offset i of a memory, up to and including its END node. */
  function Decode(s: seq<byte>, i: nat): Option<seq<Node>>
    decreases |s| - i
  {
    if !NodeAt(s, i) then None
    else
      var n := ReadNode(s, i);
      if IsEnd(n) then Some([n])
      else
        var rest := Decode(s, i + Length(n));
        if rest.None? then None else Some([n] + rest.value)
  }

  lemma {:induction false} EncodeConcat(a: seq<Node>, b: seq<Node>)
    ensures Encode(a + b) == Encode(a) + Encode(b)
  {
    if a == [] {
      assert a + b == b;
    } else {
      assert (a + b)[1..] == a[1..] + b;
      EncodeConcat(a[1..], b);
    }
  }

  lemma ReadEncoded(s: seq<byte>, i: nat, n: Node)
    requires Length(n) < 0x1_0000
    requires i + Length(n) <= |s| && s[i..i + Length(n)] == EncodeNode(n)
    ensures NodeAt(s, i) && ReadNode(s, i) == n
  {
    var e := s[i..i + Length(n)];
    assert e[2] == s[i + 2] && e[3] == s[i + 3] && e[0] == s[i] && e[1] == s[i + 1];
    assert s[i + HEADER..i + Length(n)] == e[HEADER..];
  }

  lemma EncodeRead(s: seq<byte>, i: nat)
    requires NodeAt(s, i)
    ensures s[i..i + NodeLength(s, i)] == EncodeNode(ReadNode(s, i))
  {}

  lemma PathTail(ns: seq<Node>)
    requires IsPath(ns) && Fits(ns)
    ensures ns == [ns[0]] + ns[1..]
    ensures IsEnd(ns[0]) ==> ns == [ns[0]]
    ensures !IsEnd(ns[0]) ==> IsPath(ns[1..]) && Fits(ns[1..])
  {}

  lemma SliceOfSlice(s: seq<byte>, i: nat, n: nat, m: nat)
    requires n <= m && i + m <= |s|
    ensures s[i..i + m][..n] == s[i..i + n]
    ensures s[i..i + m][n..] == s[i + n..i + m]
  {}

  /** Decoding finds exactly what was encoded, whatever follows it in memory. */
  lemma {:induction false} DecodeEncoded(s: seq<byte>, i: nat, ns: seq<Node>)
    requires IsPath(ns) && Fits(ns)
    requires i + Total(ns) <= |s| && s[i..i + Total(ns)] == Encode(ns)
    ensures Decode(s, i) == Some(ns)
    decreases |ns|
  {
    hide Decode;
    PathTail(ns);
    if IsEnd(ns[0]) {
      EncodeCons(ns[0], []);
      assert [ns[0]] + [] == ns;
      EncodedHead(s, i, ns[0], []);
      DecodeEnd(s, i, ns[0]);
    } else {
      EncodeCons(ns[0], ns[1..]);
      EncodedHead(s, i, ns[0], Encode(ns[1..]));
      DecodeEncoded(s, i + Length(ns[0]), ns[1..]);
      DecodeCons(s, i, ns[0], ns[1..]);
    }
  }

  lemma DecodeEnd(s: seq<byte>, i: nat, n: Node)
    requires NodeAt(s, i) && ReadNode(s, i) == n && IsEnd(n)
    ensures Decode(s, i) == Some([n])
  {}

  lemma DecodeCons(s: seq<byte>, i: nat, n: Node, rest: seq<Node>)
    requires NodeAt(s, i) && ReadNode(s, i) == n && !IsEnd(n)
    requires Decode(s, i + Length(n)) == Some(rest)
    ensures Decode(s, i) == Some([n] + rest)
  {}

  lemma DecodeWhole(s: seq<byte>, ns: seq<Node>)
    requires IsPath(ns) && Fits(ns) && Encode(ns) <= s
    ensures Decode(s, 0) == Some(ns)
  {
    var i := 0;
    assert s[i..i + Total(ns)] == s[..Total(ns)];
    DecodeEncoded(s, i, ns);
  }

  lemma EncodedHead(s: seq<byte>, i: nat, n: Node, rest: seq<byte>)
    requires Length(n) < 0x1_0000
    requires i + Length(n) + |rest| <= |s| && s[i..i + Length(n) + |rest|] == EncodeNode(n) + rest
    ensures NodeAt(s, i) && ReadNode(s, i) == n
    ensures s[i + Length(n)..i + Length(n) + |rest|] == rest
  {
    SliceOfSlice(s, i, Length(n), Length(n) + |rest|);
    ReadEncoded(s, i, n);
  }

  lemma SliceJoin(s: seq<byte>, i: nat, j: nat, k: nat)
    requires i <= j <= k <= |s|
    ensures s[i..k] == s[i..j] + s[j..k]
  {}

  /** A path stands in memory at offset i. */
  predicate Holds(s: seq<byte>, i: nat, ns: seq<Node>) {
    IsPath(ns) && Fits(ns) && i + Total(ns) <= |s| && s[i..i + Total(ns)] == Encode(ns)
  }

  /** Whatever decodes is the encoding of its nodes. */
  lemma EncodeDecoded(s: seq<byte>, i: nat)
    requires Decode(s, i).Some?
    ensures var ns := Decode(s, i).value;
            IsPath(ns) && Fits(ns) && i + Total(ns) <= |s| && s[i..i + Total(ns)] == Encode(ns)
  {
    DecodedHolds(s, i);
  }

  lemma {:induction false} DecodedHolds(s: seq<byte>, i: nat)
    requires Decode(s, i).Some?
    ensures Holds(s, i, Decode(s, i).value)
    decreases |s| - i
  {
    DecodeStep(s, i);
    var ns, j := Decode(s, i).value, i + NodeLength(s, i);
    if IsEnd(ns[0]) {
      HoldsEnd(s, i);
      assert ns == [ns[0]];
    } else {
      assert Holds(s, j, ns[1..]) by {
        DecodedHolds(s, j);
      }
      HoldsMore(s, i, ns[1..]);
      assert ns == [ns[0]] + ns[1..];
    }
  }

  lemma DecodeStep(s: seq<byte>, i: nat)
    requires Decode(s, i).Some?
    ensures NodeAt(s, i)
    ensures var ns := Decode(s, i).value;
            ns[0] == ReadNode(s, i) &&
            (IsEnd(ns[0]) <==> |ns| == 1) &&
            (!IsEnd(ns[0]) ==> Decode(s, i + Length(ns[0])) == Some(ns[1..]))
  {}

  lemma HoldsEnd(s: seq<byte>, i: nat)
    requires NodeAt(s, i) && IsEnd(ReadNode(s, i))
    ensures Holds(s, i, [ReadNode(s, i)])
  {
    var n := ReadNode(s, i);
    EncodedStep(s, i, []);
    assert [n] + [] == [n];
  }

  lemma HoldsMore(s: seq<byte>, i: nat, rest: seq<Node>)
    requires NodeAt(s, i) && !IsEnd(ReadNode(s, i)) && Holds(s, i + NodeLength(s, i), rest)
    ensures Holds(s, i, [ReadNode(s, i)] + rest)
  {
    PathCons(ReadNode(s, i), rest);
    EncodedStep(s, i, rest);
  }

  lemma PathCons(n: Node, rest: seq<Node>)
    requires IsPath(rest) && Fits(rest) && !IsEnd(n) && Length(n) < 0x1_0000
    ensures IsPath([n] + rest) && Fits([n] + rest)
  {}

  lemma EncodedStep(s: seq<byte>, i: nat, rest: seq<Node>)
    requires NodeAt(s, i)
    requires var j := i + NodeLength(s, i);
             j + Total(rest) <= |s| && s[j..j + Total(rest)] == Encode(rest)
    ensures var ns := [ReadNode(s, i)] + rest;
            Total(ns) == NodeLength(s, i) + Total(rest) && s[i..i + Total(ns)] == Encode(ns)
  {
    EncodeRead(s, i);
    EncodeCons(ReadNode(s, i), rest);
    SliceJoin(s, i, i + NodeLength(s, i), i + NodeLength(s, i) + Total(rest));
  }

  /** A path reads the same from any memory that holds the same bytes. */
  lemma DecodeElsewhere(s: seq<byte>, i: nat, t: seq<byte>, j: nat)
    requires Decode(s, i).Some?
    requires var n := Total(Decode(s, i).value);
             i + n <= |s| && j + n <= |t| && t[j..j + n] == s[i..i + n]
    ensures Decode(t, j) == Decode(s, i)
  {
    EncodeDecoded(s, i);
    DecodeEncoded(t, j, Decode(s, i).value);
  }

  // ---------------------------------------------------------------------------
  // Instances
  // ---------------------------------------------------------------------------

  type Instance = seq<Node>

  /** A path read as the list of its instances, end nodes dropped. */
  function Instances(ns: seq<Node>): (r: seq<Instance>)
    ensures |r| > 0
  {
    if ns == [] || IsEnd(ns[0]) then [[]]
    else
      var rest := Instances(ns[1..]);
      if IsEndType(ns[0]) then [[]] + rest
      else [[ns[0]] + rest[0]] + rest[1..]
  }

  predicate Capped(ns: seq<Node>) {
    forall k | 0 <= k < |Instances(ns)| :: |Instances(ns)[k]| <= INSTANCE_CAP
  }

  /** Position of the first node with an end type. */
  function FirstEnd(ns: seq<Node>): (k: nat)
    requires IsPath(ns)
    ensures k < |ns| && IsEndType(ns[k])
    ensures forall j | 0 <= j < k :: !IsEndType(ns[j])
  {
    if IsEndType(ns[0]) then 0 else 1 + FirstEnd(ns[1..])
  }

  lemma {:induction false} FirstInstance(ns: seq<Node>)
    requires IsPath(ns)
    ensures var k := FirstEnd(ns);
            Instances(ns)[0] == ns[..k] &&
            (IsEnd(ns[k]) <==> |Instances(ns)| == 1) &&
            (!IsEnd(ns[k]) ==> IsPath(ns[k + 1..]) && Instances(ns)[1..] == Instances(ns[k + 1..]))
  {
    if !IsEndType(ns[0]) {
      var rest := ns[1..];
      FirstInstance(rest);
      var k := FirstEnd(rest);
      assert [ns[0]] + rest[..k] == ns[..k + 1];
      assert rest[k + 1..] == ns[k + 2..];
    }
  }

  /** No node of an instance has an end type. */
  lemma {:induction false} InstanceNodes(ns: seq<Node>, k: nat)
    requires IsPath(ns) && Fits(ns) && k < |Instances(ns)|
    ensures Fits(Instances(ns)[k])
    ensures forall j | 0 <= j < |Instances(ns)[k]| :: !IsEndType(Instances(ns)[k][j])
    decreases |ns|
  {
    if !IsEnd(ns[0]) {
      if !IsEndType(ns[0]) {
        InstanceNodes(ns[1..], k);
      } else if k > 0 {
        InstanceNodes(ns[1..], k - 1);
      }
    }
  }

  /** Instance sizes as `DevicePathInstance` reports them, four more bytes each. */
  function SizesWithEnds(insts: seq<Instance>): nat {
    if insts == [] then 0 else Total(insts[0]) + HEADER + SizesWithEnds(insts[1..])
  }

  /** Instance sizes plus four bytes each make up the whole path. */
  lemma {:induction false} SizesSumToPath(ns: seq<Node>)
    requires IsPath(ns) && WellFormed(ns)
    ensures SizesWithEnds(Instances(ns)) == Total(ns)
  {
    if IsEnd(ns[0]) {
      assert ns[1..] == [];
    } else {
      var rest := Instances(ns[1..]);
      SizesSumToPath(ns[1..]);
      if !IsEndType(ns[0]) {
        assert ([ns[0]] + rest[0])[1..] == rest[0];
        assert Instances(ns)[1..] == rest[1..];
      } else {
        assert Instances(ns)[1..] == rest;
      }
    }
  }

  /** What `AppendDevicePathInstance` makes of two paths. */
  function JoinInstances(a: seq<Node>, b: seq<Node>): (r: seq<Node>)
    requires IsPath(a) && IsPath(b)
    ensures IsPath(r)
  {
    a[..|a| - 1] + [a[|a| - 1].(sub := END_INSTANCE)] + b
  }

  lemma JoinTail(a: seq<Node>, b: seq<Node>)
    requires IsPath(a) && IsPath(b)
    ensures |a| == 1 ==> JoinInstances(a, b) == [a[0].(sub := END_INSTANCE)] + b
    ensures |a| > 1 ==> IsPath(a[1..]) && JoinInstances(a, b) == [a[0]] + JoinInstances(a[1..], b)
  {}

  lemma InstancesCons(n: Node, ns: seq<Node>)
    requires !IsEnd(n)
    ensures Instances([n] + ns) == if IsEndType(n) then [[]] + Instances(ns)
                                   else [[n] + Instances(ns)[0]] + Instances(ns)[1..]
  {
    assert ([n] + ns)[1..] == ns;
  }

  /** The instance list of the joined path is the one list followed by the other. */
  lemma {:induction false} InstancesOfJoin(a: seq<Node>, b: seq<Node>)
    requires IsPath(a) && IsPath(b)
    ensures Instances(JoinInstances(a, b)) == Instances(a) + Instances(b)
  {
    JoinTail(a, b);
    if |a| == 1 {
      InstancesCons(a[0].(sub := END_INSTANCE), b);
    } else {
      assert !IsEnd(a[0]) && a == [a[0]] + a[1..];
      var tail := a[1..];
      assert Instances(JoinInstances(tail, b)) == Instances(tail) + Instances(b) by {
        InstancesOfJoin(tail, b);
      }
      InstancesCons(a[0], tail);
      InstancesCons(a[0], JoinInstances(tail, b));
      FirstExtended(a[0], Instances(tail), Instances(b));
    }
  }

  lemma FirstExtended(n: Node, x: seq<Instance>, y: seq<Instance>)
    requires x != []
    ensures [[]] + (x + y) == [[]] + x + y
    ensures [[n] + (x + y)[0]] + (x + y)[1..] == [[n] + x[0]] + x[1..] + y
  {}

  /** Nodes without end types in front of a path extend its first instance. */
  lemma {:induction false} InstancesOfPrefix(front: Instance, ns: seq<Node>)
    requires IsPath(ns) && forall j | 0 <= j < |front| :: !IsEndType(front[j])
    ensures IsPath(front + ns)
    ensures Instances(front + ns) == [front + Instances(ns)[0]] + Instances(ns)[1..]
  {
    if front == [] {
      assert front + ns == ns;
      assert front + Instances(ns)[0] == Instances(ns)[0];
    } else {
      InstancesOfPrefix(front[1..], ns);
      assert (front + ns)[1..] == front[1..] + ns;
      assert [front[0]] + (front[1..] + Instances(ns)[0]) == front + Instances(ns)[0];
    }
  }

  // ---------------------------------------------------------------------------
  // Unpacking
  // ---------------------------------------------------------------------------

  /** `MIN_ALIGNMENT_SIZE`: 4 on x86_64 and ia32, 8 on the other 64-bit targets. */
  type alignment = a: nat | a == 4 || a == 8 witness 4

  /** `ALIGN_SIZE`: the bytes needed to reach the next multiple. */
  function AlignSize(a: nat, align: alignment): nat {
    if a % align != 0 then align - a % align else 0
  }

  function RoundUp(a: nat, align: alignment): (r: nat)
    ensures r % align == 0 && a <= r < a + align
    ensures a % align == 0 ==> r == a
  {
    assert if align == 4 then (a + AlignSize(a, 4)) % 4 == 0 else (a + AlignSize(a, 8)) % 8 == 0;
    a + AlignSize(a, align)
  }

  lemma AddMultiple4(a: nat, b: nat)
    requires a % 4 == 0
    ensures (a + b) % 4 == b % 4
  {}

  lemma AddMultiple8(a: nat, b: nat)
    requires a % 8 == 0
    ensures (a + b) % 8 == b % 8
  {}

  lemma AlignedSum(a: nat, b: nat, align: alignment)
    requires a % align == 0
    ensures a + RoundUp(b, align) == RoundUp(a + b, align)
    ensures b % align == 0 ==> (a + b) % align == 0
  {
    if align == 4 {
      AddMultiple4(a, b);
    } else {
      AddMultiple8(a, b);
    }
  }

  function Padding(n: nat): (z: seq<byte>)
    ensures |z| == n
  {
    seq(n, _ => 0)
  }

  function SetUnpackedBit(t: byte): byte {
    if t < UNPACKED then t + UNPACKED else t
  }

  /** A node after unpacking: flagged, and zero-padded to the alignment. */
  function UnpackNode(n: Node, align: alignment): (r: Node)
  {
    Node(SetUnpackedBit(n.typ), n.sub, n.data + Padding(AlignSize(Length(n), align)))
  }

  function UnpackAll(ns: seq<Node>, align: alignment): (r: seq<Node>)
    ensures |r| == |ns|
  {
    if ns == [] then [] else [UnpackNode(ns[0], align)] + UnpackAll(ns[1..], align)
  }

  /** Every rounded length still fits the 16-bit length field. */
  predicate FitsAligned(ns: seq<Node>, align: alignment)
  {
    forall k | 0 <= k < |ns| :: RoundUp(Length(ns[k]), align) < 0x1_0000
  }

  lemma {:induction false} UnpackedNodes(ns: seq<Node>, align: alignment, k: nat)
    requires k < |ns|
    ensures UnpackAll(ns, align)[k] == UnpackNode(ns[k], align)
  {
    if k > 0 {
      UnpackedNodes(ns[1..], align, k - 1);
    }
  }

  lemma UnpackedPath(ns: seq<Node>, align: alignment)
    requires IsPath(ns) && FitsAligned(ns, align)
    ensures IsPath(UnpackAll(ns, align)) && Fits(UnpackAll(ns, align))
  {
    forall k | 0 <= k < |ns|
      ensures var u := UnpackAll(ns, align)[k];
              (IsEnd(u) <==> IsEnd(ns[k])) && Length(u) < 0x1_0000
    {
      UnpackedNodes(ns, align, k);
      UnpackNodeKeeps(ns[k], align);
    }
  }

  /** Unpacking keeps subtype, masked type and payload and adds nothing but zeros. */
  lemma UnpackNodeKeeps(n: Node, align: alignment)
    ensures var u := UnpackNode(n, align);
            u.sub == n.sub && u.typ % UNPACKED == n.typ % UNPACKED && u.typ >= UNPACKED &&
            n.data <= u.data && Length(u) == RoundUp(Length(n), align) &&
            (forall j | |n.data| <= j < |u.data| :: u.data[j] == 0) &&
            (IsEndType(u) <==> IsEndType(n))
  {}

  /** Every node of an unpacked path lands on an aligned offset and keeps what it says. */
  lemma {:induction false} UnpackKeepsAndAligns(ns: seq<Node>, align: alignment, k: nat)
    requires k < |ns|
    ensures Total(UnpackAll(ns, align)[..k]) % align == 0
    ensures var n, u := ns[k], UnpackAll(ns, align)[k];
            u.sub == n.sub && u.typ % UNPACKED == n.typ % UNPACKED && u.typ >= UNPACKED &&
            n.data <= u.data && Length(u) == RoundUp(Length(n), align) &&
            forall j | |n.data| <= j < |u.data| :: u.data[j] == 0
  {
    UnpackedNodes(ns, align, k);
    UnpackNodeKeeps(ns[k], align);
    OffsetAligned(ns, align, k);
  }

  lemma {:induction false} OffsetAligned(ns: seq<Node>, align: alignment, k: nat)
    requires k <= |ns|
    ensures Total(UnpackAll(ns, align)[..k]) % align == 0
  {
    if k > 0 {
      var u := UnpackAll(ns, align);
      OffsetAligned(ns[1..], align, k - 1);
      assert u[..k][0] == UnpackNode(ns[0], align);
      assert u[..k][1..] == UnpackAll(ns[1..], align)[..k - 1];
      assert Length(u[0]) == RoundUp(Length(ns[0]), align);
      AlignedSum(Length(u[0]), Total(u[..k][1..]), align);
    }
  }

  /** Unpacking an unpacked path changes nothing. */
  lemma {:induction false} UnpackTwice(ns: seq<Node>, align: alignment)
    ensures UnpackAll(UnpackAll(ns, align), align) == UnpackAll(ns, align)
  {
    if ns != [] {
      var u := UnpackNode(ns[0], align);
      assert Length(u) == RoundUp(Length(ns[0]), align);
      assert UnpackNode(u, align).data == u.data;
      UnpackTwice(ns[1..], align);
      assert UnpackAll(ns, align)[1..] == UnpackAll(ns[1..], align);
    }
  }

  // ---------------------------------------------------------------------------
  // Comparing raw bytes
  // ---------------------------------------------------------------------------

  lemma CommonHeader(a: Node, b: Node, x: seq<byte>, y: seq<byte>)
    requires Length(a) < 0x1_0000 && Length(b) < 0x1_0000
    requires EncodeNode(a) + x <= EncodeNode(b) + y
    ensures a == b && x <= y
  {
    var p, q := EncodeNode(a) + x, EncodeNode(b) + y;
    assert p[0] == q[0] && p[1] == q[1] && p[2] == q[2] && p[3] == q[3];
    assert a.data == p[HEADER..Length(a)] == q[HEADER..Length(a)] == b.data;
    assert x == p[Length(a)..] && y == q[Length(a)..];
  }

  /** The bytes of an instance start the bytes of a path exactly when its nodes start the
      path's nodes. */
  lemma {:induction false} BytePrefix(inst: seq<Node>, ns: seq<Node>)
    requires Fits(inst) && Fits(ns)
    ensures Encode(inst) <= Encode(ns) <==> inst <= ns
    decreases |inst|
  {
    if inst == [] {
    } else if ns == [] {
      assert |Encode(inst)| > 0;
    } else {
      BytePrefix(inst[1..], ns[1..]);
      if Encode(inst) <= Encode(ns) {
        CommonHeader(inst[0], ns[0], Encode(inst[1..]), Encode(ns[1..]));
        assert inst == [inst[0]] + inst[1..] && ns == [ns[0]] + ns[1..];
      }
      if inst <= ns {
        assert inst[1..] <= ns[1..];
      }
    }
  }

  /** The bytes of a whole path never start the bytes of an instance: a comparison is
      settled at or before the path's first END header. */
  lemma {:induction false} PathNeverPrefix(ns: seq<Node>, inst: seq<Node>)
    requires Fits(inst) && Fits(ns) && IsPath(ns)
    requires forall j | 0 <= j < |inst| :: !IsEndType(inst[j])
    ensures !(Encode(ns) <= Encode(inst))
    decreases |inst|
  {
    assert |Encode(ns)| > 0;
    if inst != [] && Encode(ns) <= Encode(inst) {
      CommonHeader(ns[0], inst[0], Encode(ns[1..]), Encode(inst[1..]));
      PathNeverPrefix(ns[1..], inst[1..]);
    }
  }
}

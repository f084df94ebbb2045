/** Device paths byte by byte: what the markers, headers and copies of the other modules are in memory. */
module DevicePathBytes {
  import opened Basics
  import opened DevicePathFormat
  import opened DevicePath
  import opened DevicePathAppend

  /** The four bytes between two instances, and those at the end of a path. */
  lemma EndMarkers()
    ensures EncodeNode(END_INSTANCE_NODE) == [0x7F, 1, 4, 0]
    ensures EncodeNode(END_NODE) == [0x7F, 0xFF, 4, 0]
  {}

  /** An end type with or without the unpacked bit, and the subtype that ends the whole path. */
  lemma EndBytes(n: Node)
    ensures IsEndType(n) <==> n.typ == 0x7F || n.typ == 0xFF
    ensures IsEnd(n) <==> (n.typ == 0x7F || n.typ == 0xFF) && n.sub == 0xFF
  {}

  /** Type, subtype, the length of all from the low byte to the high one, and what follows. */
  lemma EncodedBytes(n: Node)
    ensures var e := EncodeNode(n);
            && |e| == 4 + |n.data| && e[0] == n.typ && e[1] == n.sub && e[4..] == n.data
            && (|e| < 0x1_0000 ==> e[2] as int + 0x100 * (e[3] as int) == |e|)
  {}

  /** Reading a path: it fails at a length below four and at the end of memory, and stops at the END node. */
  lemma DecodedBytes(s: seq<byte>, i: nat)
    ensures i + 4 > |s| ==> Decode(s, i) == None
    ensures i + 4 <= |s| ==>
              var length := s[i + 2] as int + 0x100 * (s[i + 3] as int);
              && (length < 4 || i + length > |s| ==> Decode(s, i) == None)
              && (4 <= length <= |s| - i ==>
                    var n := Node(s[i], s[i + 1], s[i + 4..i + length]);
                    Decode(s, i) == if s[i] in {0x7F, 0xFF} && s[i + 1] == 0xFF then Some([n])
                                    else if Decode(s, i + length) == None then None
                                    else Some([n] + Decode(s, i + length).value))
  {}

  /** Instances end at a marker, the last at the END node. */
  lemma InstancesInBytes(n: Node, ns: seq<Node>)
    ensures Instances([]) == [[]]
    ensures Instances([n] + ns)
            == if n.typ in {0x7F, 0xFF} && n.sub == 0xFF then [[]]
               else if n.typ in {0x7F, 0xFF} then [[]] + Instances(ns)
               else [[n] + Instances(ns)[0]] + Instances(ns)[1..]
  {
    EndBytes(n);
    if !IsEnd(n) {
      InstancesCons(n, ns);
    }
  }

  /** The walk goes over up to 513 nodes of an instance. */
  lemma CappedAt513(ns: seq<Node>)
    ensures Capped(ns) <==> forall k | 0 <= k < |Instances(ns)| :: |Instances(ns)[k]| <= 513
  {}

  /** Appending an instance changes the END in between, one byte, into a marker. */
  lemma JoinedInBytes(a: seq<Node>, b: seq<Node>)
    requires IsPath(a) && WellFormed(a) && IsPath(b)
    ensures var x := Encode(a);
            |x| >= 4 && x[|x| - 3..] == [0xFF, 4, 0]
            && Encode(JoinInstances(a, b)) == x[..|x| - 3] + [1, 4, 0] + Encode(b)
  {
    hide Encode, EncodeNode, JoinInstances;
    var last := a[|a| - 1];
    JoinEncoding(a, b);
    HeaderOnly(last);
    HeaderOnly(last.(sub := 1));
    var front := Encode(a[..|a| - 1]);
    assert Encode(a) == front + [last.typ, 0xFF, 4, 0];
    HeaderCut(Encode(a), front, last.typ);
  }

  lemma HeaderCut(x: seq<byte>, front: seq<byte>, typ: byte)
    requires x == front + [typ, 0xFF, 4, 0]
    ensures |x| >= 4 && x[|x| - 3..] == [0xFF, 4, 0]
    ensures front + [typ, 1, 4, 0] == x[..|x| - 3] + [1, 4, 0]
  {}

  /** `AppendDevicePath` writes each instance with the other path behind it, markers between them and an END
      after the last. */
  lemma WrittenInBytes(inst: Instance, insts: seq<Instance>, tail: seq<byte>)
    ensures Written([inst], tail) == Encode(inst) + tail + [0x7F, 0xFF, 4, 0]
    ensures insts != [] ==> Written([inst] + insts, tail) == Encode(inst) + tail + [0x7F, 1, 4, 0] + Written(insts, tail)
  {
    EndMarkers();
    WrittenOne(inst, tail);
    if insts != [] {
      WrittenMore(inst, insts, tail);
    }
  }

  lemma WrittenOne(inst: Instance, tail: seq<byte>)
    ensures Written([inst], tail) == Encode(inst) + tail + EncodeNode(END_NODE)
  {
    hide Encode, EncodeNode;
    assert [inst][..0] == [] && [] + (Encode(inst) + tail) == Encode(inst) + tail;
  }

  lemma WrittenMore(inst: Instance, insts: seq<Instance>, tail: seq<byte>)
    requires insts != []
    ensures Written([inst] + insts, tail) == Encode(inst) + tail + EncodeNode(END_INSTANCE_NODE) + Written(insts, tail)
  {
    hide Encode, EncodeNode, Chunks;
    var k := |insts| - 1;
    assert ([inst] + insts)[..|insts|] == [inst] + insts[..k] && ([inst] + insts)[|insts|] == insts[k];
    ChunksCons(inst, insts[..k], tail);
    Regroup(Chunk(inst, tail), Chunks(insts[..k], tail), Encode(insts[k]) + tail, EncodeNode(END_NODE));
  }

  lemma Regroup(a: seq<byte>, b: seq<byte>, c: seq<byte>, d: seq<byte>)
    ensures (a + b) + c + d == a + (b + c + d)
    ensures (a + b) + c == a + (b + c)
  {}

  lemma {:induction false} ChunksCons(inst: Instance, insts: seq<Instance>, tail: seq<byte>)
    ensures Chunks([inst] + insts, tail) == Chunk(inst, tail) + Chunks(insts, tail)
  {
    hide Chunk, Chunks;
    if insts == [] {
      assert [inst] + insts == [inst] && [] + [inst] == [inst];
      ChunksSnoc([], inst, tail);
      NoChunks(tail);
      assert [] + Chunk(inst, tail) == Chunk(inst, tail) == Chunk(inst, tail) + [];
    } else {
      var k := |insts| - 1;
      ChunksCons(inst, insts[..k], tail);
      ChunksSnoc([inst] + insts[..k], insts[k], tail);
      ChunksSnoc(insts[..k], insts[k], tail);
      assert insts[..k] + [insts[k]] == insts && [inst] + insts[..k] + [insts[k]] == [inst] + insts;
      Regroup(Chunk(inst, tail), Chunks(insts[..k], tail), Chunk(insts[k], tail), []);
    }
  }

  lemma NoChunks(tail: seq<byte>)
    ensures Chunks([], tail) == []
  {}

  /** An unpacked node: bit 7 of the type set, and zeros up to the next multiple of the alignment. */
  lemma UnpackedInBytes(n: Node, align: alignment)
    ensures var e := EncodeNode(UnpackNode(n, align));
            && |e| % align == 0 && 4 + |n.data| <= |e| < 4 + |n.data| + align
            && e[0] == (if n.typ < 0x80 then n.typ + 0x80 else n.typ) && e[1] == n.sub
            && e[4..4 + |n.data|] == n.data
            && (forall j | 4 + |n.data| <= j < |e| :: e[j] == 0)
            && (|e| < 0x1_0000 ==> e[2] as int + 0x100 * (e[3] as int) == |e|)
  {
    var u := UnpackNode(n, align);
    UnpackNodeKeeps(n, align);
    EncodedBytes(u);
    var e := EncodeNode(u);
    forall j | 4 + |n.data| <= j < |e|
      ensures e[j] == 0
    {
      assert e[j] == u.data[j - 4];
    }
    assert e[4..4 + |n.data|] == u.data[..|n.data|];
  }
}

/** `LibMatchDevicePaths`: does some instance of a multi-instance path start another path? */
module DevicePathMatch {
  import opened Basics
  import opened DevicePathFormat
  import opened DevicePath

  /** `CompareMem` reports 0 exactly for equal bytes and stops at the first difference, so
      it reads the left side only up to `limit`, where the caller knows they must differ. */
  method CompareMem(left: array<byte>, d: nat, right: array<byte>, s: nat, len: nat, ghost limit: nat)
    returns (r: int)
    requires d <= limit <= left.Length && s + len <= right.Length
    requires limit - d < len ==> left[d..limit] != right[s..s + (limit - d)]
    ensures r == 0 <==> d + len <= limit && left[d..d + len] == right[s..s + len]
  {
    var k := 0;
    while k < len
      invariant k <= len && d + k <= limit
      invariant left[d..d + k] == right[s..s + k]
    {
      if left[d + k] != right[s + k] {
        r := (left[d + k] as int) - (right[s + k] as int);
        if d + len <= limit {
          assert left[d..d + len][k] != right[s..s + len][k];
        }
        return;
      }
      k := k + 1;
    }
    r := 0;
  }

  /** Comparing the bytes of an instance with a path decides the prefix relation on nodes. */
  lemma ComparisonDecides(inst: Instance, ns: seq<Node>, left: seq<byte>, d: nat)
    requires Fits(inst) && IsPath(ns) && Fits(ns)
    requires forall j | 0 <= j < |inst| :: !IsEndType(inst[j])
    requires d + Total(ns) <= |left| && left[d..d + Total(ns)] == Encode(ns)
    ensures Total(ns) < Total(inst) ==> left[d..d + Total(ns)] != Encode(inst)[..Total(ns)]
    ensures Total(inst) <= Total(ns) ==> (left[d..d + Total(inst)] == Encode(inst) <==> inst <= ns)
    ensures inst <= ns ==> Total(inst) <= Total(ns)
  {
    PathNeverPrefix(ns, inst);
    BytePrefix(inst, ns);
    if Total(inst) <= Total(ns) {
      SliceOfSlice(left, d, Total(inst), Total(ns));
      assert Encode(ns)[..Total(inst)] == left[d..d + Total(inst)];
    }
  }

  ghost predicate SomeInstanceStarts(insts: seq<Instance>, ns: seq<Node>) {
    exists k :: 0 <= k < |insts| && insts[k] <= ns
  }

  /** TRUE exactly when the nodes of some instance of Multi start the nodes of Single. */
  method LibMatchDevicePaths(multi: array<byte>, pm: Option<nat>, single: array<byte>, ps: Option<nat>)
    returns (found: bool)
    requires Walkable(multi[..], pm) && Readable(single[..], ps)
    ensures found <==> ps.Some? && SomeInstanceStarts(InstancesAt(multi[..], pm), NodesAt(single[..], ps))
  {
    if pm.None? || ps.None? {
      return false;
    }
    ghost var insts, ns := InstancesAt(multi[..], pm), NodesAt(single[..], ps);
    ghost var done := 0;
    var at := pm;
    while at.Some?
      invariant Walkable(multi[..], at) && done <= |insts|
      invariant InstancesAt(multi[..], at) == insts[done..]
      invariant forall k | 0 <= k < done :: !(insts[k] <= ns)
      decreases |insts| - done
    {
      var same, next := MatchFirst(multi, at.value, single, ps.value);
      if same {
        return true;
      }
      at, done := next, done + 1;
    }
    found := false;
  }

  /** One turn of the loop: the next instance of Multi against Single. */
  method MatchFirst(multi: array<byte>, at: nat, single: array<byte>, p: nat) returns (same: bool, next: Option<nat>)
    requires Walkable(multi[..], Some(at)) && Readable(single[..], Some(p))
    ensures Walkable(multi[..], next) && InstancesAt(multi[..], Some(at)) != []
    ensures InstancesAt(multi[..], next) == InstancesAt(multi[..], Some(at))[1..]
    ensures same <==> InstancesAt(multi[..], Some(at))[0] <= NodesAt(single[..], Some(p))
  {
    InstancesFit(multi[..], Some(at));
    var inst, after, size := DevicePathInstance(multi, Some(at));
    same := MatchOne(multi, at, size, InstancesAt(multi[..], Some(at))[0], single, p);
    next := after;
  }

  method MatchOne(multi: array<byte>, at: nat, size: nat, ghost inst: Instance, single: array<byte>, p: nat)
    returns (same: bool)
    requires at + size <= multi.Length && Fits(inst) && size == Total(inst)
    requires multi[at..at + size] == Encode(inst)
    requires forall j | 0 <= j < |inst| :: !IsEndType(inst[j])
    requires Readable(single[..], Some(p))
    ensures same <==> inst <= NodesAt(single[..], Some(p))
  {
    EncodeDecoded(single[..], p);
    same := CompareNodes(multi, at, size, inst, single, p, NodesAt(single[..], Some(p)));
  }

  /** `CompareMem (Single, DevicePathInst, Size) == 0`. */
  method CompareNodes(multi: array<byte>, at: nat, size: nat, ghost inst: Instance, single: array<byte>, p: nat,
                      ghost ns: seq<Node>)
    returns (same: bool)
    requires at + size <= multi.Length && Fits(inst) && size == Total(inst)
    requires multi[at..at + size] == Encode(inst)
    requires forall j | 0 <= j < |inst| :: !IsEndType(inst[j])
    requires IsPath(ns) && Fits(ns) && p + Total(ns) <= single.Length && single[p..p + Total(ns)] == Encode(ns)
    ensures same <==> inst <= ns
  {
    hide Encode, Decode;
    assert single[..][p..p + Total(ns)] == single[p..p + Total(ns)];
    ComparisonDecides(inst, ns, single[..], p);
    if Total(ns) < size {
      SliceOfSlice(multi[..], at, Total(ns), size);
    }
    ghost var limit := p + Total(ns);
    var r := CompareMem(single, p, multi, at, size, limit);
    assert p + size <= limit <==> Total(inst) <= Total(ns);
    same := r == 0;
  }
}

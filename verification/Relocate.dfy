/** The self-relocators `_relocate` of gnu-efi for x86-64, AArch64 and 64-bit little-endian MIPS: a
    scan of the dynamic section, then patches to words of the loaded image. */
module Relocate {
  import opened Basics
  import opened Digits
  import opened ByteWords

  datatype Status = Success | LoadError

  /** Elf64_Dyn. */
  datatype Dyn = Dyn(tag: int, val: uint64)

  const DT_NULL := 0
  const DT_PLTGOT := 3
  const DT_RELA := 7
  const DT_RELASZ := 8
  const DT_RELAENT := 9
  const DT_REL := 17
  const DT_RELSZ := 18
  const DT_RELENT := 19
  const DT_MIPS_LOCAL_GOTNO := 0x7000_000A

  /** How a target architecture marks and patches a relative relocation. */
  datatype Machine = Machine(relative: nat, entrySize: nat, explicit: bool, swapped: bool)

  const X86_64 := Machine(8, 16, false, false)
  const AARCH64 := Machine(1027, 24, true, false)
  /** R_MIPS_64 above R_MIPS_REL32, read from a byte-swapped r_info. */
  const MIPS := Machine(18 * 256 + 3, 16, false, true)

  // ---------------------------------------------------------------------------
  // The dynamic section
  // ---------------------------------------------------------------------------

  /** Entries up to and including the first DT_NULL. */
  predicate IsSection(dyn: seq<Dyn>) {
    |dyn| > 0 && dyn[|dyn| - 1].tag == DT_NULL && forall i | 0 <= i < |dyn| - 1 :: dyn[i].tag != DT_NULL
  }

  /** The value a tag has in the end. */
  function Find(dyn: seq<Dyn>, tag: int): Option<uint64> {
    if dyn == [] then None
    else if dyn[|dyn| - 1].tag == tag then Some(dyn[|dyn| - 1].val)
    else Find(dyn[..|dyn| - 1], tag)
  }

  /** The last entry with a tag wins. */
  lemma {:induction false} LastEntryWins(dyn: seq<Dyn>, tag: int)
    ensures Find(dyn, tag) == None <==> forall i | 0 <= i < |dyn| :: dyn[i].tag != tag
    ensures Find(dyn, tag).Some? ==>
              exists i | 0 <= i < |dyn| :: dyn[i] == Dyn(tag, Find(dyn, tag).value) && forall j | i < j < |dyn| :: dyn[j].tag != tag
  {
    if dyn != [] {
      var rest := dyn[..|dyn| - 1];
      LastEntryWins(rest, tag);
      if dyn[|dyn| - 1].tag == tag {
        assert dyn[|dyn| - 1] == Dyn(tag, Find(dyn, tag).value);
      } else if Find(rest, tag).Some? {
        var i :| 0 <= i < |rest| && rest[i] == Dyn(tag, Find(rest, tag).value) && forall j | i < j < |rest| :: rest[j].tag != tag;
        assert dyn[i] == Dyn(tag, Find(dyn, tag).value);
      }
    }
  }

  /** A pointer in the loaded image; 0 when there is none. */
  function Pointer(dyn: seq<Dyn>, tag: int, base: uint64): uint64 {
    var p := Find(dyn, tag);
    if p.None? then 0 else Plus(p.value, base)
  }

  /** A `long`. */
  function Size(dyn: seq<Dyn>, tag: int): int64 {
    var p := Find(dyn, tag);
    if p.None? then 0 else Signed(p.value)
  }

  // ---------------------------------------------------------------------------
  // One relocation
  // ---------------------------------------------------------------------------

  /** Elf64_Rela; a table of Elf64_Rel has no addends. */
  datatype Entry = Entry(offset: uint64, info: uint64, addend: uint64)

  predicate EntryInside(v: Machine, m: seq<byte>, at: nat) {
    16 <= v.entrySize && at + v.entrySize <= |m| && (v.explicit ==> v.entrySize == 24)
  }

  function EntryAt(v: Machine, m: seq<byte>, at: nat): Entry
    requires EntryInside(v, m, at)
  {
    Entry(LoadAt(m, at), LoadAt(m, at + 8), if v.explicit then LoadAt(m, at + 16) else 0)
  }

  /** dsbh: swap the bytes of each half-word; dshd: reverse the half-words. */
  function Dsbh(b: seq<byte>): seq<byte>
    requires |b| == 8
  {
    [b[1], b[0], b[3], b[2], b[5], b[4], b[7], b[6]]
  }

  function Dshd(b: seq<byte>): seq<byte>
    requires |b| == 8
  {
    [b[6], b[7], b[4], b[5], b[2], b[3], b[0], b[1]]
  }

  function SwapUint64(x: uint64): uint64 {
    var b := Dshd(Dsbh(Bytes(x, 8)));
    ValueBound(b);
    LimitOfEight();
    ByteWords.Value(b)
  }

  /** The two instructions reverse all eight bytes. */
  lemma SwapReverses(x: uint64)
    ensures Bytes(SwapUint64(x), 8) == Reversed(Bytes(x, 8))
  {
    var b := Bytes(x, 8);
    BytesOfValue(Dshd(Dsbh(b)));
    forall k | 0 <= k < 8
      ensures Reversed(b)[k] == b[7 - k] == Dshd(Dsbh(b))[k]
    {
      ReversedAt(b, k);
    }
  }

  /** ELF64_R_TYPE. */
  function Type(v: Machine, info: uint64): nat {
    (if v.swapped then SwapUint64(info) else info) % 0x1_0000_0000
  }

  predicate IsRelative(v: Machine, e: Entry) {
    Type(v, e.info) == v.relative
  }

  function Target(e: Entry, base: uint64): uint64 {
    Plus(base, e.offset)
  }

  /** The word a relative relocation leaves. */
  function NewWord(v: Machine, old_: uint64, e: Entry, base: uint64): uint64 {
    if v.explicit then Plus(base, e.addend) else Plus(old_, base)
  }

  /** Every access of the relocation at `at` is to memory. */
  predicate Inside(v: Machine, m: seq<byte>, at: nat, base: uint64) {
    && EntryInside(v, m, at)
    && (IsRelative(v, EntryAt(v, m, at)) ==> Target(EntryAt(v, m, at), base) + 8 <= |m|)
  }

  function Patched(v: Machine, m: seq<byte>, at: nat, base: uint64): (r: seq<byte>)
    requires Inside(v, m, at, base)
    ensures |r| == |m|
  {
    var e := EntryAt(v, m, at);
    if IsRelative(v, e) then
      var t := Target(e, base);
      StoreAt(m, t, NewWord(v, LoadAt(m, t), e, base))
    else m
  }

  // ---------------------------------------------------------------------------
  // A table of relocations
  // ---------------------------------------------------------------------------

  /** The addresses of the entries: a last one that is not whole still counts. */
  function Entries(start: nat, relsz: int, relent: int): seq<nat>
    requires relsz > 0 ==> relent > 0
    decreases relsz
  {
    if relsz <= 0 then [] else [start] + Entries(start + relent, relsz - relent, relent)
  }

  predicate AllInside(v: Machine, m: seq<byte>, ats: seq<nat>, base: uint64)
    decreases |ats|
  {
    ats == [] || (Inside(v, m, ats[0], base) && AllInside(v, Patched(v, m, ats[0], base), ats[1..], base))
  }

  /** The memory after all relocations, one after the other. */
  function PatchedAll(v: Machine, m: seq<byte>, ats: seq<nat>, base: uint64): (r: seq<byte>)
    requires AllInside(v, m, ats, base)
    ensures |r| == |m|
    decreases |ats|
  {
    if ats == [] then m else PatchedAll(v, Patched(v, m, ats[0], base), ats[1..], base)
  }

  /** Entry at `a` leaves the entry at `b`, and its target when it is another one, alone. */
  predicate Undisturbed(v: Machine, m: seq<byte>, a: nat, b: nat, same: bool, base: uint64)
    requires EntryInside(v, m, a) && EntryInside(v, m, b)
  {
    var e, f := EntryAt(v, m, a), EntryAt(v, m, b);
    IsRelative(v, e) ==>
      && Apart(Target(e, base), 8, b, v.entrySize)
      && (!same && IsRelative(v, f) ==> Apart(Target(e, base), 8, Target(f, base), 8))
  }

  /** Distinct targets, and none of them in the table. */
  predicate Separate(v: Machine, m: seq<byte>, ats: seq<nat>, base: uint64) {
    && (forall i | 0 <= i < |ats| :: Inside(v, m, ats[i], base))
    && (forall i, j | 0 <= i < |ats| && 0 <= j < |ats| :: Undisturbed(v, m, ats[i], ats[j], i == j, base))
  }

  /** No relocation has this address in its target. */
  predicate Untouched(v: Machine, m: seq<byte>, ats: seq<nat>, base: uint64, a: nat) {
    forall i | 0 <= i < |ats| ::
      Inside(v, m, ats[i], base) && var e := EntryAt(v, m, ats[i]);
      IsRelative(v, e) ==> Apart(Target(e, base), 8, a, 1)
  }

  lemma EntryKept(v: Machine, m: seq<byte>, a: nat, b: nat, same: bool, base: uint64)
    requires Inside(v, m, a, base) && Inside(v, m, b, base) && Undisturbed(v, m, a, b, same, base)
    ensures Inside(v, Patched(v, m, a, base), b, base)
    ensures EntryAt(v, Patched(v, m, a, base), b) == EntryAt(v, m, b)
  {
    var e := EntryAt(v, m, a);
    if IsRelative(v, e) {
      var t := Target(e, base);
      var w := NewWord(v, LoadAt(m, t), e, base);
      LoadApart(m, t, w, b);
      LoadApart(m, t, w, b + 8);
      if v.explicit {
        LoadApart(m, t, w, b + 16);
      }
    }
  }

  lemma StillSeparate(v: Machine, m: seq<byte>, ats: seq<nat>, base: uint64)
    requires Separate(v, m, ats, base) && ats != []
    ensures Separate(v, Patched(v, m, ats[0], base), ats[1..], base)
    ensures forall i | 0 < i < |ats| :: EntryAt(v, Patched(v, m, ats[0], base), ats[i]) == EntryAt(v, m, ats[i])
  {
    var p := Patched(v, m, ats[0], base);
    forall i | 0 < i < |ats|
      ensures Inside(v, p, ats[i], base) && EntryAt(v, p, ats[i]) == EntryAt(v, m, ats[i])
    {
      assert Undisturbed(v, m, ats[0], ats[i], false, base);
      EntryKept(v, m, ats[0], ats[i], false, base);
    }
    forall i, j | 0 <= i < |ats[1..]| && 0 <= j < |ats[1..]|
      ensures Undisturbed(v, p, ats[1..][i], ats[1..][j], i == j, base)
    {
      assert Undisturbed(v, m, ats[i + 1], ats[j + 1], i + 1 == j + 1, base);
    }
  }

  /** A table apart from its targets never sends an access outside memory. */
  lemma {:induction false} SeparateIsInside(v: Machine, m: seq<byte>, ats: seq<nat>, base: uint64)
    requires Separate(v, m, ats, base)
    ensures AllInside(v, m, ats, base)
    decreases |ats|
  {
    if ats != [] {
      StillSeparate(v, m, ats, base);
      SeparateIsInside(v, Patched(v, m, ats[0], base), ats[1..], base);
    }
  }

  /** Bytes outside all targets are left alone. */
  lemma {:induction false} OthersKept(v: Machine, m: seq<byte>, ats: seq<nat>, base: uint64, a: nat)
    requires Separate(v, m, ats, base) && AllInside(v, m, ats, base)
    requires a < |m| && Untouched(v, m, ats, base, a)
    ensures PatchedAll(v, m, ats, base)[a] == m[a]
    decreases |ats|
  {
    if ats != [] {
      var p := Patched(v, m, ats[0], base);
      StillSeparate(v, m, ats, base);
      assert p[a] == m[a] by {
        var e := EntryAt(v, m, ats[0]);
        assert IsRelative(v, e) ==> Apart(Target(e, base), 8, a, 1);
      }
      forall i | 0 <= i < |ats[1..]|
        ensures var e := EntryAt(v, p, ats[1..][i]); IsRelative(v, e) ==> Apart(Target(e, base), 8, a, 1)
      {
        assert EntryAt(v, p, ats[i + 1]) == EntryAt(v, m, ats[i + 1]);
      }
      OthersKept(v, p, ats[1..], base, a);
    }
  }

  /** A word apart from all targets is left alone. */
  lemma WordKept(v: Machine, m: seq<byte>, ats: seq<nat>, base: uint64, t: nat)
    requires Separate(v, m, ats, base) && AllInside(v, m, ats, base) && t + 8 <= |m|
    requires forall i | 0 <= i < |ats| ::
               var e := EntryAt(v, m, ats[i]); IsRelative(v, e) ==> Apart(Target(e, base), 8, t, 8)
    ensures LoadAt(PatchedAll(v, m, ats, base), t) == LoadAt(m, t)
  {
    var r := PatchedAll(v, m, ats, base);
    forall a | t <= a < t + 8
      ensures r[a] == m[a]
    {
      forall i | 0 <= i < |ats|
        ensures var e := EntryAt(v, m, ats[i]); IsRelative(v, e) ==> Apart(Target(e, base), 8, a, 1)
      {
        var e := EntryAt(v, m, ats[i]);
        assert IsRelative(v, e) ==> Apart(Target(e, base), 8, t, 8);
      }
      OthersKept(v, m, ats, base, a);
    }
    assert r[t..t + 8] == m[t..t + 8];
  }

  /** Every relative relocation is applied exactly once, to the word that was there at first. */
  lemma {:induction false} TargetsPatched(v: Machine, m: seq<byte>, ats: seq<nat>, base: uint64, i: nat)
    requires Separate(v, m, ats, base) && AllInside(v, m, ats, base)
    requires i < |ats| && IsRelative(v, EntryAt(v, m, ats[i]))
    ensures var e := EntryAt(v, m, ats[i]);
            LoadAt(PatchedAll(v, m, ats, base), Target(e, base)) == NewWord(v, LoadAt(m, Target(e, base)), e, base)
    decreases |ats|
  {
    var p := Patched(v, m, ats[0], base);
    var e := EntryAt(v, m, ats[i]);
    var t := Target(e, base);
    StillSeparate(v, m, ats, base);
    if i == 0 {
      LoadStored(m, t, NewWord(v, LoadAt(m, t), e, base));
      forall j | 0 <= j < |ats[1..]|
        ensures var f := EntryAt(v, p, ats[1..][j]); IsRelative(v, f) ==> Apart(Target(f, base), 8, t, 8)
      {
        assert Undisturbed(v, m, ats[j + 1], ats[0], false, base);
      }
      WordKept(v, p, ats[1..], base, t);
    } else {
      assert ats[1..][i - 1] == ats[i];
      assert Undisturbed(v, m, ats[0], ats[i], false, base);
      var first := EntryAt(v, m, ats[0]);
      if IsRelative(v, first) {
        LoadApart(m, Target(first, base), NewWord(v, LoadAt(m, Target(first, base)), first, base), t);
      }
      TargetsPatched(v, p, ats[1..], base, i - 1);
    }
  }

  // ---------------------------------------------------------------------------
  // In-place and explicit addends
  // ---------------------------------------------------------------------------

  lemma WordCancel(x: uint64, y: uint64, base: uint64)
    ensures Plus(x, base) == Plus(base, y) <==> x == y
  {}

  lemma EqualWords(a: seq<byte>, b: seq<byte>, t: nat)
    requires t + 8 <= |a| == |b| && LoadAt(a, t) == LoadAt(b, t)
    ensures a[t..t + 8] == b[t..t + 8]
  {
    BytesOfValue(a[t..t + 8]);
    BytesOfValue(b[t..t + 8]);
  }

  /** The target holds the addend. */
  predicate Prepared(w: Machine, m: seq<byte>, at: nat, base: uint64)
    requires Inside(w, m, at, base)
  {
    var e := EntryAt(w, m, at);
    IsRelative(w, e) ==> LoadAt(m, Target(e, base)) == e.addend
  }

  /** No info word of the table holds this byte. */
  predicate OutsideInfo(ats: seq<nat>, k: nat) {
    forall i | 0 <= i < |ats| :: Apart(ats[i] + 8, 8, k, 1)
  }

  predicate SameEntry(v: Machine, w: Machine, m: seq<byte>, n: seq<byte>, at: nat) {
    && EntryInside(v, m, at) && EntryInside(w, n, at)
    && EntryAt(v, m, at).offset == EntryAt(w, n, at).offset
    && (IsRelative(v, EntryAt(v, m, at)) <==> IsRelative(w, EntryAt(w, n, at)))
  }

  /** One image built for two machines: the same bytes but for the info words, which mark the same
      entries as relative in each machine's own way. */
  predicate Twins(v: Machine, w: Machine, m: seq<byte>, n: seq<byte>, ats: seq<nat>) {
    && |m| == |n| && !v.explicit && w.explicit
    && (forall i | 0 <= i < |ats| :: SameEntry(v, w, m, n, ats[i]))
    && (forall k: nat | k < |m| && OutsideInfo(ats, k) :: m[k] == n[k])
  }

  /** The same bytes but for the info words. */
  predicate SameImage(a: seq<byte>, b: seq<byte>, ats: seq<nat>) {
    |a| == |b| && forall k: nat | k < |a| && OutsideInfo(ats, k) :: a[k] == b[k]
  }

  /** Adding to the word in place makes the same image as storing base plus addend exactly when every
      target held its addend. */
  lemma InPlaceIsExplicitIff(v: Machine, w: Machine, m: seq<byte>, n: seq<byte>, ats: seq<nat>, base: uint64)
    requires Twins(v, w, m, n, ats) && Separate(v, m, ats, base) && Separate(w, n, ats, base)
    requires AllInside(v, m, ats, base) && AllInside(w, n, ats, base)
    ensures SameImage(PatchedAll(v, m, ats, base), PatchedAll(w, n, ats, base), ats)
            <==> forall i | 0 <= i < |ats| :: Prepared(w, n, ats[i], base)
  {
    var a, b := PatchedAll(v, m, ats, base), PatchedAll(w, n, ats, base);
    if SameImage(a, b, ats) {
      forall i | 0 <= i < |ats|
        ensures Prepared(w, n, ats[i], base)
      {
        var e := EntryAt(w, n, ats[i]);
        if IsRelative(w, e) {
          SameWordIff(v, w, m, n, ats, base, i);
          TargetOutsideInfo(w, n, ats, base, i);
          LoadSame(a, b, Target(e, base));
        }
      }
    }
    if forall i | 0 <= i < |ats| :: Prepared(w, n, ats[i], base) {
      forall k: nat | k < |m| && OutsideInfo(ats, k)
        ensures a[k] == b[k]
      {
        SameByte(v, w, m, n, ats, base, k);
      }
    }
  }

  lemma TargetOutsideInfo(w: Machine, n: seq<byte>, ats: seq<nat>, base: uint64, i: nat)
    requires Separate(w, n, ats, base) && i < |ats| && IsRelative(w, EntryAt(w, n, ats[i]))
    ensures var t := Target(EntryAt(w, n, ats[i]), base); forall k: nat | t <= k < t + 8 :: OutsideInfo(ats, k)
  {
    var t := Target(EntryAt(w, n, ats[i]), base);
    forall k: nat | t <= k < t + 8
      ensures OutsideInfo(ats, k)
    {
      forall j | 0 <= j < |ats|
        ensures Apart(ats[j] + 8, 8, k, 1)
      {
        assert Undisturbed(w, n, ats[i], ats[j], i == j, base);
      }
    }
  }

  lemma LoadSame(a: seq<byte>, b: seq<byte>, t: nat)
    requires t + 8 <= |a| == |b| && forall k: nat | t <= k < t + 8 :: a[k] == b[k]
    ensures LoadAt(a, t) == LoadAt(b, t)
  {
    assert a[t..t + 8] == b[t..t + 8];
  }

  lemma SameWordIff(v: Machine, w: Machine, m: seq<byte>, n: seq<byte>, ats: seq<nat>, base: uint64, i: nat)
    requires Twins(v, w, m, n, ats) && Separate(v, m, ats, base) && Separate(w, n, ats, base)
    requires AllInside(v, m, ats, base) && AllInside(w, n, ats, base)
    requires i < |ats| && IsRelative(w, EntryAt(w, n, ats[i]))
    ensures var t := Target(EntryAt(w, n, ats[i]), base);
            LoadAt(PatchedAll(v, m, ats, base), t) == LoadAt(PatchedAll(w, n, ats, base), t)
            <==> Prepared(w, n, ats[i], base)
  {
    var e := EntryAt(w, n, ats[i]);
    var t := Target(e, base);
    assert SameEntry(v, w, m, n, ats[i]);
    assert LoadAt(m, t) == LoadAt(n, t) by {
      TargetOutsideInfo(w, n, ats, base, i);
      LoadSame(m, n, t);
    }
    TargetsPatched(v, m, ats, base, i);
    TargetsPatched(w, n, ats, base, i);
    WordCancel(LoadAt(m, t), e.addend, base);
  }

  lemma SameByte(v: Machine, w: Machine, m: seq<byte>, n: seq<byte>, ats: seq<nat>, base: uint64, k: nat)
    requires Twins(v, w, m, n, ats) && Separate(v, m, ats, base) && Separate(w, n, ats, base)
    requires AllInside(v, m, ats, base) && AllInside(w, n, ats, base)
    requires forall i | 0 <= i < |ats| :: Prepared(w, n, ats[i], base)
    requires k < |m| && OutsideInfo(ats, k)
    ensures PatchedAll(v, m, ats, base)[k] == PatchedAll(w, n, ats, base)[k]
  {
    if Untouched(w, n, ats, base, k) {
      SameTargets(v, w, m, n, ats, base, k);
      OthersKept(v, m, ats, base, k);
      OthersKept(w, n, ats, base, k);
    } else {
      var i := Toucher(w, n, ats, base, k);
      SameWordIff(v, w, m, n, ats, base, i);
      SameInWord(PatchedAll(v, m, ats, base), PatchedAll(w, n, ats, base), Target(EntryAt(w, n, ats[i]), base), k);
    }
  }

  lemma SameTargets(v: Machine, w: Machine, m: seq<byte>, n: seq<byte>, ats: seq<nat>, base: uint64, k: nat)
    requires Twins(v, w, m, n, ats) && Separate(v, m, ats, base) && Untouched(w, n, ats, base, k)
    ensures Untouched(v, m, ats, base, k)
  {
    forall i | 0 <= i < |ats|
      ensures var e := EntryAt(v, m, ats[i]); IsRelative(v, e) ==> Apart(Target(e, base), 8, k, 1)
    {
      assert SameEntry(v, w, m, n, ats[i]) && Inside(w, n, ats[i], base);
    }
  }

  lemma Toucher(w: Machine, m: seq<byte>, ats: seq<nat>, base: uint64, k: nat) returns (i: nat)
    requires Separate(w, m, ats, base) && !Untouched(w, m, ats, base, k)
    ensures i < |ats| && IsRelative(w, EntryAt(w, m, ats[i])) && !Apart(Target(EntryAt(w, m, ats[i]), base), 8, k, 1)
  {
    i :| 0 <= i < |ats| && Inside(w, m, ats[i], base)
         && IsRelative(w, EntryAt(w, m, ats[i])) && !Apart(Target(EntryAt(w, m, ats[i]), base), 8, k, 1);
  }

  lemma SameInWord(a: seq<byte>, b: seq<byte>, t: nat, k: nat)
    requires t + 8 <= |a| == |b| && LoadAt(a, t) == LoadAt(b, t) && !Apart(t, 8, k, 1)
    ensures a[k] == b[k]
  {
    EqualWords(a, b, t);
    assert a[k] == a[t..t + 8][k - t] && b[k] == b[t..t + 8][k - t];
  }

  // ---------------------------------------------------------------------------
  // The local GOT
  // ---------------------------------------------------------------------------

  /** n words from `at` on, each shifted by the base. */
  function GotShifted(m: seq<byte>, at: nat, n: int, base: uint64): (r: seq<byte>)
    requires n > 0 ==> at + 8 * n <= |m|
    ensures |r| == |m|
    decreases n
  {
    if n <= 0 then m else GotShifted(StoreAt(m, at, Plus(LoadAt(m, at), base)), at + 8, n - 1, base)
  }

  lemma {:induction false} GotOthersKept(m: seq<byte>, at: nat, n: int, base: uint64, a: nat)
    requires n > 0 ==> at + 8 * n <= |m|
    requires a < |m| && (n > 0 ==> Apart(at, 8 * n, a, 1))
    ensures GotShifted(m, at, n, base)[a] == m[a]
    decreases n
  {
    if n > 0 {
      GotOthersKept(StoreAt(m, at, Plus(LoadAt(m, at), base)), at + 8, n - 1, base, a);
    }
  }

  lemma GotWordKept(m: seq<byte>, at: nat, n: int, base: uint64, t: nat)
    requires n > 0 ==> at + 8 * n <= |m|
    requires t + 8 <= |m| && (n > 0 ==> Apart(at, 8 * n, t, 8))
    ensures LoadAt(GotShifted(m, at, n, base), t) == LoadAt(m, t)
  {
    forall a | t <= a < t + 8
      ensures GotShifted(m, at, n, base)[a] == m[a]
    {
      GotOthersKept(m, at, n, base, a);
    }
    assert GotShifted(m, at, n, base)[t..t + 8] == m[t..t + 8];
  }

  lemma {:induction false} GotEntryShifted(m: seq<byte>, at: nat, n: int, base: uint64, k: nat)
    requires k < n && at + 8 * n <= |m|
    ensures LoadAt(GotShifted(m, at, n, base), at + 8 * k) == Plus(LoadAt(m, at + 8 * k), base)
    decreases n
  {
    var w := Plus(LoadAt(m, at), base);
    var p := StoreAt(m, at, w);
    if k == 0 {
      LoadStored(m, at, w);
      GotWordKept(p, at + 8, n - 1, base, at);
    } else {
      LoadApart(m, at, w, at + 8 * k);
      GotEntryShifted(p, at + 8, n - 1, base, k - 1);
    }
  }

  /** The GOT is apart from the table and from the targets. */
  predicate GotApart(v: Machine, m: seq<byte>, got: nat, n: int, ats: seq<nat>, base: uint64) {
    && (n > 0 ==> got + 8 * n <= |m|)
    && forall i | 0 <= i < |ats| && n > 0 :: GotApartFrom(v, m, got, n, ats[i], base)
  }

  predicate GotApartFrom(v: Machine, m: seq<byte>, got: nat, n: nat, at: nat, base: uint64) {
    EntryInside(v, m, at) && Apart(got, 8 * n, at, v.entrySize)
    && (IsRelative(v, EntryAt(v, m, at)) ==> Apart(got, 8 * n, Target(EntryAt(v, m, at), base), 8))
  }

  lemma EntryKeptByGot(v: Machine, m: seq<byte>, got: nat, n: int, at: nat, base: uint64)
    requires EntryInside(v, m, at) && (n > 0 ==> got + 8 * n <= |m| && GotApartFrom(v, m, got, n, at, base))
    ensures EntryAt(v, GotShifted(m, got, n, base), at) == EntryAt(v, m, at)
  {
    GotWordKept(m, got, n, base, at);
    GotWordKept(m, got, n, base, at + 8);
    if v.explicit {
      GotWordKept(m, got, n, base, at + 16);
    }
  }

  lemma SeparateAfterGot(v: Machine, m: seq<byte>, got: nat, n: int, ats: seq<nat>, base: uint64)
    requires Separate(v, m, ats, base) && GotApart(v, m, got, n, ats, base)
    ensures Separate(v, GotShifted(m, got, n, base), ats, base)
    ensures forall i | 0 <= i < |ats| :: EntryAt(v, GotShifted(m, got, n, base), ats[i]) == EntryAt(v, m, ats[i])
  {
    var g := GotShifted(m, got, n, base);
    forall i | 0 <= i < |ats|
      ensures Inside(v, g, ats[i], base) && EntryAt(v, g, ats[i]) == EntryAt(v, m, ats[i])
    {
      assert Inside(v, m, ats[i], base) && (n > 0 ==> GotApartFrom(v, m, got, n, ats[i], base));
      EntryKeptByGot(v, m, got, n, ats[i], base);
    }
    forall i, j | 0 <= i < |ats| && 0 <= j < |ats|
      ensures Undisturbed(v, g, ats[i], ats[j], i == j, base)
    {
      assert Undisturbed(v, m, ats[i], ats[j], i == j, base);
    }
  }

  /** The word at t has moved with the image. */
  predicate Moved(m: seq<byte>, r: seq<byte>, t: nat, base: uint64) {
    t + 8 <= |m| == |r| && LoadAt(r, t) == Plus(LoadAt(m, t), base)
  }

  lemma GotMoves(v: Machine, m: seq<byte>, got: nat, n: int, ats: seq<nat>, base: uint64, k: nat)
    requires Separate(v, m, ats, base) && GotApart(v, m, got, n, ats, base) && k < n
    requires var g := GotShifted(m, got, n, base); Separate(v, g, ats, base) && AllInside(v, g, ats, base)
    requires forall i | 0 <= i < |ats| :: EntryAt(v, GotShifted(m, got, n, base), ats[i]) == EntryAt(v, m, ats[i])
    ensures Moved(m, PatchedAll(v, GotShifted(m, got, n, base), ats, base), got + 8 * k, base)
  {
    var g := GotShifted(m, got, n, base);
    GotEntryShifted(m, got, n, base, k);
    forall i | 0 <= i < |ats|
      ensures var e := EntryAt(v, g, ats[i]); IsRelative(v, e) ==> Apart(Target(e, base), 8, got + 8 * k, 8)
    {
      assert GotApartFrom(v, m, got, n, ats[i], base);
    }
    WordKept(v, g, ats, base, got + 8 * k);
  }

  lemma TargetMoves(v: Machine, m: seq<byte>, got: nat, n: int, ats: seq<nat>, base: uint64, i: nat)
    requires Separate(v, m, ats, base) && GotApart(v, m, got, n, ats, base) && !v.explicit
    requires var g := GotShifted(m, got, n, base); Separate(v, g, ats, base) && AllInside(v, g, ats, base)
    requires i < |ats| && IsRelative(v, EntryAt(v, m, ats[i]))
    requires EntryAt(v, GotShifted(m, got, n, base), ats[i]) == EntryAt(v, m, ats[i])
    ensures Moved(m, PatchedAll(v, GotShifted(m, got, n, base), ats, base), Target(EntryAt(v, m, ats[i]), base), base)
  {
    var g, t := GotShifted(m, got, n, base), Target(EntryAt(v, m, ats[i]), base);
    var r := PatchedAll(v, g, ats, base);
    assert LoadAt(r, t) == Plus(LoadAt(g, t), base) by {
      TargetsPatched(v, g, ats, base, i);
    }
    assert Inside(v, m, ats[i], base);
    assert LoadAt(g, t) == LoadAt(m, t) by {
      assert n > 0 ==> GotApartFrom(v, m, got, n, ats[i], base);
      GotWordKept(m, got, n, base, t);
    }
  }

  lemma RestStays(v: Machine, m: seq<byte>, got: nat, n: int, ats: seq<nat>, base: uint64, a: nat)
    requires Separate(v, m, ats, base) && GotApart(v, m, got, n, ats, base)
    requires var g := GotShifted(m, got, n, base); Separate(v, g, ats, base) && AllInside(v, g, ats, base)
    requires forall i | 0 <= i < |ats| :: EntryAt(v, GotShifted(m, got, n, base), ats[i]) == EntryAt(v, m, ats[i])
    requires a < |m| && Untouched(v, m, ats, base, a) && (n > 0 ==> Apart(got, 8 * n, a, 1))
    ensures PatchedAll(v, GotShifted(m, got, n, base), ats, base)[a] == m[a]
  {
    var g := GotShifted(m, got, n, base);
    GotOthersKept(m, got, n, base, a);
    forall i | 0 <= i < |ats|
      ensures var e := EntryAt(v, g, ats[i]); IsRelative(v, e) ==> Apart(Target(e, base), 8, a, 1)
    {
      var e := EntryAt(v, m, ats[i]);
      assert IsRelative(v, e) ==> Apart(Target(e, base), 8, a, 1);
    }
    OthersKept(v, g, ats, base, a);
  }

  /** After both MIPS loops: the local GOT entries and the relative targets have moved by the base,
      once each, and no other byte has changed. */
  lemma MipsShiftsExactly(m: seq<byte>, got: nat, n: int, ats: seq<nat>, base: uint64)
    requires Separate(MIPS, m, ats, base) && GotApart(MIPS, m, got, n, ats, base)
    ensures AllInside(MIPS, GotShifted(m, got, n, base), ats, base)
    ensures var r := PatchedAll(MIPS, GotShifted(m, got, n, base), ats, base);
            && (forall k | 0 <= k < n :: Moved(m, r, got + 8 * k, base))
            && (forall i | 0 <= i < |ats| && IsRelative(MIPS, EntryAt(MIPS, m, ats[i])) ::
                  Moved(m, r, Target(EntryAt(MIPS, m, ats[i]), base), base))
            && (forall a: nat | a < |m| && Untouched(MIPS, m, ats, base, a) && (n > 0 ==> Apart(got, 8 * n, a, 1)) ::
                  r[a] == m[a])
  {
    var g := GotShifted(m, got, n, base);
    SeparateAfterGot(MIPS, m, got, n, ats, base);
    SeparateIsInside(MIPS, g, ats, base);
    var r := PatchedAll(MIPS, g, ats, base);
    forall k | 0 <= k < n
      ensures Moved(m, r, got + 8 * k, base)
    {
      GotMoves(MIPS, m, got, n, ats, base, k);
    }
    forall i | 0 <= i < |ats| && IsRelative(MIPS, EntryAt(MIPS, m, ats[i]))
      ensures Moved(m, r, Target(EntryAt(MIPS, m, ats[i]), base), base)
    {
      TargetMoves(MIPS, m, got, n, ats, base, i);
    }
    forall a: nat | a < |m| && Untouched(MIPS, m, ats, base, a) && (n > 0 ==> Apart(got, 8 * n, a, 1))
      ensures r[a] == m[a]
    {
      RestStays(MIPS, m, got, n, ats, base, a);
    }
  }

  /** Without a GOT: adding in place moves exactly the relative targets. */
  lemma InPlaceShiftsExactly(v: Machine, m: seq<byte>, ats: seq<nat>, base: uint64)
    requires Separate(v, m, ats, base) && !v.explicit
    ensures AllInside(v, m, ats, base)
    ensures var r := PatchedAll(v, m, ats, base);
            && (forall i | 0 <= i < |ats| && IsRelative(v, EntryAt(v, m, ats[i])) ::
                  Moved(m, r, Target(EntryAt(v, m, ats[i]), base), base))
            && (forall a: nat | a < |m| && Untouched(v, m, ats, base, a) :: r[a] == m[a])
  {
    SeparateIsInside(v, m, ats, base);
    var r := PatchedAll(v, m, ats, base);
    forall i | 0 <= i < |ats| && IsRelative(v, EntryAt(v, m, ats[i]))
      ensures Moved(m, r, Target(EntryAt(v, m, ats[i]), base), base)
    {
      TargetsPatched(v, m, ats, base, i);
    }
    forall a: nat | a < |m| && Untouched(v, m, ats, base, a)
      ensures r[a] == m[a]
    {
      OthersKept(v, m, ats, base, a);
    }
  }

  // ---------------------------------------------------------------------------
  // The relocators
  // ---------------------------------------------------------------------------

  /** The scan loop of the x86-64 and AArch64 versions. */
  method ScanRela(dyn: seq<Dyn>, base: uint64) returns (rel: uint64, relsz: int64, relent: int64)
    requires IsSection(dyn)
    ensures rel == Pointer(dyn, DT_RELA, base) && relsz == Size(dyn, DT_RELASZ) && relent == Size(dyn, DT_RELAENT)
  {
    rel, relsz, relent := 0, 0, 0;
    var i: nat := 0;
    while dyn[i].tag != DT_NULL
      invariant i < |dyn| && rel == Pointer(dyn[..i], DT_RELA, base)
      invariant relsz == Size(dyn[..i], DT_RELASZ) && relent == Size(dyn[..i], DT_RELAENT)
      decreases |dyn| - i
    {
      assert dyn[..i + 1][..i] == dyn[..i];
      if dyn[i].tag == DT_RELA {
        rel := Plus(dyn[i].val, base);
      } else if dyn[i].tag == DT_RELASZ {
        relsz := Signed(dyn[i].val);
      } else if dyn[i].tag == DT_RELAENT {
        relent := Signed(dyn[i].val);
      }
      i := i + 1;
    }
    assert dyn[..i + 1] == dyn && dyn[..i + 1][..i] == dyn[..i];
  }

  lemma MoreEntries(at: nat, left: int, relent: int)
    requires left > 0 && relent > 0
    ensures Entries(at, left, relent) != [] && Entries(at, left, relent)[0] == at
    ensures Entries(at, left, relent)[1..] == Entries(at + relent, left - relent, relent)
  {}

  /** The switch in the relocation loop: the only case that acts. */
  method Patch(v: Machine, mem: array<byte>, at: nat, base: uint64)
    requires Inside(v, mem[..], at, base)
    modifies mem
    ensures mem[..] == Patched(v, old(mem[..]), at, base)
  {
    var info := Load(mem, at + 8);
    if Type(v, info) == v.relative {
      var offset := Load(mem, at);
      var addr := Plus(base, offset);
      if v.explicit {
        var addend := Load(mem, at + 16);
        Store(mem, addr, Plus(base, addend));
      } else {
        var word := Load(mem, addr);
        Store(mem, addr, Plus(word, base));
      }
    }
  }

  /** One turn of the relocation loop. */
  method Turn(v: Machine, mem: array<byte>, at: nat, left: int, relent: int, base: uint64, ghost ats: seq<nat>)
    returns (next: nat, rest: int)
    requires left > 0 && relent > 0 && ats == Entries(at, left, relent) && AllInside(v, mem[..], ats, base)
    modifies mem
    ensures rest == left - relent && ats != [] && ats[1..] == Entries(next, rest, relent)
    ensures AllInside(v, mem[..], ats[1..], base)
    ensures PatchedAll(v, mem[..], ats[1..], base) == old(PatchedAll(v, mem[..], ats, base))
  {
    MoreEntries(at, left, relent);
    Patch(v, mem, at, base);
    next, rest := at + relent, left - relent;
  }

  /** The relocation loop. */
  method Apply(v: Machine, mem: array<byte>, rel: nat, relsz: int64, relent: int64, base: uint64)
    requires relsz > 0 ==> relent > 0
    requires AllInside(v, mem[..], Entries(rel, relsz, relent), base)
    modifies mem
    ensures mem[..] == PatchedAll(v, old(mem[..]), Entries(rel, relsz, relent), base)
  {
    var at: nat, left: int := rel, relsz;
    ghost var s: seq<byte> := mem[..];
    ghost var ats := Entries(rel, relsz, relent);
    ghost var final := PatchedAll(v, s, ats, base);
    while left > 0
      invariant left > 0 ==> relent > 0
      invariant mem[..] == s && ats == Entries(at, left, relent)
      invariant AllInside(v, s, ats, base) && PatchedAll(v, s, ats, base) == final
      decreases left
    {
      at, left := Turn(v, mem, at, left, relent, base, ats);
      s, ats := mem[..], ats[1..];
    }
  }

  /** `_relocate` of x86-64: the addend is in the target. */
  method RelocateX86(mem: array<byte>, base: uint64, dyn: seq<Dyn>) returns (status: Status)
    requires IsSection(dyn) && TableInside(X86_64, mem[..], DT_RELA, DT_RELASZ, DT_RELAENT, dyn, base)
    modifies mem
    ensures status == LoadError <==> (Pointer(dyn, 7, base) == 0) != (Size(dyn, 9) == 0)
    ensures mem[..] == Relocated(X86_64, old(mem[..]), DT_RELA, DT_RELASZ, DT_RELAENT, dyn, base)
  {
    var rel, relsz, relent := ScanRela(dyn, base);
    if rel == 0 && relent == 0 {
      return Success;
    }
    if rel == 0 || relent == 0 {
      return LoadError;
    }
    Apply(X86_64, mem, rel, relsz, relent, base);
    return Success;
  }

  /** `_relocate` of AArch64: the addend is in the table. */
  method RelocateAarch64(mem: array<byte>, base: uint64, dyn: seq<Dyn>) returns (status: Status)
    requires IsSection(dyn) && TableInside(AARCH64, mem[..], DT_RELA, DT_RELASZ, DT_RELAENT, dyn, base)
    modifies mem
    ensures status == LoadError <==> (Pointer(dyn, 7, base) == 0) != (Size(dyn, 9) == 0)
    ensures mem[..] == Relocated(AARCH64, old(mem[..]), DT_RELA, DT_RELASZ, DT_RELAENT, dyn, base)
  {
    var rel, relsz, relent := ScanRela(dyn, base);
    if rel == 0 && relent == 0 {
      return Success;
    }
    if rel == 0 || relent == 0 {
      return LoadError;
    }
    Apply(AARCH64, mem, rel, relsz, relent, base);
    return Success;
  }

  /** The table is used: it is there and its entries have a size. */
  predicate HasTable(tag: int, entTag: int, dyn: seq<Dyn>, base: uint64) {
    Pointer(dyn, tag, base) != 0 && Size(dyn, entTag) != 0
  }

  predicate TableInside(v: Machine, m: seq<byte>, tag: int, szTag: int, entTag: int, dyn: seq<Dyn>, base: uint64) {
    HasTable(tag, entTag, dyn, base) ==>
      && (Size(dyn, szTag) > 0 ==> Size(dyn, entTag) > 0)
      && AllInside(v, m, Entries(Pointer(dyn, tag, base), Size(dyn, szTag), Size(dyn, entTag)), base)
  }

  /** The image after relocation. */
  function Relocated(v: Machine, m: seq<byte>, tag: int, szTag: int, entTag: int, dyn: seq<Dyn>, base: uint64): seq<byte>
    requires TableInside(v, m, tag, szTag, entTag, dyn, base)
  {
    if HasTable(tag, entTag, dyn, base)
      then PatchedAll(v, m, Entries(Pointer(dyn, tag, base), Size(dyn, szTag), Size(dyn, entTag)), base)
    else m
  }

  // ---------------------------------------------------------------------------
  // MIPS
  // ---------------------------------------------------------------------------

  /** The scan loop of the MIPS version. */
  method ScanRel(dyn: seq<Dyn>, base: uint64)
    returns (rel: uint64, relsz: int64, relent: int64, got: uint64, gotsz: int64)
    requires IsSection(dyn)
    ensures rel == Pointer(dyn, DT_REL, base) && relsz == Size(dyn, DT_RELSZ) && relent == Size(dyn, DT_RELENT)
    ensures got == Pointer(dyn, DT_PLTGOT, base) && gotsz == Size(dyn, DT_MIPS_LOCAL_GOTNO)
  {
    rel, relsz, relent, got, gotsz := 0, 0, 0, 0, 0;
    var i: nat := 0;
    while dyn[i].tag != DT_NULL
      invariant i < |dyn| && rel == Pointer(dyn[..i], DT_REL, base)
      invariant relsz == Size(dyn[..i], DT_RELSZ) && relent == Size(dyn[..i], DT_RELENT)
      invariant got == Pointer(dyn[..i], DT_PLTGOT, base) && gotsz == Size(dyn[..i], DT_MIPS_LOCAL_GOTNO)
      decreases |dyn| - i
    {
      assert dyn[..i + 1][..i] == dyn[..i];
      if dyn[i].tag == DT_REL {
        rel := Plus(dyn[i].val, base);
      } else if dyn[i].tag == DT_RELSZ {
        relsz := Signed(dyn[i].val);
      } else if dyn[i].tag == DT_RELENT {
        relent := Signed(dyn[i].val);
      } else if dyn[i].tag == DT_PLTGOT {
        got := Plus(dyn[i].val, base);
      } else if dyn[i].tag == DT_MIPS_LOCAL_GOTNO {
        gotsz := Signed(dyn[i].val);
      }
      i := i + 1;
    }
    assert dyn[..i + 1] == dyn && dyn[..i + 1][..i] == dyn[..i];
  }

  /** The GOT loop. */
  method ShiftGot(mem: array<byte>, got: nat, gotsz: int64, base: uint64)
    requires gotsz > 0 ==> got + 8 * gotsz <= mem.Length
    modifies mem
    ensures mem[..] == GotShifted(old(mem[..]), got, gotsz, base)
  {
    var addr: nat, left: int := got, gotsz;
    while left > 0
      invariant left > 0 ==> addr + 8 * left <= mem.Length
      invariant GotShifted(mem[..], addr, left, base) == GotShifted(old(mem[..]), got, gotsz, base)
      decreases left
    {
      var word := Load(mem, addr);
      Store(mem, addr, Plus(word, base));
      addr, left := addr + 8, left - 1;
    }
  }

  /** What the MIPS loops find, and that all their accesses are to memory. A table whose entries have
      size 0 would be looped on for ever. */
  predicate MipsInside(m: seq<byte>, dyn: seq<Dyn>, base: uint64) {
    var got, n := Pointer(dyn, DT_PLTGOT, base), Size(dyn, DT_MIPS_LOCAL_GOTNO);
    var sz, ent := Size(dyn, DT_RELSZ), Size(dyn, DT_RELENT);
    && (n > 0 ==> got + 8 * n <= |m|)
    && (sz > 0 ==> ent > 0)
    && AllInside(MIPS, GotShifted(m, got, n, base), Entries(Pointer(dyn, DT_REL, base), sz, ent), base)
  }

  /** A part is missing although its size is given. */
  predicate MipsBroken(dyn: seq<Dyn>, base: uint64) {
    || (Pointer(dyn, DT_REL, base) == 0 && Size(dyn, DT_RELENT) != 0)
    || (Pointer(dyn, DT_PLTGOT, base) == 0 && Size(dyn, DT_MIPS_LOCAL_GOTNO) != 0)
  }

  /** There is neither a table nor a GOT. */
  predicate MipsEmpty(dyn: seq<Dyn>, base: uint64) {
    && Pointer(dyn, DT_REL, base) == 0 && Size(dyn, DT_RELENT) == 0
    && Pointer(dyn, DT_PLTGOT, base) == 0 && Size(dyn, DT_MIPS_LOCAL_GOTNO) == 0
  }

  method RelocateMips(mem: array<byte>, base: uint64, dyn: seq<Dyn>) returns (status: Status)
    requires IsSection(dyn) && (!MipsEmpty(dyn, base) && !MipsBroken(dyn, base) ==> MipsInside(mem[..], dyn, base))
    modifies mem
    ensures status == LoadError <==> MipsBroken(dyn, base)
    ensures mem[..] == if MipsEmpty(dyn, base) || MipsBroken(dyn, base) then old(mem[..])
                       else PatchedAll(MIPS, GotShifted(old(mem[..]), Pointer(dyn, DT_PLTGOT, base),
                                                        Size(dyn, DT_MIPS_LOCAL_GOTNO), base),
                                       Entries(Pointer(dyn, DT_REL, base), Size(dyn, DT_RELSZ), Size(dyn, DT_RELENT)), base)
  {
    var rel, relsz, relent, got, gotsz := ScanRel(dyn, base);
    if (rel == 0 && relent == 0) && (got == 0 && gotsz == 0) {
      return Success;
    }
    if (rel == 0 && relent != 0) || (got == 0 && gotsz != 0) {
      return LoadError;
    }
    ShiftGot(mem, got, gotsz, base);
    Apply(MIPS, mem, rel, relsz, relent, base);
    return Success;
  }

  // ---------------------------------------------------------------------------
  // In bytes
  // ---------------------------------------------------------------------------

  /** The word of eight bytes at t, the lowest first. */
  ghost function WordIn(m: seq<byte>, t: int): int
    requires 0 <= t && t + 8 <= |m|
  {
    Quad(m[t], m[t + 1], m[t + 2], m[t + 3]) + 0x1_0000_0000 * Quad(m[t + 4], m[t + 5], m[t + 6], m[t + 7])
  }

  ghost function Sum64(x: int, y: int): int {
    if x + y < 0x1_0000_0000_0000_0000 then x + y else x + y - 0x1_0000_0000_0000_0000
  }

  /** What the entry at `at` points to: its first word, from the base. */
  ghost function TargetOf(m: seq<byte>, at: nat, base: uint64): int
    requires at + 8 <= |m|
  {
    Sum64(base, WordIn(m, at))
  }

  /** The word at t has become `w`. */
  ghost predicate Holds(r: seq<byte>, t: int, w: int) {
    0 <= t && t + 8 <= |r| && WordIn(r, t) == w
  }

  /** The word at t has the base added. */
  ghost predicate Shifted(m: seq<byte>, r: seq<byte>, t: int, base: uint64) {
    0 <= t && t + 8 <= |m| && Holds(r, t, Sum64(WordIn(m, t), base))
  }

  /** The four bytes at `info` in the entry at `at` are these. */
  ghost predicate HasMark(m: seq<byte>, at: nat, info: nat, mark: seq<byte>) {
    at + info + 4 <= |m| && m[at + info..at + info + 4] == mark
  }

  /** No entry with this mark points to byte a. */
  ghost predicate Missed(m: seq<byte>, ats: seq<nat>, info: nat, mark: seq<byte>, base: uint64, a: nat) {
    forall i | 0 <= i < |ats| :: HasMark(m, ats[i], info, mark) ==>
      ats[i] + 8 <= |m| && !(TargetOf(m, ats[i], base) <= a < TargetOf(m, ats[i], base) + 8)
  }

  /** The mark is what tells the relative entries. */
  ghost predicate Marks(v: Machine, m: seq<byte>, at: nat, info: nat, mark: seq<byte>) {
    EntryInside(v, m, at) && (IsRelative(v, EntryAt(v, m, at)) <==> HasMark(m, at, info, mark))
  }

  lemma QuadIs(b0: byte, b1: byte, b2: byte, b3: byte, c0: byte, c1: byte, c2: byte, c3: byte)
    ensures Quad(b0, b1, b2, b3) == Quad(c0, c1, c2, c3) <==> b0 == c0 && b1 == c1 && b2 == c2 && b3 == c3
  {
    hide Quad, Bytes, ByteWords.Value;
    var b: seq<byte>, c: seq<byte> := [b0, b1, b2, b3], [c0, c1, c2, c3];
    QuadIsValue(b);
    QuadIsValue(c);
    BytesOfValue(b);
    BytesOfValue(c);
    assert b == c <==> b[0] == c[0] && b[1] == c[1] && b[2] == c[2] && b[3] == c[3];
  }

  lemma QuadIsValue(b: seq<byte>)
    requires |b| == 4
    ensures Quad(b[0], b[1], b[2], b[3]) == ByteWords.Value(b)
  {
    FourMore(b);
    assert b[4..] == [];
  }

  lemma LowQuad(w: uint64, low: int, high: int)
    requires w == low + 0x1_0000_0000 * high && 0 <= low < 0x1_0000_0000
    ensures w % 0x1_0000_0000 == low
  {}

  lemma FourAre(m: seq<byte>, a: nat, b0: byte, b1: byte, b2: byte, b3: byte)
    requires a + 4 <= |m|
    ensures m[a..a + 4] == [b0, b1, b2, b3] <==> Quad(m[a], m[a + 1], m[a + 2], m[a + 3]) == Quad(b0, b1, b2, b3)
  {
    QuadIs(m[a], m[a + 1], m[a + 2], m[a + 3], b0, b1, b2, b3);
    assert m[a..a + 4] == [m[a], m[a + 1], m[a + 2], m[a + 3]];
  }

  /** R_X86_64_RELATIVE, in the lower half of r_info. */
  lemma MarkedX86(m: seq<byte>, at: nat)
    requires EntryInside(X86_64, m, at)
    ensures IsRelative(X86_64, EntryAt(X86_64, m, at)) <==> m[at + 8..at + 12] == [8, 0, 0, 0]
  {
    var low := Quad(m[at + 8], m[at + 9], m[at + 10], m[at + 11]);
    LoadIs(m, at + 8);
    LowQuad(LoadAt(m, at + 8), low, Quad(m[at + 12], m[at + 13], m[at + 14], m[at + 15]));
    FourAre(m, at + 8, 8, 0, 0, 0);
  }

  /** R_AARCH64_RELATIVE, in the lower half of r_info. */
  lemma MarkedAarch64(m: seq<byte>, at: nat)
    requires EntryInside(AARCH64, m, at)
    ensures IsRelative(AARCH64, EntryAt(AARCH64, m, at)) <==> m[at + 8..at + 12] == [3, 4, 0, 0]
  {
    var low := Quad(m[at + 8], m[at + 9], m[at + 10], m[at + 11]);
    LoadIs(m, at + 8);
    LowQuad(LoadAt(m, at + 8), low, Quad(m[at + 12], m[at + 13], m[at + 14], m[at + 15]));
    FourAre(m, at + 8, 3, 4, 0, 0);
  }

  /** R_MIPS_64 and R_MIPS_REL32, highest byte first at the end of r_info. */
  lemma MarkedMips(m: seq<byte>, at: nat)
    requires EntryInside(MIPS, m, at)
    ensures IsRelative(MIPS, EntryAt(MIPS, m, at)) <==> m[at + 12..at + 16] == [0, 0, 18, 3]
  {
    var w := SwapUint64(LoadAt(m, at + 8));
    var low := Quad(m[at + 15], m[at + 14], m[at + 13], m[at + 12]);
    SwappedWord(m, at + 8);
    LowQuad(w, low, Quad(m[at + 11], m[at + 10], m[at + 9], m[at + 8]));
    FourAre(m, at + 12, 0, 0, 18, 3);
    QuadIs(m[at + 15], m[at + 14], m[at + 13], m[at + 12], 3, 18, 0, 0);
  }

  /** A swapped word is the one of the same bytes the other way round. */
  lemma SwappedWord(m: seq<byte>, at: nat)
    requires at + 8 <= |m|
    ensures SwapUint64(LoadAt(m, at))
            == Quad(m[at + 7], m[at + 6], m[at + 5], m[at + 4]) + 0x1_0000_0000 * Quad(m[at + 3], m[at + 2], m[at + 1], m[at])
  {
    var b := m[at..at + 8];
    BytesOfValue(b);
    EightBytes(Dshd(Dsbh(b)));
  }

  /** The tables' addresses: one entry after the other as long as bytes remain. */
  lemma {:induction false} EntriesAre(start: nat, relsz: int, relent: int, i: nat)
    requires relsz > 0 ==> relent > 0
    ensures i < |Entries(start, relsz, relent)| <==> relsz > 0 && i * relent < relsz
    ensures i < |Entries(start, relsz, relent)| ==> Entries(start, relsz, relent)[i] == start + i * relent
    decreases i
  {
    if relsz > 0 && i > 0 {
      assert (i - 1) * relent + relent == i * relent;
      if relsz > relent {
        EntriesAre(start + relent, relsz - relent, relent, i - 1);
      } else {
        assert (i - 1) * relent >= 0;
      }
    }
  }

  /** What the last entry with a tag says, by the tags' numbers: the table and its two sizes, the same for
      MIPS, the GOT and the number of its local entries. Pointers are from the base, sizes are signed. */
  lemma TagsAre(dyn: seq<Dyn>, base: uint64, i: nat)
    requires i < |dyn| && forall j | i < j < |dyn| :: dyn[j].tag != dyn[i].tag
    ensures dyn[i].tag == 7 ==> Pointer(dyn, DT_RELA, base) == Sum64(dyn[i].val, base)
    ensures dyn[i].tag == 8 ==> Size(dyn, DT_RELASZ) == SignedWord(dyn[i].val)
    ensures dyn[i].tag == 9 ==> Size(dyn, DT_RELAENT) == SignedWord(dyn[i].val)
    ensures dyn[i].tag == 17 ==> Pointer(dyn, DT_REL, base) == Sum64(dyn[i].val, base)
    ensures dyn[i].tag == 18 ==> Size(dyn, DT_RELSZ) == SignedWord(dyn[i].val)
    ensures dyn[i].tag == 19 ==> Size(dyn, DT_RELENT) == SignedWord(dyn[i].val)
    ensures dyn[i].tag == 3 ==> Pointer(dyn, DT_PLTGOT, base) == Sum64(dyn[i].val, base)
    ensures dyn[i].tag == 0x7000_000A ==> Size(dyn, DT_MIPS_LOCAL_GOTNO) == SignedWord(dyn[i].val)
  {
    FoundLast(dyn, i);
    PlusIs(dyn[i].val, base);
    SignedIs(dyn[i].val);
  }

  ghost function SignedWord(x: int): int {
    if x < 0x8000_0000_0000_0000 then x else x - 0x1_0000_0000_0000_0000
  }

  lemma SignedIs(x: uint64)
    ensures Signed(x) == SignedWord(x)
  {}

  lemma {:induction false} FoundLast(dyn: seq<Dyn>, i: nat)
    requires i < |dyn| && forall j | i < j < |dyn| :: dyn[j].tag != dyn[i].tag
    ensures Find(dyn, dyn[i].tag) == Some(dyn[i].val)
  {
    if i < |dyn| - 1 {
      FoundLast(dyn[..|dyn| - 1], i);
    }
  }

  /** A missing tag counts as zero. */
  lemma MissingTag(dyn: seq<Dyn>, tag: int, base: uint64)
    requires forall i | 0 <= i < |dyn| :: dyn[i].tag != tag
    ensures Pointer(dyn, tag, base) == 0 && Size(dyn, tag) == 0
  {
    LastEntryWins(dyn, tag);
  }

  lemma LoadIsWord(m: seq<byte>, t: nat)
    requires t + 8 <= |m|
    ensures LoadAt(m, t) == WordIn(m, t)
  {
    LoadIs(m, t);
  }

  lemma MovedInBytes(v: Machine, m: seq<byte>, r: seq<byte>, at: nat, base: uint64)
    requires EntryInside(v, m, at) && Moved(m, r, Target(EntryAt(v, m, at), base), base)
    ensures Shifted(m, r, TargetOf(m, at, base), base)
  {
    var t := Target(EntryAt(v, m, at), base);
    TargetInBytes(v, m, at, base);
    ShiftedInBytes(m, r, t, base);
  }

  lemma ShiftedInBytes(m: seq<byte>, r: seq<byte>, t: nat, base: uint64)
    requires Moved(m, r, t, base)
    ensures Shifted(m, r, t, base)
  {
    hide WordIn;
    LoadIsWord(m, t);
    LoadIsWord(r, t);
    PlusIs(LoadAt(m, t), base);
  }

  lemma TargetInBytes(v: Machine, m: seq<byte>, at: nat, base: uint64)
    requires EntryInside(v, m, at)
    ensures Target(EntryAt(v, m, at), base) == TargetOf(m, at, base)
  {
    LoadIsWord(m, at);
    PlusIs(base, LoadAt(m, at));
  }

  lemma PlacedInBytes(m: seq<byte>, r: seq<byte>, at: nat, base: uint64)
    requires EntryInside(AARCH64, m, at) && (var e := EntryAt(AARCH64, m, at); Placed(r, Target(e, base), e.addend, base))
    ensures Holds(r, TargetOf(m, at, base), Sum64(base, WordIn(m, at + 16)))
  {
    hide WordIn;
    var t := Target(EntryAt(AARCH64, m, at), base);
    TargetInBytes(AARCH64, m, at, base);
    LoadIsWord(m, at + 16);
    LoadIsWord(r, t);
    PlusIs(base, LoadAt(m, at + 16));
  }

  lemma UntouchedInBytes(v: Machine, m: seq<byte>, ats: seq<nat>, base: uint64, info: nat, mark: seq<byte>, a: nat)
    requires Separate(v, m, ats, base)
    requires forall i | 0 <= i < |ats| :: Marks(v, m, ats[i], info, mark)
    requires Missed(m, ats, info, mark, base, a)
    ensures Untouched(v, m, ats, base, a)
  {
    hide WordIn, Sum64, HasMark;
    forall i | 0 <= i < |ats|
      ensures Inside(v, m, ats[i], base) && var e := EntryAt(v, m, ats[i]);
              IsRelative(v, e) ==> Apart(Target(e, base), 8, a, 1)
    {
      assert Marks(v, m, ats[i], info, mark);
      TargetInBytes(v, m, ats[i], base);
    }
  }

  // ---------------------------------------------------------------------------
  // From the dynamic section to the image
  // ---------------------------------------------------------------------------

  function RelaEntries(dyn: seq<Dyn>, base: uint64): seq<nat>
    requires Size(dyn, DT_RELASZ) > 0 ==> Size(dyn, DT_RELAENT) > 0
  {
    Entries(Pointer(dyn, DT_RELA, base), Size(dyn, DT_RELASZ), Size(dyn, DT_RELAENT))
  }

  /** The table is there, its entries have a size, its targets are distinct and not in it. */
  predicate GoodTable(v: Machine, m: seq<byte>, dyn: seq<Dyn>, base: uint64) {
    && HasTable(DT_RELA, DT_RELAENT, dyn, base)
    && (Size(dyn, DT_RELASZ) > 0 ==> Size(dyn, DT_RELAENT) > 0)
    && Separate(v, m, RelaEntries(dyn, base), base)
  }

  /** `_relocate` of x86-64 adds the base to exactly the RELATIVE targets. */
  method RelocateX86Exactly(mem: array<byte>, base: uint64, dyn: seq<Dyn>) returns (status: Status)
    requires IsSection(dyn) && GoodTable(X86_64, mem[..], dyn, base)
    modifies mem
    ensures status == Success
    ensures forall i | 0 <= i < |RelaEntries(dyn, base)| ::
              var m, at := old(mem[..]), RelaEntries(dyn, base)[i];
              at + 16 <= |m| && (m[at + 8..at + 12] == [8, 0, 0, 0] ==> Shifted(m, mem[..], TargetOf(m, at, base), base))
    ensures forall a: nat | a < mem.Length && Missed(old(mem[..]), RelaEntries(dyn, base), 8, [8, 0, 0, 0], base, a) ::
              mem[..][a] == old(mem[..])[a]
  {
    hide Shifted, TargetOf, Missed, Untouched, Moved;
    ghost var m, ats := mem[..], RelaEntries(dyn, base);
    InPlaceShiftsExactly(X86_64, m, ats, base);
    X86InBytes(m, PatchedAll(X86_64, m, ats, base), ats, base);
    status := RelocateX86(mem, base, dyn);
  }

  lemma X86InBytes(m: seq<byte>, r: seq<byte>, ats: seq<nat>, base: uint64)
    requires Separate(X86_64, m, ats, base) && |r| == |m|
    requires forall i | 0 <= i < |ats| && IsRelative(X86_64, EntryAt(X86_64, m, ats[i])) ::
               Moved(m, r, Target(EntryAt(X86_64, m, ats[i]), base), base)
    requires forall a: nat | a < |m| && Untouched(X86_64, m, ats, base, a) :: r[a] == m[a]
    ensures forall i | 0 <= i < |ats| :: ats[i] + 16 <= |m| &&
              (m[ats[i] + 8..ats[i] + 12] == [8, 0, 0, 0] ==> Shifted(m, r, TargetOf(m, ats[i], base), base))
    ensures forall a: nat | a < |m| && Missed(m, ats, 8, [8, 0, 0, 0], base, a) :: r[a] == m[a]
  {
    hide Shifted, TargetOf, Moved;
    forall i | 0 <= i < |ats|
      ensures Marks(X86_64, m, ats[i], 8, [8, 0, 0, 0]) && ats[i] + 16 <= |m|
      ensures HasMark(m, ats[i], 8, [8, 0, 0, 0]) ==> Shifted(m, r, TargetOf(m, ats[i], base), base)
    {
      assert Inside(X86_64, m, ats[i], base);
      MarkedX86(m, ats[i]);
      if HasMark(m, ats[i], 8, [8, 0, 0, 0]) {
        MovedInBytes(X86_64, m, r, ats[i], base);
      }
    }
    forall a: nat | a < |m| && Missed(m, ats, 8, [8, 0, 0, 0], base, a)
      ensures r[a] == m[a]
    {
      UntouchedInBytes(X86_64, m, ats, base, 8, [8, 0, 0, 0], a);
    }
  }

  /** The word at t is the base plus the addend. */
  predicate Placed(r: seq<byte>, t: nat, addend: uint64, base: uint64) {
    t + 8 <= |r| && LoadAt(r, t) == Plus(base, addend)
  }

  /** `_relocate` of AArch64 stores base plus addend in exactly the RELATIVE targets. */
  method RelocateAarch64Exactly(mem: array<byte>, base: uint64, dyn: seq<Dyn>) returns (status: Status)
    requires IsSection(dyn) && GoodTable(AARCH64, mem[..], dyn, base)
    modifies mem
    ensures status == Success
    ensures forall i | 0 <= i < |RelaEntries(dyn, base)| ::
              var m, at := old(mem[..]), RelaEntries(dyn, base)[i];
              at + 24 <= |m| && (m[at + 8..at + 12] == [3, 4, 0, 0] ==>
                                   Holds(mem[..], TargetOf(m, at, base), Sum64(base, WordIn(m, at + 16))))
    ensures forall a: nat | a < mem.Length && Missed(old(mem[..]), RelaEntries(dyn, base), 8, [3, 4, 0, 0], base, a) ::
              mem[..][a] == old(mem[..])[a]
  {
    hide Holds, TargetOf, WordIn, Sum64, Missed, Untouched, Placed;
    ghost var m, ats := mem[..], RelaEntries(dyn, base);
    ExplicitPlacesExactly(AARCH64, m, ats, base);
    Aarch64InBytes(m, PatchedAll(AARCH64, m, ats, base), ats, base);
    status := RelocateAarch64(mem, base, dyn);
  }

  lemma Aarch64InBytes(m: seq<byte>, r: seq<byte>, ats: seq<nat>, base: uint64)
    requires Separate(AARCH64, m, ats, base) && |r| == |m|
    requires forall i | 0 <= i < |ats| :: var e := EntryAt(AARCH64, m, ats[i]);
               IsRelative(AARCH64, e) ==> Placed(r, Target(e, base), e.addend, base)
    requires forall a: nat | a < |m| && Untouched(AARCH64, m, ats, base, a) :: r[a] == m[a]
    ensures forall i | 0 <= i < |ats| :: ats[i] + 24 <= |m| &&
              (m[ats[i] + 8..ats[i] + 12] == [3, 4, 0, 0] ==>
                 Holds(r, TargetOf(m, ats[i], base), Sum64(base, WordIn(m, ats[i] + 16))))
    ensures forall a: nat | a < |m| && Missed(m, ats, 8, [3, 4, 0, 0], base, a) :: r[a] == m[a]
  {
    hide Holds, TargetOf, Placed, WordIn, Sum64;
    forall i | 0 <= i < |ats|
      ensures Marks(AARCH64, m, ats[i], 8, [3, 4, 0, 0]) && ats[i] + 24 <= |m|
      ensures HasMark(m, ats[i], 8, [3, 4, 0, 0]) ==>
                Holds(r, TargetOf(m, ats[i], base), Sum64(base, WordIn(m, ats[i] + 16)))
    {
      assert Inside(AARCH64, m, ats[i], base);
      MarkedAarch64(m, ats[i]);
      if HasMark(m, ats[i], 8, [3, 4, 0, 0]) {
        PlacedInBytes(m, r, ats[i], base);
      }
    }
    forall a: nat | a < |m| && Missed(m, ats, 8, [3, 4, 0, 0], base, a)
      ensures r[a] == m[a]
    {
      UntouchedInBytes(AARCH64, m, ats, base, 8, [3, 4, 0, 0], a);
    }
  }

  lemma ExplicitPlacesExactly(v: Machine, m: seq<byte>, ats: seq<nat>, base: uint64)
    requires Separate(v, m, ats, base) && v.explicit
    ensures AllInside(v, m, ats, base)
    ensures var r := PatchedAll(v, m, ats, base);
            && (forall i | 0 <= i < |ats| :: var e := EntryAt(v, m, ats[i]);
                  IsRelative(v, e) ==> Placed(r, Target(e, base), e.addend, base))
            && (forall a: nat | a < |m| && Untouched(v, m, ats, base, a) :: r[a] == m[a])
  {
    SeparateIsInside(v, m, ats, base);
    forall i | 0 <= i < |ats| && IsRelative(v, EntryAt(v, m, ats[i]))
      ensures var e := EntryAt(v, m, ats[i]); Placed(PatchedAll(v, m, ats, base), Target(e, base), e.addend, base)
    {
      TargetsPatched(v, m, ats, base, i);
    }
    forall a: nat | a < |m| && Untouched(v, m, ats, base, a)
      ensures PatchedAll(v, m, ats, base)[a] == m[a]
    {
      OthersKept(v, m, ats, base, a);
    }
  }

  /** One image built for x86-64 and for AArch64, relocated by each: the results agree outside the info
      words exactly when every target held its addend. */
  method RelocateBoth(x86: array<byte>, arm: array<byte>, base: uint64, dyn: seq<Dyn>)
    requires x86 != arm && IsSection(dyn)
    requires GoodTable(X86_64, x86[..], dyn, base) && GoodTable(AARCH64, arm[..], dyn, base)
    requires Twins(X86_64, AARCH64, x86[..], arm[..], RelaEntries(dyn, base))
    modifies x86, arm
    ensures SameImage(x86[..], arm[..], RelaEntries(dyn, base))
            <==> forall i | 0 <= i < |RelaEntries(dyn, base)| :: Prepared(AARCH64, old(arm[..]), RelaEntries(dyn, base)[i], base)
  {
    ghost var ats := RelaEntries(dyn, base);
    SeparateIsInside(X86_64, x86[..], ats, base);
    SeparateIsInside(AARCH64, arm[..], ats, base);
    InPlaceIsExplicitIff(X86_64, AARCH64, x86[..], arm[..], ats, base);
    var _ := RelocateX86(x86, base, dyn);
    var _ := RelocateAarch64(arm, base, dyn);
  }

  function RelEntries(dyn: seq<Dyn>, base: uint64): seq<nat>
    requires Size(dyn, DT_RELSZ) > 0 ==> Size(dyn, DT_RELENT) > 0
  {
    Entries(Pointer(dyn, DT_REL, base), Size(dyn, DT_RELSZ), Size(dyn, DT_RELENT))
  }

  /** `_relocate` of MIPS shifts exactly the local GOT entries and the relative targets. */
  method RelocateMipsExactly(mem: array<byte>, base: uint64, dyn: seq<Dyn>) returns (status: Status)
    requires IsSection(dyn) && !MipsEmpty(dyn, base) && !MipsBroken(dyn, base)
    requires Size(dyn, DT_RELSZ) > 0 ==> Size(dyn, DT_RELENT) > 0
    requires Separate(MIPS, mem[..], RelEntries(dyn, base), base)
    requires GotApart(MIPS, mem[..], Pointer(dyn, DT_PLTGOT, base), Size(dyn, DT_MIPS_LOCAL_GOTNO), RelEntries(dyn, base), base)
    modifies mem
    ensures status == Success
    ensures forall k | 0 <= k < Size(dyn, 0x7000_000A) :: Shifted(old(mem[..]), mem[..], Pointer(dyn, 3, base) + 8 * k, base)
    ensures forall i | 0 <= i < |RelEntries(dyn, base)| ::
              var m, at := old(mem[..]), RelEntries(dyn, base)[i];
              at + 16 <= |m| && (m[at + 12..at + 16] == [0, 0, 18, 3] ==> Shifted(m, mem[..], TargetOf(m, at, base), base))
    ensures forall a: nat | a < mem.Length && Missed(old(mem[..]), RelEntries(dyn, base), 12, [0, 0, 18, 3], base, a)
                            && !(Pointer(dyn, 3, base) <= a < Pointer(dyn, 3, base) + 8 * Size(dyn, 0x7000_000A)) ::
              mem[..][a] == old(mem[..])[a]
  {
    hide Shifted, TargetOf, Missed, Untouched, Moved, AllInside, GotShifted, PatchedAll, Apart;
    ghost var m, got, n, ats := mem[..], Pointer(dyn, DT_PLTGOT, base), Size(dyn, DT_MIPS_LOCAL_GOTNO), RelEntries(dyn, base);
    MipsShiftsExactly(m, got, n, ats, base);
    MipsInBytes(m, PatchedAll(MIPS, GotShifted(m, got, n, base), ats, base), got, n, ats, base);
    status := RelocateMips(mem, base, dyn);
  }

  lemma GotInBytes(m: seq<byte>, r: seq<byte>, got: nat, n: int, base: uint64)
    requires forall k | 0 <= k < n :: Moved(m, r, got + 8 * k, base)
    ensures forall k | 0 <= k < n :: Shifted(m, r, got + 8 * k, base)
  {
    hide Shifted, Moved;
    forall k | 0 <= k < n
      ensures Shifted(m, r, got + 8 * k, base)
    {
      ShiftedInBytes(m, r, got + 8 * k, base);
    }
  }

  lemma MipsInBytes(m: seq<byte>, r: seq<byte>, got: nat, n: int, ats: seq<nat>, base: uint64)
    requires Separate(MIPS, m, ats, base) && |r| == |m|
    requires forall k | 0 <= k < n :: Moved(m, r, got + 8 * k, base)
    requires forall i | 0 <= i < |ats| && IsRelative(MIPS, EntryAt(MIPS, m, ats[i])) ::
               Moved(m, r, Target(EntryAt(MIPS, m, ats[i]), base), base)
    requires forall a: nat | a < |m| && Untouched(MIPS, m, ats, base, a) && (n > 0 ==> Apart(got, 8 * n, a, 1)) :: r[a] == m[a]
    ensures forall k | 0 <= k < n :: Shifted(m, r, got + 8 * k, base)
    ensures forall i | 0 <= i < |ats| :: ats[i] + 16 <= |m| &&
              (m[ats[i] + 12..ats[i] + 16] == [0, 0, 18, 3] ==> Shifted(m, r, TargetOf(m, ats[i], base), base))
    ensures forall a: nat | a < |m| && Missed(m, ats, 12, [0, 0, 18, 3], base, a) && !(got <= a < got + 8 * n) :: r[a] == m[a]
  {
    hide Shifted, TargetOf, Moved, Missed, Untouched;
    GotInBytes(m, r, got, n, base);
    forall i | 0 <= i < |ats|
      ensures Marks(MIPS, m, ats[i], 12, [0, 0, 18, 3]) && ats[i] + 16 <= |m|
      ensures HasMark(m, ats[i], 12, [0, 0, 18, 3]) ==> Shifted(m, r, TargetOf(m, ats[i], base), base)
    {
      assert Inside(MIPS, m, ats[i], base);
      MarkedMips(m, ats[i]);
      if HasMark(m, ats[i], 12, [0, 0, 18, 3]) {
        MovedInBytes(MIPS, m, r, ats[i], base);
      }
    }
    forall a: nat | a < |m| && Missed(m, ats, 12, [0, 0, 18, 3], base, a) && !(got <= a < got + 8 * n)
      ensures r[a] == m[a]
    {
      UntouchedInBytes(MIPS, m, ats, base, 12, [0, 0, 18, 3], a);
    }
  }
}

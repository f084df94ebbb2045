/** Installing and reinstalling lists of protocols, `lib/hand.c`, against a handle database whose
    services may refuse. */
module Handles {

  /** EFI_HANDLE; 0 is NULL. */
  type handle = nat
  type guid = nat
  type interface = nat

  type Protocols = map<guid, interface>
  type Database = map<handle, Protocols>

  datatype Status = Success | InvalidParameter | NotFound | Refused

  const TPL_NOTIFY := 16

  function On(db: Database, h: handle): Protocols {
    if h in db then db[h] else map[]
  }

  /** A handle exists as long as it has protocols. */
  function With(db: Database, h: handle, p: Protocols): Database {
    if p == map[] then db - {h} else db[h := p]
  }

  predicate NoEmptyHandles(db: Database) {
    forall h | h in db :: db[h] != map[]
  }

  lemma WithWith(db: Database, h: handle, p: Protocols, q: Protocols)
    ensures With(With(db, h, p), h, q) == With(db, h, q)
    ensures On(With(db, h, p), h) == p
  {}

  lemma WithOwn(db: Database, h: handle)
    requires NoEmptyHandles(db)
    ensures With(db, h, On(db, h)) == db
  {}

  /** The boot services. Every call but those of the task priority may be refused. */
  class BootServices {
    var db: Database
    var tpl: nat
    /** Handles given out are below this one. */
    var next: handle
    const grants: nat -> bool
    var calls: nat
    /** Some protocol service was called below the priority TPL_NOTIFY. */
    ghost var exposed: bool

    ghost predicate Valid()
      reads this
    {
      NoEmptyHandles(db) && next > 0 && forall h | h in db :: 0 < h < next
    }

    ghost predicate GrantedSince(from: nat)
      reads this
    {
      forall k | from <= k < calls :: grants(k)
    }

    constructor (answers: nat -> bool)
      ensures Valid() && db == map[] && grants == answers
    {
      db, tpl, next, grants, calls := map[], 4, 1, answers, 0;
      exposed := false;
    }

    method RaiseTPL(level: nat) returns (previous: nat)
      requires tpl <= level
      modifies this`tpl
      ensures previous == old(tpl) && tpl == level
    {
      previous := tpl;
      tpl := level;
    }

    method RestoreTPL(level: nat)
      modifies this`tpl
      ensures tpl == level
    {
      tpl := level;
    }

    /** A NULL handle stands for a new one; a protocol is installed on a handle only once. */
    method InstallProtocolInterface(h: handle, g: guid, i: interface) returns (status: Status, r: handle)
      requires Valid()
      modifies this`db, this`next, this`calls, this`exposed
      ensures Valid() && calls == old(calls) + 1 && next >= old(next) && exposed == (old(exposed) || tpl < 16)
      ensures status == Success <==> grants(old(calls)) && (h == 0 || (h in old(db) && g !in old(db)[h]))
      ensures status == Success ==> r == (if h == 0 then old(next) else h) && r != 0
                                    && db == With(old(db), r, On(old(db), r)[g := i])
      ensures status != Success ==> r == h && db == old(db)
    {
      var answer := grants(calls);
      calls := calls + 1;
      exposed := exposed || tpl < 16;
      r := h;
      if h != 0 && (h !in db || g in db[h]) {
        return InvalidParameter, h;
      }
      if !answer {
        return Refused, h;
      }
      if h == 0 {
        r := next;
        next := next + 1;
      }
      assert g in On(db, r)[g := i];
      db := With(db, r, On(db, r)[g := i]);
      status := Success;
    }

    /** The handle goes with its last protocol. */
    method UninstallProtocolInterface(h: handle, g: guid, i: interface) returns (status: Status)
      requires Valid()
      modifies this`db, this`calls, this`exposed
      ensures Valid() && calls == old(calls) + 1 && exposed == (old(exposed) || tpl < 16)
      ensures status == Success <==> grants(old(calls)) && g in On(old(db), h) && On(old(db), h)[g] == i
      ensures db == if status == Success then With(old(db), h, On(old(db), h) - {g}) else old(db)
    {
      var answer := grants(calls);
      calls := calls + 1;
      exposed := exposed || tpl < 16;
      if !(g in On(db, h) && On(db, h)[g] == i) {
        return NotFound;
      }
      if !answer {
        return Refused;
      }
      db := With(db, h, On(db, h) - {g});
      status := Success;
    }

    method ReinstallProtocolInterface(h: handle, g: guid, before: interface, after: interface) returns (status: Status)
      requires Valid()
      modifies this`db, this`calls, this`exposed
      ensures Valid() && calls == old(calls) + 1 && exposed == (old(exposed) || tpl < 16)
      ensures status == Success <==> grants(old(calls)) && g in On(old(db), h) && On(old(db), h)[g] == before
      ensures db == if status == Success then With(old(db), h, On(old(db), h)[g := after]) else old(db)
    {
      var answer := grants(calls);
      calls := calls + 1;
      exposed := exposed || tpl < 16;
      if !(g in On(db, h) && On(db, h)[g] == before) {
        return NotFound;
      }
      if !answer {
        return Refused;
      }
      db := With(db, h, On(db, h)[g := after]);
      status := Success;
    }
  }

  // ---------------------------------------------------------------------------
  // Installing
  // ---------------------------------------------------------------------------

  datatype Item = Item(g: guid, i: interface)

  function MapOf(items: seq<Item>): Protocols {
    if items == [] then map[] else MapOf(items[1..])[items[0].g := items[0].i]
  }

  /** No protocol twice, and none that is there already. */
  predicate AllNew(items: seq<Item>, there: Protocols) {
    && (forall j | 0 <= j < |items| :: items[j].g !in there)
    && (forall j, k | 0 <= j < k < |items| :: items[j].g != items[k].g)
  }

  lemma {:induction false} KeysOf(items: seq<Item>, g: guid)
    ensures g in MapOf(items) <==> exists j | 0 <= j < |items| :: items[j].g == g
  {
    if items != [] {
      KeysOf(items[1..], g);
      if g in MapOf(items[1..]) {
        var j :| 0 <= j < |items| - 1 && items[1..][j].g == g;
        assert items[j + 1].g == g;
      }
      if exists j | 0 <= j < |items| :: items[j].g == g {
        var j :| 0 <= j < |items| && items[j].g == g;
        if j > 0 {
          assert items[1..][j - 1].g == g;
        }
      }
    }
  }

  lemma {:induction false} MapOfMore(items: seq<Item>, more: Item)
    requires more.g !in MapOf(items)
    ensures MapOf(items + [more]) == MapOf(items)[more.g := more.i]
  {
    if items == [] {
      assert MapOf([more]) == MapOf([])[more.g := more.i];
    } else {
      assert (items + [more])[1..] == items[1..] + [more];
      MapOfMore(items[1..], more);
    }
  }

  /** Another item fits on the handle. */
  lemma MoreInstalled(there: Protocols, items: seq<Item>, k: nat)
    requires k < |items| && AllNew(items[..k], there) && items[k].g !in there + MapOf(items[..k])
    ensures AllNew(items[..k + 1], there)
    ensures (there + MapOf(items[..k]))[items[k].g := items[k].i] == there + MapOf(items[..k + 1])
  {
    assert items[..k + 1] == items[..k] + [items[k]];
    MapOfMore(items[..k], items[k]);
    forall j | 0 <= j < k
      ensures items[j].g != items[k].g
    {
      KeysOf(items[..k], items[j].g);
      assert items[..k][j].g == items[j].g;
    }
    var s := items[..k];
    forall j, l | 0 <= j < l < k + 1
      ensures items[j].g != items[l].g
    {
      if l < k {
        assert s[j].g != s[l].g;
      }
    }
    forall j | 0 <= j < k + 1
      ensures items[j].g !in there
    {
      if j < k {
        assert s[j].g !in there;
      }
    }
  }

  /** The handle is good for the list. */
  predicate Installable(db: Database, h: handle, items: seq<Item>) {
    AllNew(items, On(db, h)) && (h == 0 || h in db || items == [])
  }

  lemma StillInstallable(db: Database, r: handle, items: seq<Item>, k: nat)
    requires NoEmptyHandles(db) && k < |items| && AllNew(items, On(db, r)) && (k == 0 ==> r in db)
    ensures var now := With(db, r, On(db, r) + MapOf(items[..k]));
            r in now && items[k].g !in now[r]
  {
    if k > 0 {
      KeysOf(items[..k], items[0].g);
      assert items[..k][0].g == items[0].g;
      assert items[0].g in On(db, r) + MapOf(items[..k]);
    } else {
      assert On(db, r) + MapOf(items[..0]) == On(db, r);
    }
    KeysOf(items[..k], items[k].g);
  }

  /** Taking the first item off again. */
  lemma FirstUninstalled(there: Protocols, items: seq<Item>)
    requires items != [] && AllNew(items, there)
    ensures AllNew(items[1..], there)
    ensures var p := there + MapOf(items);
            items[0].g in p && p[items[0].g] == items[0].i && p - {items[0].g} == there + MapOf(items[1..])
  {
    var g, rest := items[0].g, MapOf(items[1..]);
    KeysOf(items[1..], g);
    assert g !in rest && g !in there;
    assert there + rest[g := items[0].i] - {g} == there + rest;
  }

  /** Every item is on the handle, and everything else is as before. */
  ghost predicate OnlyAdded(before: Database, after: Database, r: handle, items: seq<Item>) {
    && (forall j | 0 <= j < |items| :: r in after && items[j].g in after[r] && after[r][items[j].g] == items[j].i)
    && (forall j | 0 <= j < |items| && r in before :: items[j].g !in before[r])
    && (forall h | h != r :: (h in after <==> h in before) && (h in before ==> after[h] == before[h]))
    && (forall g | r in before && g in before[r] :: r in after && g in after[r] && after[r][g] == before[r][g])
    && (forall g | r in after && g in after[r] :: (r in before && g in before[r]) || exists j | 0 <= j < |items| :: items[j].g == g)
  }

  lemma {:induction false} InterfaceOf(items: seq<Item>, j: nat)
    requires j < |items| && forall k, l | 0 <= k < l < |items| :: items[k].g != items[l].g
    ensures items[j].g in MapOf(items) && MapOf(items)[items[j].g] == items[j].i
  {
    if j > 0 {
      InterfaceOf(items[1..], j - 1);
    }
  }

  lemma AddedInPlainTerms(before: Database, r: handle, items: seq<Item>)
    requires NoEmptyHandles(before) && AllNew(items, On(before, r))
    ensures OnlyAdded(before, With(before, r, On(before, r) + MapOf(items)), r, items)
  {
    var there, more := On(before, r), MapOf(items);
    forall j | 0 <= j < |items|
      ensures items[j].g in more && more[items[j].g] == items[j].i
    {
      InterfaceOf(items, j);
    }
    forall g
      ensures g in more <==> exists j | 0 <= j < |items| :: items[j].g == g
    {
      KeysOf(items, g);
    }
    assert there + more != map[] || there == map[];
  }

  /** `LibInstallProtocolInterfaces`: all of the list or nothing. The value of `*Handle` is passed in
      and out. The undo calls are those from `undo` on. */
  method LibInstallProtocolInterfaces(bs: BootServices, h: handle, items: seq<Item>)
    returns (status: Status, r: handle, ghost undo: nat)
    requires bs.Valid() && bs.tpl <= TPL_NOTIFY
    modifies bs`db, bs`next, bs`calls, bs`tpl, bs`exposed
    ensures bs.exposed == old(bs.exposed)
    ensures bs.Valid() && bs.tpl == old(bs.tpl)
    ensures status == Success ==>
              && r == (if h == 0 && items != [] then old(bs.next) else h)
              && AllNew(items, On(old(bs.db), r))
              && bs.db == With(old(bs.db), r, On(old(bs.db), r) + MapOf(items))
    ensures status == Success ==> OnlyAdded(old(bs.db), bs.db, r, items)
    ensures status != Success && bs.GrantedSince(undo) ==> bs.db == old(bs.db)
    ensures status != Success ==> r == h
    ensures undo <= bs.calls
    ensures Installable(old(bs.db), h, items) && (forall k | old(bs.calls) <= k < old(bs.calls) + |items| :: bs.grants(k)) ==>
              status == Success
  {
    var oldTpl := bs.RaiseTPL(TPL_NOTIFY);
    var index: nat;
    status, r, index := InstallItems(bs, h, items);
    undo := bs.calls;
    assert items[..|items|] == items;
    if status != Success {
      UninstallItems(bs, r, items[..index], old(bs.db));
      r := h;
    } else {
      AddedInPlainTerms(old(bs.db), r, items);
    }
    bs.RestoreTPL(oldTpl);
  }

  /** The first loop: how far it gets. */
  method InstallItems(bs: BootServices, h: handle, items: seq<Item>)
    returns (status: Status, r: handle, index: nat)
    requires bs.Valid()
    modifies bs`db, bs`next, bs`calls, bs`exposed
    ensures bs.tpl >= 16 ==> bs.exposed == old(bs.exposed)
    ensures bs.Valid() && index <= |items| && (status == Success <==> index == |items|)
    ensures r == (if h == 0 && index > 0 then old(bs.next) else h)
    ensures AllNew(items[..index], On(old(bs.db), r))
    ensures bs.db == With(old(bs.db), r, On(old(bs.db), r) + MapOf(items[..index]))
    ensures Installable(old(bs.db), h, items) && (forall k | old(bs.calls) <= k < old(bs.calls) + |items| :: bs.grants(k)) ==>
              status == Success
  {
    index, status, r := 0, Success, h;
    ghost var db0 := bs.db;
    WithOwn(db0, h);
    assert On(db0, h) + MapOf(items[..0]) == On(db0, h);
    while index < |items|
      invariant bs.tpl >= 16 ==> bs.exposed == old(bs.exposed)
      invariant status == Success && index <= |items| && bs.calls == old(bs.calls) + index
      invariant Installing(bs, h, items, index, r, db0, old(bs.next))
    {
      status, r := InstallNext(bs, h, items, index, r, db0, old(bs.next));
      if status != Success {
        return;
      }
      index := index + 1;
    }
    assert items[..index] == items;
  }

  /** The first `index` items are on handle r, and on nothing else. */
  ghost predicate Installing(bs: BootServices, h: handle, items: seq<Item>, index: nat, r: handle, db0: Database, fresh_: handle)
    requires index <= |items|
    reads bs
  {
    && bs.Valid() && NoEmptyHandles(db0) && fresh_ > 0 && fresh_ !in db0
    && r == (if h == 0 && index > 0 then fresh_ else h) && (index == 0 ==> bs.next == fresh_)
    && AllNew(items[..index], On(db0, r)) && 0 !in db0
    && bs.db == With(db0, r, On(db0, r) + MapOf(items[..index]))
  }

  method InstallNext(bs: BootServices, h: handle, items: seq<Item>, index: nat, before: handle,
                     ghost db0: Database, ghost fresh_: handle)
    returns (status: Status, r: handle)
    requires index < |items| && Installing(bs, h, items, index, before, db0, fresh_)
    modifies bs`db, bs`next, bs`calls, bs`exposed
    ensures bs.tpl >= 16 ==> bs.exposed == old(bs.exposed)
    ensures bs.calls == old(bs.calls) + 1
    ensures status == Success ==> Installing(bs, h, items, index + 1, r, db0, fresh_)
    ensures status != Success ==> r == before && bs.Valid() && bs.db == old(bs.db)
    ensures status != Success ==> !(Installable(db0, h, items) && bs.grants(old(bs.calls)))
  {
    ghost var p := On(db0, before) + MapOf(items[..index]);
    WithWith(db0, before, p, map[]);
    if index == 0 {
      assert p == On(db0, before);
      WithOwn(db0, before);
    }
    if Installable(db0, h, items) && before != 0 {
      assert On(db0, before) == On(db0, h);
      StillInstallable(db0, before, items, index);
    }
    status, r := bs.InstallProtocolInterface(before, items[index].g, items[index].i);
    if status == Success {
      ghost var q := On(db0, r) + MapOf(items[..index]);
      assert index == 0 ==> q == On(db0, r);
      WithWith(db0, r, q, q[items[index].g := items[index].i]);
      MoreInstalled(On(db0, r), items, index);
    }
  }

  /** The undo loop, forward over the installed items. */
  method UninstallItems(bs: BootServices, r: handle, items: seq<Item>, ghost db0: Database)
    requires bs.Valid() && NoEmptyHandles(db0) && AllNew(items, On(db0, r))
    requires bs.db == With(db0, r, On(db0, r) + MapOf(items))
    modifies bs`db, bs`calls, bs`exposed
    ensures bs.tpl >= 16 ==> bs.exposed == old(bs.exposed)
    ensures bs.Valid() && bs.calls >= old(bs.calls)
    ensures bs.GrantedSince(old(bs.calls)) ==> bs.db == db0
  {
    var k: nat := 0;
    while k < |items|
      invariant bs.tpl >= 16 ==> bs.exposed == old(bs.exposed)
      invariant k <= |items| && bs.Valid() && bs.calls == old(bs.calls) + k && AllNew(items[k..], On(db0, r))
      invariant bs.GrantedSince(old(bs.calls)) ==> bs.db == With(db0, r, On(db0, r) + MapOf(items[k..]))
    {
      UninstallNext(bs, r, items[k..], db0);
      assert items[k..][1..] == items[k + 1..];
      k := k + 1;
    }
    assert items[k..] == [] && On(db0, r) + MapOf([]) == On(db0, r);
    WithOwn(db0, r);
  }

  /** One turn of the undo loop. */
  method UninstallNext(bs: BootServices, r: handle, items: seq<Item>, ghost db0: Database)
    requires bs.Valid() && items != [] && AllNew(items, On(db0, r))
    modifies bs`db, bs`calls, bs`exposed
    ensures bs.tpl >= 16 ==> bs.exposed == old(bs.exposed)
    ensures bs.Valid() && bs.calls == old(bs.calls) + 1 && AllNew(items[1..], On(db0, r))
    ensures old(bs.db) == With(db0, r, On(db0, r) + MapOf(items)) && bs.grants(old(bs.calls)) ==>
              bs.db == With(db0, r, On(db0, r) + MapOf(items[1..]))
  {
    FirstUninstalled(On(db0, r), items);
    WithWith(db0, r, On(db0, r) + MapOf(items), On(db0, r) + MapOf(items[1..]));
    var _ := bs.UninstallProtocolInterface(r, items[0].g, items[0].i);
  }

  // ---------------------------------------------------------------------------
  // Reinstalling
  // ---------------------------------------------------------------------------

  datatype Exchange = Exchange(g: guid, before: interface, after: interface)

  predicate Applies(p: Protocols, x: Exchange) {
    x.g in p && p[x.g] == x.before
  }

  /** Every exchange in turn finds the interface it is to replace. */
  predicate AllApply(p: Protocols, xs: seq<Exchange>) {
    xs == [] || (AllApply(p, xs[..|xs| - 1]) && Applies(Exchanged(p, xs[..|xs| - 1]), xs[|xs| - 1]))
  }

  function Exchanged(p: Protocols, xs: seq<Exchange>): Protocols {
    if xs == [] then p else Exchanged(p, xs[..|xs| - 1])[xs[|xs| - 1].g := xs[|xs| - 1].after]
  }

  function UndoOne(p: Protocols, x: Exchange): Protocols {
    if x.g in p && p[x.g] == x.after then p[x.g := x.before] else p
  }

  /** The undo loop: forward over the list, each exchange turned round, whether it applies or not. */
  function Undone(p: Protocols, xs: seq<Exchange>): Protocols {
    if xs == [] then p else UndoOne(Undone(p, xs[..|xs| - 1]), xs[|xs| - 1])
  }

  predicate DistinctProtocols(xs: seq<Exchange>) {
    forall i, j | 0 <= i < j < |xs| :: xs[i].g != xs[j].g
  }

  /** No protocol comes back to an interface it had before. */
  predicate NeverReturns(xs: seq<Exchange>) {
    forall i, j | 0 <= i <= j < |xs| && xs[i].g == xs[j].g ::
      xs[j].after != xs[i].before && (i < j ==> xs[j].after != xs[i].after)
  }

  /** The last exchange of a protocol, or -1. */
  function Last(xs: seq<Exchange>, g: guid): (k: int)
    ensures -1 <= k < |xs|
    ensures k >= 0 ==> xs[k].g == g
    ensures forall j | k < j < |xs| :: xs[j].g != g
  {
    if xs == [] then -1 else if xs[|xs| - 1].g == g then |xs| - 1 else Last(xs[..|xs| - 1], g)
  }

  lemma {:induction false} ExchangedAt(p: Protocols, xs: seq<Exchange>, g: guid)
    requires AllApply(p, xs)
    ensures g in Exchanged(p, xs) <==> g in p
    ensures g in p ==> Exchanged(p, xs)[g] == if Last(xs, g) < 0 then p[g] else xs[Last(xs, g)].after
  {
    if xs != [] {
      ExchangedAt(p, xs[..|xs| - 1], g);
    }
  }

  /** Only an exchange that ends in the present interface changes it. */
  lemma {:induction false} UndoneKeeps(p: Protocols, xs: seq<Exchange>, g: guid)
    requires forall j | 0 <= j < |xs| && xs[j].g == g && g in p :: xs[j].after != p[g]
    ensures g in Undone(p, xs) <==> g in p
    ensures g in p ==> Undone(p, xs)[g] == p[g]
  {
    if xs != [] {
      UndoneKeeps(p, xs[..|xs| - 1], g);
    }
  }

  lemma {:induction false} UndoneConcat(p: Protocols, xs: seq<Exchange>, ys: seq<Exchange>)
    ensures Undone(p, xs + ys) == Undone(Undone(p, xs), ys)
  {
    if ys == [] {
      assert xs + ys == xs;
    } else {
      assert (xs + ys)[..|xs + ys| - 1] == xs + ys[..|ys| - 1];
      UndoneConcat(p, xs, ys[..|ys| - 1]);
    }
  }

  /** Undoing gives a protocol the interface it had before its last exchange. */
  lemma UndoneAt(p: Protocols, xs: seq<Exchange>, g: guid)
    requires AllApply(p, xs) && g in p && Last(xs, g) >= 0
    requires forall j | 0 <= j < Last(xs, g) && xs[j].g == g :: xs[j].after != xs[Last(xs, g)].after
    ensures g in Undone(Exchanged(p, xs), xs) && Undone(Exchanged(p, xs), xs)[g] == xs[Last(xs, g)].before
  {
    var k, e := Last(xs, g), Exchanged(p, xs);
    ExchangedAt(p, xs, g);
    UndoneKeeps(e, xs[..k], g);
    var u := UndoOne(Undone(e, xs[..k]), xs[k]);
    UndoneConcat(e, xs[..k], [xs[k]]);
    assert Undone(Undone(e, xs[..k]), [xs[k]]) == u by {
      assert [xs[k]][..0] == [];
    }
    assert u[g] == xs[k].before;
    UndoneKeeps(u, xs[k + 1..], g);
    UndoneConcat(e, xs[..k] + [xs[k]], xs[k + 1..]);
    assert xs[..k] + [xs[k]] + xs[k + 1..] == xs;
  }

  lemma {:induction false} AllApplyPrefix(p: Protocols, xs: seq<Exchange>, k: nat)
    requires AllApply(p, xs) && k <= |xs|
    ensures AllApply(p, xs[..k])
    ensures k < |xs| ==> Applies(Exchanged(p, xs[..k]), xs[k])
    decreases |xs|
  {
    if k < |xs| - 1 {
      assert xs[..|xs| - 1][..k] == xs[..k];
      AllApplyPrefix(p, xs[..|xs| - 1], k);
    } else if k == |xs| {
      assert xs[..k] == xs;
    }
  }

  lemma {:induction false} UndoneSame(p: Protocols, xs: seq<Exchange>, g: guid)
    requires AllApply(p, xs) && Last(xs, g) < 0
    ensures g in Undone(Exchanged(p, xs), xs) <==> g in p
    ensures g in p ==> Undone(Exchanged(p, xs), xs)[g] == p[g]
  {
    ExchangedAt(p, xs, g);
    UndoneKeeps(Exchanged(p, xs), xs, g);
  }

  lemma {:induction false} UndoneKeys(p: Protocols, xs: seq<Exchange>, g: guid)
    ensures g in Undone(p, xs) <==> g in p
  {
    if xs != [] {
      UndoneKeys(p, xs[..|xs| - 1], g);
    }
  }

  /** With pairwise distinct protocols undoing forward restores everything. */
  lemma DistinctUndone(p: Protocols, xs: seq<Exchange>)
    requires AllApply(p, xs) && DistinctProtocols(xs)
    ensures Undone(Exchanged(p, xs), xs) == p
  {
    var u := Undone(Exchanged(p, xs), xs);
    forall g
      ensures g in u <==> g in p
      ensures g in p ==> u[g] == p[g]
    {
      UndoneKeys(Exchanged(p, xs), xs, g);
      ExchangedAt(p, xs, g);
      var k := Last(xs, g);
      if k < 0 {
        UndoneSame(p, xs, g);
      } else if g in p {
        UndoneAt(p, xs, g);
        AllApplyPrefix(p, xs, k);
        assert Last(xs[..k], g) < 0;
        ExchangedAt(p, xs[..k], g);
      }
    }
  }

  /** The first exchange of a protocol finds the interface there was. */
  lemma FirstFinds(p: Protocols, xs: seq<Exchange>, i: nat) returns (f: nat)
    requires AllApply(p, xs) && i < |xs|
    ensures f <= i && xs[f].g == xs[i].g && xs[i].g in p && xs[f].before == p[xs[i].g]
    decreases i
  {
    var g := xs[i].g;
    var k := Last(xs[..i], g);
    if k < 0 {
      f := i;
      AllApplyPrefix(p, xs, i);
      ExchangedAt(p, xs[..i], g);
    } else {
      f := FirstFinds(p, xs, k);
    }
  }

  /** A protocol exchanged twice is not restored. */
  lemma RepeatedNotUndone(p: Protocols, xs: seq<Exchange>, i: nat, j: nat)
    requires AllApply(p, xs) && NeverReturns(xs) && i < j < |xs| && xs[i].g == xs[j].g
    ensures Undone(Exchanged(p, xs), xs) != p
  {
    var g := xs[i].g;
    var k := Last(xs, g);
    var f := FirstFinds(p, xs, i);
    UndoneAt(p, xs, g);
    AllApplyPrefix(p, xs, k);
    ExchangedAt(p, xs[..k], g);
    var l := Last(xs[..k], g);
    assert xs[..k][i].g == g;
    assert xs[k].before == xs[l].after && f <= l;
    assert xs[l].after != xs[f].before;
  }

  /** No earlier exchange of a protocol ends in the interface that its last one ends in. */
  predicate LastEndsAnew(xs: seq<Exchange>) {
    forall i, k | 0 <= i < k < |xs| && xs[i].g == xs[k].g && Last(xs, xs[k].g) == k :: xs[i].after != xs[k].after
  }

  /** The last exchange of each protocol started from the interface there was at first. */
  predicate LastStartsAtFirst(p: Protocols, xs: seq<Exchange>) {
    forall k | 0 <= k < |xs| && Last(xs, xs[k].g) == k :: xs[k].g in p && xs[k].before == p[xs[k].g]
  }

  /** Undoing forward gives each protocol the interface its last exchange started from; so it restores
      everything exactly when that is the one there was at first. */
  lemma UndoneIff(p: Protocols, xs: seq<Exchange>)
    requires AllApply(p, xs) && LastEndsAnew(xs)
    ensures Undone(Exchanged(p, xs), xs) == p <==> LastStartsAtFirst(p, xs)
  {
    var u := Undone(Exchanged(p, xs), xs);
    forall k | 0 <= k < |xs| && Last(xs, xs[k].g) == k
      ensures xs[k].g in p && xs[k].g in u && u[xs[k].g] == xs[k].before
    {
      var f := FirstFinds(p, xs, k);
      UndoneAt(p, xs, xs[k].g);
    }
    if LastStartsAtFirst(p, xs) {
      forall g
        ensures g in u <==> g in p
        ensures g in p ==> u[g] == p[g]
      {
        UndoneKeys(Exchanged(p, xs), xs, g);
        ExchangedAt(p, xs, g);
        if Last(xs, g) < 0 {
          UndoneSame(p, xs, g);
        }
      }
    }
  }

  /** Where undoing the list forward takes a protocol from an interface: back over every exchange that
      ends in the one reached so far. */
  function Rewound(v: interface, xs: seq<Exchange>, g: guid): interface {
    if xs == [] then v
    else
      var w, x := Rewound(v, xs[..|xs| - 1], g), xs[|xs| - 1];
      if x.g == g && x.after == w then x.before else w
  }

  lemma {:induction false} UndoneIsRewound(p: Protocols, xs: seq<Exchange>, g: guid)
    requires g in p
    ensures g in Undone(p, xs) && Undone(p, xs)[g] == Rewound(p[g], xs, g)
  {
    if xs != [] {
      UndoneIsRewound(p, xs[..|xs| - 1], g);
    }
  }

  /** For any list at all: undoing restores everything exactly when rewinding each protocol from its last
      interface ends at the first one. */
  lemma UndoneIffRewound(p: Protocols, xs: seq<Exchange>)
    requires AllApply(p, xs)
    ensures Undone(Exchanged(p, xs), xs) == p
            <==> forall k | 0 <= k < |xs| && Last(xs, xs[k].g) == k :: Rewinds(p, xs, k)
  {
    var e := Exchanged(p, xs);
    var u := Undone(e, xs);
    forall k | 0 <= k < |xs| && Last(xs, xs[k].g) == k
      ensures var g := xs[k].g; g in p && g in u && u[g] == Rewound(xs[k].after, xs, g)
    {
      var f := FirstFinds(p, xs, k);
      ExchangedAt(p, xs, xs[k].g);
      UndoneIsRewound(e, xs, xs[k].g);
    }
    if forall k | 0 <= k < |xs| && Last(xs, xs[k].g) == k :: Rewinds(p, xs, k) {
      forall g
        ensures g in u <==> g in p
        ensures g in p ==> u[g] == p[g]
      {
        UndoneKeys(e, xs, g);
        ExchangedAt(p, xs, g);
        if Last(xs, g) < 0 {
          UndoneSame(p, xs, g);
        } else {
          assert Rewinds(p, xs, Last(xs, g));
        }
      }
    }
  }

  /** The protocol of exchange k is rewound to what it was at first. */
  predicate Rewinds(p: Protocols, xs: seq<Exchange>, k: nat)
    requires k < |xs|
  {
    xs[k].g in p && Rewound(xs[k].after, xs, xs[k].g) == p[xs[k].g]
  }

  /** When no protocol ever returns to a former interface, that is to say that the protocols are pairwise
      distinct. */
  lemma NeverReturningIff(p: Protocols, xs: seq<Exchange>)
    requires AllApply(p, xs) && NeverReturns(xs)
    ensures Undone(Exchanged(p, xs), xs) == p <==> DistinctProtocols(xs)
  {
    if DistinctProtocols(xs) {
      DistinctUndone(p, xs);
    } else {
      var i, j :| 0 <= i < j < |xs| && xs[i].g == xs[j].g;
      RepeatedNotUndone(p, xs, i, j);
    }
  }

  /** A protocol exchanged there, back and away again is restored although it is repeated. */
  lemma RestoredExample()
    ensures var p: Protocols, xs := map[1 := 10], [Exchange(1, 10, 11), Exchange(1, 11, 10), Exchange(1, 10, 12)];
            AllApply(p, xs) && !DistinctProtocols(xs) && Undone(Exchanged(p, xs), xs) == p
  {
    var p: Protocols, xs := map[1 := 10], [Exchange(1, 10, 11), Exchange(1, 11, 10), Exchange(1, 10, 12)];
    ThreeExchanges(p, xs[0], xs[1], xs[2]);
    assert xs == [xs[0], xs[1], xs[2]];
    hide AllApply, Exchanged, Undone;
    assert xs[0].g == xs[1].g;
    assert Last(xs, 1) == 2;
    assert LastEndsAnew(xs) && LastStartsAtFirst(p, xs);
    UndoneIff(p, xs);
  }

  lemma ThreeExchanges(p: Protocols, x: Exchange, y: Exchange, z: Exchange)
    requires Applies(p, x) && Applies(p[x.g := x.after], y) && Applies(p[x.g := x.after][y.g := y.after], z)
    ensures AllApply(p, [x, y, z])
  {
    OneMoreExchange(p, [], x);
    assert [] + [x] == [x] && [x] + [y] == [x, y] && [x, y] + [z] == [x, y, z];
    assert AllApply(p, []) && Exchanged(p, []) == p;
    hide AllApply, Exchanged, Applies;
    OneMoreExchange(p, [x], y);
    OneMoreExchange(p, [x, y], z);
  }

  lemma OneMoreExchange(p: Protocols, xs: seq<Exchange>, x: Exchange)
    requires AllApply(p, xs) && Applies(Exchanged(p, xs), x)
    ensures AllApply(p, xs + [x]) && Exchanged(p, xs + [x]) == Exchanged(p, xs)[x.g := x.after]
  {
    assert (xs + [x])[..|xs|] == xs;
  }

  /** Two exchanges of one protocol, then a failure: the protocol is left half way. */
  lemma RepeatedExample()
    ensures var p: Protocols, xs := map[1 := 10], [Exchange(1, 10, 11), Exchange(1, 11, 12)];
            AllApply(p, xs) && Undone(Exchanged(p, xs), xs) != p
  {
    var p: Protocols, xs := map[1 := 10], [Exchange(1, 10, 11), Exchange(1, 11, 12)];
    var one := [Exchange(1, 10, 11)];
    assert xs[..1] == one && one[..0] == [];
    assert Exchanged(p, one) == map[1 := 11] && AllApply(p, one);
    NeverReturningIff(p, xs);
  }

  /** Each protocol has the interface of its last exchange, and everything else is as before. */
  ghost predicate OnlyExchanged(before: Database, after: Database, h: handle, xs: seq<Exchange>) {
    && (forall k | 0 <= k < |xs| && (forall j | k < j < |xs| :: xs[j].g != xs[k].g) ::
          h in after && xs[k].g in after[h] && after[h][xs[k].g] == xs[k].after)
    && (forall o :: o in after <==> o in before)
    && (forall o | o in before && o != h :: after[o] == before[o])
    && (h in before ==> forall g :: g in after[h] <==> g in before[h])
    && (h in before ==> forall g | g in before[h] && (forall k | 0 <= k < |xs| :: xs[k].g != g) :: after[h][g] == before[h][g])
  }

  lemma ExchangedInPlainTerms(before: Database, h: handle, xs: seq<Exchange>)
    requires NoEmptyHandles(before) && AllApply(On(before, h), xs)
    ensures OnlyExchanged(before, With(before, h, Exchanged(On(before, h), xs)), h, xs)
  {
    var p := On(before, h);
    var e := Exchanged(p, xs);
    forall g: guid
      ensures g in e <==> g in p
      ensures g in p ==> e[g] == if Last(xs, g) < 0 then p[g] else xs[Last(xs, g)].after
    {
      ExchangedAt(p, xs, g);
    }
    forall k | 0 <= k < |xs| && (forall j | k < j < |xs| :: xs[j].g != xs[k].g)
      ensures xs[k].g in e && e[xs[k].g] == xs[k].after
    {
      var f := FirstFinds(p, xs, k);
      assert Last(xs, xs[k].g) == k;
    }
    assert e.Keys == p.Keys;
  }

  /** What undoing n exchanges means for the database. */
  lemma Restored(db: Database, h: handle, xs: seq<Exchange>, n: nat)
    requires NoEmptyHandles(db) && n <= |xs| && AllApply(On(db, h), xs[..n])
    ensures var p, done := On(db, h), xs[..n];
            var left := With(db, h, Undone(Exchanged(p, done), done));
            && (DistinctProtocols(xs) ==> left == db)
            && (LastEndsAnew(done) ==> (left == db <==> LastStartsAtFirst(p, done)))
  {
    var p, done := On(db, h), xs[..n];
    var u := Undone(Exchanged(p, done), done);
    WithOwn(db, h);
    WithWith(db, h, u, u);
    if DistinctProtocols(xs) {
      DistinctUndone(p, done);
    }
    if LastEndsAnew(done) {
      UndoneIff(p, done);
    }
  }

  /** `LibReinstallProtocolInterfaces`. The handle is the value passed to the service, which in the
      source is the caller's pointer to the handle. */
  method LibReinstallProtocolInterfaces(bs: BootServices, h: handle, xs: seq<Exchange>)
    returns (status: Status, ghost index: nat, ghost undo: nat)
    requires bs.Valid() && bs.tpl <= TPL_NOTIFY
    modifies bs`db, bs`calls, bs`tpl, bs`exposed
    ensures bs.exposed == old(bs.exposed)
    ensures bs.Valid() && bs.tpl == old(bs.tpl) && index <= |xs| && undo <= bs.calls
    ensures AllApply(On(old(bs.db), h), xs[..index])
    ensures status == Success ==>
              AllApply(On(old(bs.db), h), xs) && bs.db == With(old(bs.db), h, Exchanged(On(old(bs.db), h), xs))
    ensures status == Success ==> OnlyExchanged(old(bs.db), bs.db, h, xs)
    ensures status != Success && bs.GrantedSince(undo) ==>
              bs.db == With(old(bs.db), h, Undone(Exchanged(On(old(bs.db), h), xs[..index]), xs[..index]))
    ensures status != Success && bs.GrantedSince(undo) && DistinctProtocols(xs) ==> bs.db == old(bs.db)
    ensures status != Success && bs.GrantedSince(undo) && LastEndsAnew(xs[..index]) ==>
              (bs.db == old(bs.db) <==> LastStartsAtFirst(On(old(bs.db), h), xs[..index]))
    ensures AllApply(On(old(bs.db), h), xs) && (forall k | old(bs.calls) <= k < old(bs.calls) + |xs| :: bs.grants(k)) ==>
              status == Success
  {
    var oldTpl := bs.RaiseTPL(TPL_NOTIFY);
    var n: nat;
    status, n := ExchangeItems(bs, h, xs);
    index, undo := n, bs.calls;
    assert xs[..|xs|] == xs;
    if status != Success {
      UndoExchanges(bs, h, xs[..n], old(bs.db), Exchanged(On(old(bs.db), h), xs[..n]));
      Restored(old(bs.db), h, xs, n);
    } else {
      ExchangedInPlainTerms(old(bs.db), h, xs);
    }
    bs.RestoreTPL(oldTpl);
  }

  /** The first loop: how far it gets. */
  method ExchangeItems(bs: BootServices, h: handle, xs: seq<Exchange>) returns (status: Status, index: nat)
    requires bs.Valid()
    modifies bs`db, bs`calls, bs`exposed
    ensures bs.tpl >= 16 ==> bs.exposed == old(bs.exposed)
    ensures bs.Valid() && index <= |xs| && (status == Success <==> index == |xs|)
    ensures AllApply(On(old(bs.db), h), xs[..index])
    ensures bs.db == With(old(bs.db), h, Exchanged(On(old(bs.db), h), xs[..index]))
    ensures AllApply(On(old(bs.db), h), xs) && (forall k | old(bs.calls) <= k < old(bs.calls) + |xs| :: bs.grants(k)) ==>
              status == Success
  {
    index, status := 0, Success;
    ghost var p := On(bs.db, h);
    WithOwn(bs.db, h);
    while index < |xs|
      invariant bs.tpl >= 16 ==> bs.exposed == old(bs.exposed)
      invariant bs.Valid() && index <= |xs| && status == Success && bs.calls == old(bs.calls) + index
      invariant AllApply(p, xs[..index]) && bs.db == With(old(bs.db), h, Exchanged(p, xs[..index]))
    {
      WithWith(old(bs.db), h, Exchanged(p, xs[..index]), Exchanged(p, xs[..index])[xs[index].g := xs[index].after]);
      status := bs.ReinstallProtocolInterface(h, xs[index].g, xs[index].before, xs[index].after);
      if status != Success {
        if AllApply(p, xs) {
          AllApplyPrefix(p, xs, index);
        }
        return;
      }
      assert xs[..index + 1][..index] == xs[..index];
      index := index + 1;
    }
    assert xs[..index] == xs;
  }

  /** The undo loop. */
  method UndoExchanges(bs: BootServices, h: handle, xs: seq<Exchange>, ghost db0: Database, ghost p: Protocols)
    requires bs.Valid() && bs.db == With(db0, h, p)
    modifies bs`db, bs`calls, bs`exposed
    ensures bs.tpl >= 16 ==> bs.exposed == old(bs.exposed)
    ensures bs.Valid() && bs.calls >= old(bs.calls)
    ensures bs.GrantedSince(old(bs.calls)) ==> bs.db == With(db0, h, Undone(p, xs))
  {
    var k: nat := 0;
    while k < |xs|
      invariant bs.tpl >= 16 ==> bs.exposed == old(bs.exposed)
      invariant k <= |xs| && bs.Valid() && bs.calls == old(bs.calls) + k
      invariant bs.GrantedSince(old(bs.calls)) ==> bs.db == With(db0, h, Undone(p, xs[..k]))
    {
      WithWith(db0, h, Undone(p, xs[..k]), Undone(p, xs[..k])[xs[k].g := xs[k].before]);
      assert xs[..k + 1][..k] == xs[..k];
      var _ := bs.ReinstallProtocolInterface(h, xs[k].g, xs[k].after, xs[k].before);
      k := k + 1;
    }
    assert xs[..k] == xs;
  }
}

/** The circular doubly linked list macros of `inc/efilink.h`. The links are heap fields;
    a ghost sequence names the nodes of a ring in Flink order. */
module LinkedList {

  class ListEntry {
    var Flink: ListEntry?
    var Blink: ListEntry?

    constructor () {
      Flink, Blink := null, null;
    }
  }

  function Next(i: int, n: int): int {
    if i + 1 == n then 0 else i + 1
  }

  function Prev(i: int, n: int): int {
    if i == 0 then n - 1 else i - 1
  }

  /** Going forward visits r in order and returns to its start; Blink undoes Flink. */
  ghost predicate Ring(r: seq<ListEntry>)
    reads r
  {
    && |r| > 0
    && (forall i, j | 0 <= i < j < |r| :: r[i] != r[j])
    && (forall i | 0 <= i < |r| :: r[i].Flink == r[Next(i, |r|)] && r[i].Blink == r[Prev(i, |r|)])
  }

  /** A list is its head followed by its entries. */
  ghost predicate List(head: ListEntry, entries: seq<ListEntry>)
    reads [head] + entries
  {
    Ring([head] + entries)
  }

  /** Flink leads from the head through the entries in order and back to it, Blink the other way. */
  lemma ListInLinks(head: ListEntry, entries: seq<ListEntry>, k: nat)
    requires List(head, entries) && k < |entries|
    ensures head.Flink == entries[0] && entries[0].Blink == head
    ensures head.Blink == entries[|entries| - 1] && entries[|entries| - 1].Flink == head
    ensures k + 1 < |entries| ==> entries[k].Flink == entries[k + 1] && entries[k + 1].Blink == entries[k]
  {
    var r := [head] + entries;
    assert r[0].Flink == r[Next(0, |r|)] && r[0].Blink == r[Prev(0, |r|)];
    assert r[1].Blink == r[Prev(1, |r|)] && r[|r| - 1].Flink == r[Next(|r| - 1, |r|)];
    assert r[k + 1].Flink == r[Next(k + 1, |r|)];
    assert k + 1 < |entries| ==> r[k + 2].Blink == r[Prev(k + 2, |r|)];
  }

  /** The links alone decide which nodes a list has and in which order. */
  lemma RingIsUnique(r: seq<ListEntry>, q: seq<ListEntry>)
    requires Ring(r) && Ring(q) && r[0] == q[0]
    ensures r == q
  {
    var n := if |r| < |q| then |r| else |q|;
    var x, y := r[n - 1].Flink, q[n - 1].Flink;
    assert x == r[Next(n - 1, |r|)] && y == q[Next(n - 1, |q|)];
    SameStart(r, q, n);
  }

  lemma {:induction false} SameStart(r: seq<ListEntry>, q: seq<ListEntry>, n: nat)
    requires Ring(r) && Ring(q) && r[0] == q[0] && n <= |r| && n <= |q|
    ensures forall i | 0 <= i < n :: r[i] == q[i]
  {
    if n > 1 {
      SameStart(r, q, n - 1);
      assert r[n - 2].Flink == r[n - 1] && q[n - 2].Flink == q[n - 1];
    }
  }

  // ---------------------------------------------------------------------------
  // The macros
  // ---------------------------------------------------------------------------

  method InitializeListHead(head: ListEntry)
    modifies head
    ensures List(head, [])
    ensures head.Flink == head && head.Blink == head
  {
    head.Flink := head;
    head.Blink := head;
  }

  method IsListEmpty(head: ListEntry, ghost entries: seq<ListEntry>) returns (empty: bool)
    requires List(head, entries)
    ensures empty <==> entries == []
  {
    ghost var r := [head] + entries;
    assert r[0].Flink == r[Next(0, |r|)];
    empty := head.Flink == head;
  }

  method InsertHeadList(head: ListEntry, entry: ListEntry, ghost entries: seq<ListEntry>)
    requires List(head, entries) && entry != head && entry !in entries
    modifies {head, entry} + set e | e in entries
    ensures List(head, [entry] + entries)
    ensures head.Flink == entry && entry.Blink == head && entry.Flink == old(head.Flink)
    ensures old(head.Flink) != null && old(head.Flink).Blink == entry
  {
    ghost var r := [head] + entries;
    ghost var n := |r|;
    var flink := head.Flink;
    assert flink == r[Next(0, n)];
    entry.Flink := flink;
    entry.Blink := head;
    flink.Blink := entry;
    head.Flink := entry;
    forall k | 1 <= k < n
      ensures r[k].Flink == r[Next(k, n)]
    {
      assert r[k] != head && r[k] != entry;
    }
    forall k | 0 <= k < n && k != Next(0, n)
      ensures r[k].Blink == r[Prev(k, n)]
    {
      assert r[k] != flink && r[k] != entry;
    }
    InsertedAt([head] + ([entry] + entries), r, entry, 1);
  }

  method InsertTailList(head: ListEntry, entry: ListEntry, ghost entries: seq<ListEntry>)
    requires List(head, entries) && entry != head && entry !in entries
    modifies {head, entry} + set e | e in entries
    ensures List(head, entries + [entry])
    ensures head.Blink == entry && entry.Flink == head && entry.Blink == old(head.Blink)
    ensures old(head.Blink) != null && old(head.Blink).Flink == entry
  {
    ghost var r := [head] + entries;
    ghost var n := |r|;
    var blink := head.Blink;
    assert blink == r[Prev(0, n)];
    entry.Flink := head;
    entry.Blink := blink;
    blink.Flink := entry;
    head.Blink := entry;
    forall k | 0 <= k < n && k != Prev(0, n)
      ensures r[k].Flink == r[Next(k, n)]
    {
      assert r[k] != blink && r[k] != entry;
    }
    forall k | 1 <= k < n
      ensures r[k].Blink == r[Prev(k, n)]
    {
      assert r[k] != head && r[k] != entry;
    }
    InsertedAt([head] + (entries + [entry]), r, entry, n);
  }

  /** A ring with a new entry linked in between position at - 1 and position at. */
  lemma InsertedAt(q: seq<ListEntry>, r: seq<ListEntry>, entry: ListEntry, at: nat)
    requires 1 <= at <= |r| && q == r[..at] + [entry] + r[at..]
    requires entry !in r && forall i, j | 0 <= i < j < |r| :: r[i] != r[j]
    requires var n := |r|; var after := if at == n then 0 else at;
             && entry.Flink == r[after] && entry.Blink == r[at - 1]
             && r[at - 1].Flink == entry && r[after].Blink == entry
             && (forall k | 0 <= k < n && k != at - 1 :: r[k].Flink == r[Next(k, n)])
             && (forall k | 0 <= k < n && k != after :: r[k].Blink == r[Prev(k, n)])
    ensures Ring(q)
  {
    DistinctWith(q, r, entry, at);
    InsertedForward(q, r, entry, at);
    InsertedBackward(q, r, entry, at);
  }

  lemma InsertedForward(q: seq<ListEntry>, r: seq<ListEntry>, entry: ListEntry, at: nat)
    requires 1 <= at <= |r| && q == r[..at] + [entry] + r[at..]
    requires entry.Flink == r[if at == |r| then 0 else at] && r[at - 1].Flink == entry
    requires forall k | 0 <= k < |r| && k != at - 1 :: r[k].Flink == r[Next(k, |r|)]
    ensures forall j | 0 <= j < |q| :: q[j].Flink == q[Next(j, |q|)]
  {
    forall j | 0 <= j < |q|
      ensures q[j].Flink == q[Next(j, |q|)]
    {
      if j < at - 1 {
        assert q[j] == r[j] && q[j + 1] == r[j + 1];
      } else if j > at {
        assert q[j] == r[j - 1] && q[Next(j, |q|)] == r[Next(j - 1, |r|)];
      }
    }
  }

  lemma InsertedBackward(q: seq<ListEntry>, r: seq<ListEntry>, entry: ListEntry, at: nat)
    requires 1 <= at <= |r| && q == r[..at] + [entry] + r[at..]
    requires entry.Blink == r[at - 1] && r[if at == |r| then 0 else at].Blink == entry
    requires forall k | 0 <= k < |r| && k != (if at == |r| then 0 else at) :: r[k].Blink == r[Prev(k, |r|)]
    ensures forall j | 0 <= j < |q| :: q[j].Blink == q[Prev(j, |q|)]
  {
    forall j | 0 <= j < |q|
      ensures q[j].Blink == q[Prev(j, |q|)]
    {
      if j < at {
        assert q[j] == r[j];
        if j > 0 {
          assert q[j - 1] == r[j - 1];
        } else if at < |r| {
          assert q[|q| - 1] == r[|r| - 1];
        }
      } else if j > at + 1 {
        assert q[j] == r[j - 1] && q[j - 1] == r[j - 2];
      }
    }
  }

  lemma DistinctWith(q: seq<ListEntry>, r: seq<ListEntry>, entry: ListEntry, at: nat)
    requires at <= |r| && q == r[..at] + [entry] + r[at..]
    requires entry !in r && forall i, j | 0 <= i < j < |r| :: r[i] != r[j]
    ensures forall i, j | 0 <= i < j < |q| :: q[i] != q[j]
  {}

  function Without(r: seq<ListEntry>, k: nat): (q: seq<ListEntry>)
    requires k < |r|
    ensures |q| == |r| - 1
  {
    r[..k] + r[k + 1..]
  }

  /** The body of `_RemoveEntryList`: any node of a larger ring is bypassed. */
  method Unlink(entry: ListEntry, ghost r: seq<ListEntry>, ghost at: nat)
    requires Ring(r) && |r| > 1 && at < |r| && r[at] == entry
    modifies (set e | e in r) - {entry}
    ensures Ring(Without(r, at))
    ensures old(entry.Blink) != null && old(entry.Blink).Flink == old(entry.Flink)
    ensures old(entry.Flink) != null && old(entry.Flink).Blink == old(entry.Blink)
  {
    ghost var n := |r|;
    var flink := entry.Flink;
    var blink := entry.Blink;
    assert flink == r[Next(at, n)] && blink == r[Prev(at, n)];
    blink.Flink := flink;
    flink.Blink := blink;
    assert forall j | 0 <= j < n && j != Prev(at, n) :: r[j].Flink == r[Next(j, n)];
    assert forall j | 0 <= j < n && j != Next(at, n) :: r[j].Blink == r[Prev(j, n)];
    Bypassed(r, at);
  }

  lemma Bypassed(r: seq<ListEntry>, at: nat)
    requires |r| > 1 && at < |r|
    requires forall i, j | 0 <= i < j < |r| :: r[i] != r[j]
    requires var n := |r|; var before, after := Prev(at, n), Next(at, n);
             && r[before].Flink == r[after] && r[after].Blink == r[before]
             && (forall k | 0 <= k < n && k != before :: r[k].Flink == r[Next(k, n)])
             && (forall k | 0 <= k < n && k != after :: r[k].Blink == r[Prev(k, n)])
    ensures Ring(Without(r, at))
  {
    var q, n := Without(r, at), |r| - 1;
    forall k | 0 <= k < n
      ensures q[k] == r[Kept(at, k)]
    {}
    DistinctWithout(r, at);
    forall k | 0 <= k < n
      ensures q[k].Flink == q[Next(k, n)]
    {
      KeptNeighbours(at, k, n);
    }
    forall k | 0 <= k < n
      ensures q[k].Blink == q[Prev(k, n)]
    {
      KeptNeighbours(at, k, n);
    }
  }

  lemma DistinctWithout(r: seq<ListEntry>, at: nat)
    requires at < |r| && forall i, j | 0 <= i < j < |r| :: r[i] != r[j]
    ensures forall i, j | 0 <= i < j < |r| - 1 :: Without(r, at)[i] != Without(r, at)[j]
  {}

  /** Where position k of a ring without position `at` comes from. */
  function Kept(at: nat, k: int): int {
    if k < at then k else k + 1
  }

  lemma KeptNeighbours(at: nat, k: nat, n: nat)
    requires at <= n && k < n
    ensures Kept(at, Next(k, n)) == if Kept(at, k) == Prev(at, n + 1) then Next(at, n + 1)
                                    else Next(Kept(at, k), n + 1)
    ensures Kept(at, Prev(k, n)) == if Kept(at, k) == Next(at, n + 1) then Prev(at, n + 1)
                                    else Prev(Kept(at, k), n + 1)
  {}

  /** The links of the removed entry itself are left as they were (outside EFI_DEBUG builds). */
  method RemoveEntryList(ghost head: ListEntry, entry: ListEntry, ghost entries: seq<ListEntry>, ghost k: nat)
    requires List(head, entries) && k < |entries| && entries[k] == entry
    modifies {head} + (set e | e in entries) - {entry}
    ensures List(head, Without(entries, k))
    ensures entry.Flink == old(entry.Flink) && entry.Blink == old(entry.Blink)
    ensures old(entry.Blink) != null && old(entry.Blink).Flink == old(entry.Flink)
    ensures old(entry.Flink) != null && old(entry.Flink).Blink == old(entry.Blink)
  {
    hide Ring, Without;
    WithoutBehindHead(head, entries, k);
    Unlink(entry, [head] + entries, k + 1);
  }

  lemma WithoutBehindHead(head: ListEntry, entries: seq<ListEntry>, k: nat)
    requires k < |entries|
    ensures ([head] + entries)[k + 1] == entries[k]
    ensures Without([head] + entries, k + 1) == [head] + Without(entries, k)
  {}

  /** Position in front of r[i] once r[j] is taken out; in front of the first node of a ring
      is behind its last. */
  function TargetPosition(n: nat, i: nat, j: nat): (at: nat)
    requires i < n && j < n && i != j
    ensures 1 <= at < n
  {
    var p := if j < i then i - 1 else i;
    if p == 0 then n - 1 else p
  }

  /** The order after moving node j in front of node i. */
  function MovedBefore(r: seq<ListEntry>, i: nat, j: nat): seq<ListEntry>
    requires i < |r| && j < |r| && i != j
  {
    var q, at := Without(r, j), TargetPosition(|r|, i, j);
    q[..at] + [r[j]] + q[at..]
  }

  /** What is left of a ring when Entry2 has been tied to itself: forward the other nodes still follow
      each other, but the way back from Entry1 leads to Entry2. */
  ghost predicate CutOff(q: seq<ListEntry>, entry1: ListEntry, entry2: ListEntry)
    reads q
  {
    && (forall k | 0 <= k < |q| :: q[k].Flink == q[Next(k, |q|)])
    && (forall k | 0 <= k < |q| :: q[k].Blink == if q[k] == entry1 then entry2 else q[Prev(k, |q|)])
  }

  /** `SwapListEntries` puts Entry2 before Entry1, unless Entry2 already is there: then Entry2 becomes
      a ring of its own, the rest is cut off from it, and no ring has Entry1 any more. */
  method SwapListEntries(entry1: ListEntry, entry2: ListEntry, ghost r: seq<ListEntry>, ghost i: nat, ghost j: nat)
    requires Ring(r) && i < |r| && j < |r| && i != j && r[i] == entry1 && r[j] == entry2
    modifies set e | e in r
    ensures j != Prev(i, |r|) ==> Ring(MovedBefore(r, i, j)) && entry2.Flink == entry1 && entry1.Blink == entry2
    ensures j == Prev(i, |r|) ==> Ring([entry2]) && CutOff(Without(r, j), entry1, entry2)
    ensures j == Prev(i, |r|) ==>
              forall q: seq<ListEntry> | Within(q, r) && (entry1 in q || entry2 in q) && Ring(q) :: q == [entry2]
  {
    var entry1Blink := entry1.Blink;
    assert entry1Blink == r[Prev(i, |r|)];
    Unlink(entry2, r, j);
    PutBefore(entry1, entry2, entry1Blink, r, i, j);
  }

  /** The second half of `SwapListEntries`, with the pointer read before the first. */
  method PutBefore(entry1: ListEntry, entry2: ListEntry, entry1Blink: ListEntry,
                   ghost r: seq<ListEntry>, ghost i: nat, ghost j: nat)
    requires i < |r| && j < |r| && i != j && r[i] == entry1 && r[j] == entry2
    requires entry1Blink == r[Prev(i, |r|)]
    requires (forall a, b | 0 <= a < b < |r| :: r[a] != r[b]) && Ring(Without(r, j))
    modifies {entry1, entry2, entry1Blink}
    ensures j != Prev(i, |r|) ==> Ring(MovedBefore(r, i, j)) && entry2.Flink == entry1 && entry1.Blink == entry2
    ensures j == Prev(i, |r|) ==> Ring([entry2]) && CutOff(Without(r, j), entry1, entry2)
    ensures j == Prev(i, |r|) ==>
              forall q: seq<ListEntry> | Within(q, r) && (entry1 in q || entry2 in q) && Ring(q) :: q == [entry2]
  {
    hide Ring, Within, MovedBefore, Without;
    ghost var q, at := Without(r, j), TargetPosition(|r|, i, j);
    RingLinks(q);
    ghost var n := |q|;
    ghost var after := if at == n then 0 else at;
    TargetNeighbours(r, i, j);
    StoreLinks(entry1, entry2, entry1Blink, q);
    if j != Prev(i, |r|) {
      assert forall k | 0 <= k < n && k != at - 1 :: q[k] != entry1Blink && q[k].Flink == q[Next(k, n)];
      assert forall k | 0 <= k < n && k != after :: q[k] != entry1 && q[k].Blink == q[Prev(k, n)];
      LinkedBefore(r, i, j);
    } else {
      assert entry1Blink == entry2;
      SelfLoop(entry1, entry2, r);
    }
  }

  lemma LinkedBefore(r: seq<ListEntry>, i: nat, j: nat)
    requires i < |r| && j < |r| && i != j && (forall a, b | 0 <= a < b < |r| :: r[a] != r[b])
    requires var q, at, n := Without(r, j), TargetPosition(|r|, i, j), |r| - 1;
             var after := if at == n then 0 else at;
             && r[j] !in q && (forall a, b | 0 <= a < b < n :: q[a] != q[b])
             && r[j].Flink == q[after] && r[j].Blink == q[at - 1] && q[at - 1].Flink == r[j] && q[after].Blink == r[j]
             && (forall k | 0 <= k < n && k != at - 1 :: q[k].Flink == q[Next(k, n)])
             && (forall k | 0 <= k < n && k != after :: q[k].Blink == q[Prev(k, n)])
    ensures Ring(MovedBefore(r, i, j))
  {
    hide Ring, Without;
    InsertedAt(MovedBefore(r, i, j), Without(r, j), r[j], TargetPosition(|r|, i, j));
  }

  lemma RingLinks(r: seq<ListEntry>)
    requires Ring(r)
    ensures |r| > 0 && forall i | 0 <= i < |r| :: r[i].Flink == r[Next(i, |r|)] && r[i].Blink == r[Prev(i, |r|)]
  {}

  /** The four stores; nothing else of a ring without Entry2 changes. */
  method StoreLinks(entry1: ListEntry, entry2: ListEntry, entry1Blink: ListEntry, ghost q: seq<ListEntry>)
    requires entry1 != entry2 && entry1 != entry1Blink && entry2 !in q
    modifies {entry1, entry2, entry1Blink}
    ensures entry2.Flink == (if entry1Blink == entry2 then entry2 else entry1) && entry2.Blink == entry1Blink
    ensures entry1Blink.Flink == entry2 && entry1.Blink == entry2
    ensures forall e | e in q && e != entry1Blink :: e.Flink == old(e.Flink)
    ensures forall e | e in q && e != entry1 :: e.Blink == old(e.Blink)
  {
    entry2.Flink := entry1;
    entry2.Blink := entry1Blink;
    entry1Blink.Flink := entry2;
    entry1.Blink := entry2;
  }

  lemma TargetNeighbours(r: seq<ListEntry>, i: nat, j: nat)
    requires i < |r| && j < |r| && i != j
    requires forall a, b | 0 <= a < b < |r| :: r[a] != r[b]
    ensures var q, at := Without(r, j), TargetPosition(|r|, i, j);
            && q[if at == |q| then 0 else at] == r[i]
            && (j != Prev(i, |r|) ==> q[at - 1] == r[Prev(i, |r|)])
            && r[j] !in q
            && forall a, b | 0 <= a < b < |q| :: q[a] != q[b]
  {
    DistinctWithout(r, j);
  }

  ghost predicate Within(q: seq<ListEntry>, r: seq<ListEntry>) {
    forall e | e in q :: e in r
  }

  lemma SelfLoop(entry1: ListEntry, entry2: ListEntry, r: seq<ListEntry>)
    requires entry1 != entry2 && entry2.Flink == entry2 == entry2.Blink && entry1.Blink == entry2
    ensures Ring([entry2])
    ensures forall q: seq<ListEntry> | Within(q, r) && (entry1 in q || entry2 in q) && Ring(q) :: q == [entry2]
  {
    forall q: seq<ListEntry> | Within(q, r) && (entry1 in q || entry2 in q) && Ring(q)
      ensures q == [entry2]
    {
      if entry1 in q {
        var k :| 0 <= k < |q| && q[k] == entry1;
        assert q[Prev(k, |q|)] == entry2;
      }
      var m :| 0 <= m < |q| && q[m] == entry2;
      assert q[Next(m, |q|)] == entry2;
      assert Next(m, |q|) == m;
    }
  }

  // ---------------------------------------------------------------------------
  // Runs
  // ---------------------------------------------------------------------------

  datatype Operation =
    | InsertHead(entry: ListEntry)
    | InsertTail(entry: ListEntry)
    | Remove(entry: ListEntry)
    | PutSecondFirst(entry1: ListEntry, entry2: ListEntry)

  function IndexOf(s: seq<ListEntry>, e: ListEntry): (k: nat)
    requires e in s
    ensures k < |s| && s[k] == e
  {
    if s[0] == e then 0 else 1 + IndexOf(s[1..], e)
  }

  /** What each macro may be used on; the last one not on neighbours already in order. In front of the
      head is behind the last entry. */
  predicate Enabled(head: ListEntry, entries: seq<ListEntry>, op: Operation) {
    match op
    case InsertHead(e) => e != head && e !in entries
    case InsertTail(e) => e != head && e !in entries
    case Remove(e) => e in entries
    case PutSecondFirst(e1, e2) =>
      && (e1 == head || e1 in entries) && e2 in entries && e1 != e2 && e2 != head
      && IndexOf(entries, e2) + 1 != Position(head, entries, e1)
  }

  /** Where an entry stands; the head, in a ring, behind the last one. */
  function Position(head: ListEntry, entries: seq<ListEntry>, e: ListEntry): (k: nat)
    requires e == head || e in entries
    ensures k <= |entries| && (e != head ==> k < |entries| && entries[k] == e)
  {
    if e == head then |entries| else IndexOf(entries, e)
  }

  function Apply(head: ListEntry, entries: seq<ListEntry>, op: Operation): seq<ListEntry>
    requires Enabled(head, entries, op)
  {
    match op
    case InsertHead(e) => [e] + entries
    case InsertTail(e) => entries + [e]
    case Remove(e) => Without(entries, IndexOf(entries, e))
    case PutSecondFirst(e1, e2) =>
      var rest := Without(entries, IndexOf(entries, e2));
      var i := Position(head, entries, e1);
      var at := if IndexOf(entries, e2) < i then i - 1 else i;
      rest[..at] + [e2] + rest[at..]
  }

  /** Removing takes the one entry out. */
  lemma RemovedIs(head: ListEntry, a: seq<ListEntry>, e: ListEntry, b: seq<ListEntry>)
    requires e !in a
    ensures Enabled(head, a + [e] + b, Remove(e)) && Apply(head, a + [e] + b, Remove(e)) == a + b
  {
    IndexBehind(a, e, b);
    TakenOut(a, e, b);
    hide IndexOf, Without;
  }

  lemma TakenOut(a: seq<ListEntry>, e: ListEntry, b: seq<ListEntry>)
    ensures e in a + [e] + b && Without(a + [e] + b, |a|) == a + b
  {
    assert (a + [e] + b)[|a|] == e;
  }

  lemma {:induction false} IndexBehind(a: seq<ListEntry>, e: ListEntry, b: seq<ListEntry>)
    requires e !in a
    ensures IndexOf(a + [e] + b, e) == |a|
  {
    if a != [] {
      assert (a + [e] + b)[1..] == a[1..] + [e] + b;
      IndexBehind(a[1..], e, b);
    }
  }

  /** Putting an entry in front of another, or of the head, which is last: the others keep their order. */
  lemma PutIs(head: ListEntry, s: seq<ListEntry>, e1: ListEntry, e2: ListEntry) returns (p: nat)
    requires Enabled(head, s, PutSecondFirst(e1, e2))
    ensures var t := Apply(head, s, PutSecondFirst(e1, e2)); var k := IndexOf(s, e2);
            && |t| == |s| && p < |t| && t[p] == e2
            && (if e1 == head then p + 1 == |t| else p + 1 < |t| && t[p + 1] == e1)
            && t[..p] + t[p + 1..] == s[..k] + s[k + 1..]
  {
    var i, k := Position(head, s, e1), IndexOf(s, e2);
    p := if k < i then i - 1 else i;
    RestAt(s, k, i);
    PutAt(head, s, e1, e2, p);
    hide IndexOf, Without, Apply;
    PutShape(Without(s, k), p, e2);
  }

  lemma PutAt(head: ListEntry, s: seq<ListEntry>, e1: ListEntry, e2: ListEntry, p: nat)
    requires Enabled(head, s, PutSecondFirst(e1, e2))
    requires var i, k := Position(head, s, e1), IndexOf(s, e2); p == if k < i then i - 1 else i
    ensures var rest := Without(s, IndexOf(s, e2));
            p <= |rest| && Apply(head, s, PutSecondFirst(e1, e2)) == rest[..p] + [e2] + rest[p..]
  {
    hide IndexOf, Without;
  }

  /** Where an element is once another one is taken out. */
  lemma RestAt(s: seq<ListEntry>, k: nat, i: nat)
    requires k < |s| && i <= |s| && i != k
    ensures Without(s, k) == s[..k] + s[k + 1..]
    ensures i < |s| ==> Without(s, k)[if k < i then i - 1 else i] == s[i]
  {}

  lemma PutShape(rest: seq<ListEntry>, p: nat, e: ListEntry)
    requires p <= |rest|
    ensures var t := rest[..p] + [e] + rest[p..];
            |t| == |rest| + 1 && t[p] == e && (p < |rest| ==> t[p + 1] == rest[p]) && t[..p] + t[p + 1..] == rest
  {}

  predicate EnabledRun(head: ListEntry, entries: seq<ListEntry>, ops: seq<Operation>)
    decreases |ops|
  {
    ops == [] || (Enabled(head, entries, ops[0]) && EnabledRun(head, Apply(head, entries, ops[0]), ops[1..]))
  }

  function ApplyRun(head: ListEntry, entries: seq<ListEntry>, ops: seq<Operation>): seq<ListEntry>
    requires EnabledRun(head, entries, ops)
    decreases |ops|
  {
    if ops == [] then entries else ApplyRun(head, Apply(head, entries, ops[0]), ops[1..])
  }

  function NodesOf(op: Operation): set<ListEntry> {
    match op
    case InsertHead(e) => {e}
    case InsertTail(e) => {e}
    case Remove(e) => {e}
    case PutSecondFirst(e1, e2) => {e1, e2}
  }

  lemma MovedBehindHead(head: ListEntry, entries: seq<ListEntry>, i: nat, j: nat)
    requires i <= |entries| && j < |entries| && i != j && j + 1 != i
    ensures var rest, at := Without(entries, j), if j < i then i - 1 else i;
            MovedBefore([head] + entries, if i == |entries| then 0 else i + 1, j + 1)
            == [head] + (rest[..at] + [entries[j]] + rest[at..])
  {
    var rest, at := Without(entries, j), if j < i then i - 1 else i;
    WithoutBehindHead(head, entries, j);
    hide Without;
    BehindHead(head, rest, entries[j], at);
  }

  lemma BehindHead(head: ListEntry, rest: seq<ListEntry>, e: ListEntry, at: nat)
    requires at <= |rest|
    ensures ([head] + rest)[..at + 1] + [e] + ([head] + rest)[at + 1..] == [head] + (rest[..at] + [e] + rest[at..])
  {
    assert ([head] + rest)[..at + 1] == [head] + rest[..at];
  }

  /** One macro, dispatched by name. */
  method Perform(head: ListEntry, ghost entries: seq<ListEntry>, op: Operation, ghost universe: set<ListEntry>)
    requires List(head, entries) && Enabled(head, entries, op)
    requires head in universe && (forall e | e in entries :: e in universe) && NodesOf(op) <= universe
    modifies universe
    ensures List(head, Apply(head, entries, op))
  {
    match op
    case InsertHead(e) => InsertHeadList(head, e, entries);
    case InsertTail(e) => InsertTailList(head, e, entries);
    case Remove(e) => RemoveEntryList(head, e, entries, IndexOf(entries, e));
    case PutSecondFirst(e1, e2) => SwapOnList(head, entries, e1, e2);
  }

  /** `SwapListEntries` on a list with a head. */
  method SwapOnList(head: ListEntry, ghost entries: seq<ListEntry>, e1: ListEntry, e2: ListEntry)
    requires List(head, entries) && Enabled(head, entries, PutSecondFirst(e1, e2))
    modifies {head} + (set e | e in entries)
    ensures List(head, Apply(head, entries, PutSecondFirst(e1, e2)))
  {
    hide Ring, CutOff, IndexOf, MovedBefore, Without;
    ghost var i, j := Position(head, entries, e1), IndexOf(entries, e2);
    MovedBehindHead(head, entries, i, j);
    SwapListEntries(e1, e2, [head] + entries, if i == |entries| then 0 else i + 1, j + 1);
  }

  /** Every run of the macros keeps a proper list, in the order of the same operations on a
      plain sequence. */
  method RunOperations(head: ListEntry, ghost entries: seq<ListEntry>, ops: seq<Operation>,
                       ghost universe: set<ListEntry>)
    requires List(head, entries) && EnabledRun(head, entries, ops)
    requires head in universe && (forall e | e in entries :: e in universe)
    requires forall k | 0 <= k < |ops| :: NodesOf(ops[k]) <= universe
    modifies universe
    ensures List(head, ApplyRun(head, entries, ops))
    decreases |ops|
  {
    if ops != [] {
      Perform(head, entries, ops[0], universe);
      ghost var next := Apply(head, entries, ops[0]);
      AppliedNodes(head, entries, ops[0]);
      RunOperations(head, next, ops[1..], universe);
    }
  }

  lemma AppliedNodes(head: ListEntry, entries: seq<ListEntry>, op: Operation)
    requires Enabled(head, entries, op)
    ensures forall e | e in Apply(head, entries, op) :: e in entries || e in NodesOf(op)
  {}
}

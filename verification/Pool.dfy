/** The buffer protocols of `lib/misc.c` and `lib/hand.c`: grow and try again until a service is
    satisfied, without losing a block of the pool or freeing one twice. */
module Pool {
  import opened Basics

  /** A pool block; 0 is NULL. */
  type block = nat

  datatype Status = Success | BufferTooSmall | OutOfResources | OtherError

  predicate IsError(s: Status) {
    s != Success
  }

  /** The firmware's pool: the blocks in use and what they hold. */
  class FirmwarePool {
    var live: map<block, seq<byte>>
    var next: block
    const grants: nat -> bool
    var calls: nat

    ghost predicate Valid()
      reads this
    {
      next > 0 && forall b | b in live :: 0 < b < next
    }

    constructor (answers: nat -> bool)
      ensures Valid() && live == map[] && grants == answers
    {
      live, next, grants, calls := map[], 1, answers, 0;
    }

    method AllocatePool(size: nat) returns (b: block)
      requires Valid()
      modifies this
      ensures Valid() && calls == old(calls) + 1 && (b != 0 <==> grants(old(calls)))
      ensures b == 0 ==> live == old(live)
      ensures b != 0 ==> b !in old(live) && b in live && |live[b]| == size && live == old(live)[b := live[b]]
    {
      var answer := grants(calls);
      calls := calls + 1;
      if !answer {
        return 0;
      }
      b := next;
      next := next + 1;
      live := live[b := seq(size, _ => 0)];
    }

    /** Only a block in use may be freed. */
    method FreePool(b: block)
      requires Valid() && b in live
      modifies this`live
      ensures Valid() && live == old(live) - {b}
    {
      live := live - {b};
    }

    /** Bytes from the start of a block on. */
    method Write(b: block, data: seq<byte>)
      requires Valid() && b in live && |data| <= |live[b]|
      modifies this`live
      ensures Valid() && live == old(live)[b := data + old(live)[b][|data|..]]
    {
      live := live[b := data + live[b][|data|..]];
    }
  }

  /** `ReallocatePool`: the old block is gone in any case, the new one starts like it. */
  method ReallocatePool(pool: FirmwarePool, oldPool: block, oldSize: nat, newSize: nat) returns (newPool: block)
    requires pool.Valid() && (oldPool != 0 ==> oldPool in pool.live && oldSize <= |pool.live[oldPool]|)
    modifies pool
    ensures pool.Valid()
    ensures newPool != 0 <==> newSize > 0 && pool.grants(old(pool.calls))
    ensures newPool == 0 ==> pool.live == old(pool.live) - {oldPool}
    ensures newPool != 0 ==>
              && newPool !in old(pool.live) && newPool in pool.live && |pool.live[newPool]| == newSize
              && pool.live == (old(pool.live) - {oldPool})[newPool := pool.live[newPool]]
              && (oldPool != 0 ==>
                    pool.live[newPool][..Min(oldSize, newSize)] == old(pool.live)[oldPool][..Min(oldSize, newSize)])
  {
    newPool := 0;
    if newSize != 0 {
      newPool := pool.AllocatePool(newSize);
    }
    if oldPool != 0 {
      if newPool != 0 {
        var n := Min(oldSize, newSize);
        pool.Write(newPool, pool.live[oldPool][..n]);
      }
      pool.FreePool(oldPool);
    }
  }

  /** `GrowBuffer`. */
  method GrowBuffer(pool: FirmwarePool, status: Status, buffer: block, size: nat)
    returns (tryAgain: bool, s: Status, b: block)
    requires pool.Valid() && (buffer != 0 ==> buffer in pool.live)
    modifies pool
    ensures pool.Valid()
    ensures tryAgain ==> s == BufferTooSmall && b != 0 && b !in old(pool.live) - {buffer} && b in pool.live
                         && |pool.live[b]| == size && pool.live == (old(pool.live) - {buffer})[b := pool.live[b]]
    ensures !tryAgain && IsError(s) ==> b == 0 && pool.live == old(pool.live) - {buffer}
    ensures !tryAgain && !IsError(s) ==> b == buffer && pool.live == old(pool.live) && status == Success
    ensures (buffer == 0 && size > 0) || status == BufferTooSmall ==>
              if pool.grants(old(pool.calls)) then tryAgain else !tryAgain && s == OutOfResources
    ensures !(buffer == 0 && size > 0) && status != BufferTooSmall ==> !tryAgain && s == status
  {
    s, b := status, buffer;
    if b == 0 && size != 0 {
      s := BufferTooSmall;
    }
    tryAgain := false;
    if s == BufferTooSmall {
      if b != 0 {
        pool.FreePool(b);
      }
      b := pool.AllocatePool(size);
      if b != 0 {
        tryAgain := true;
      } else {
        s := OutOfResources;
      }
    }
    if !tryAgain && IsError(s) && b != 0 {
      pool.FreePool(b);
      b := 0;
    }
  }

  /** A firmware service that fills a buffer. What it has to deliver may differ from call to call. */
  class Service {
    const data: nat -> seq<byte>
    const fails: nat -> bool
    var calls: nat

    constructor (answers: nat -> seq<byte>, failures: nat -> bool)
      ensures data == answers && fails == failures && calls == 0
    {
      data, fails, calls := answers, failures, 0;
    }

    /** The size that is needed comes back with BufferTooSmall, the size that is used with Success. */
    method Call(pool: FirmwarePool, buffer: block, size: nat) returns (status: Status, s: nat)
      requires pool.Valid() && buffer in pool.live && |pool.live[buffer]| == size
      modifies this`calls, pool`live
      ensures pool.Valid() && calls == old(calls) + 1
      ensures status == OtherError <==> fails(old(calls))
      ensures status == OtherError ==> s == size && pool.live == old(pool.live)
      ensures status == BufferTooSmall ==> s == |data(old(calls))| > size && pool.live == old(pool.live)
      ensures status == Success ==>
                && s == |data(old(calls))| <= size
                && pool.live == old(pool.live)[buffer := data(old(calls)) + old(pool.live)[buffer][s..]]
      ensures status != OutOfResources
    {
      var n := calls;
      calls := calls + 1;
      if fails(n) {
        return OtherError, size;
      }
      s := |data(n)|;
      if s > size {
        return BufferTooSmall, s;
      }
      pool.Write(buffer, data(n));
      status := Success;
    }
  }

  /** While a loop runs: the pool is as before but for one block, which has the size asked for. */
  ghost predicate OneMore(pool: FirmwarePool, live0: map<block, seq<byte>>, buffer: block, size: nat)
    reads pool
  {
    && pool.Valid() && buffer != 0 && buffer !in live0 && buffer in pool.live
    && |pool.live[buffer]| == size && pool.live == live0[buffer := pool.live[buffer]]
  }

  /** The outcome of a loop: one new block that starts with the data of the last call, or nothing. */
  ghost predicate Filled(pool: FirmwarePool, svc: Service, live0: map<block, seq<byte>>, status: Status, buffer: block, size: nat)
    reads pool, svc
  {
    && pool.Valid()
    && (status == Success ==>
          && svc.calls > 0 && size == |svc.data(svc.calls - 1)|
          && buffer != 0 && buffer !in live0 && buffer in pool.live && size <= |pool.live[buffer]|
          && pool.live[buffer][..size] == svc.data(svc.calls - 1)
          && pool.live == live0[buffer := pool.live[buffer]])
    && (IsError(status) ==> buffer == 0 && pool.live == live0)
  }

  /** The pool grants every request and the service never fails. */
  ghost predicate Reliable(pool: FirmwarePool, svc: Service) {
    (forall k :: pool.grants(k)) && (forall k :: !svc.fails(k))
  }

  /** The buffer of call k: the first has the size the loop starts with, each later one the size that the
      call before asked for. */
  ghost function Capacity(svc: Service, from: nat, first: nat, k: nat): nat {
    if k <= from then first else |svc.data(k - 1)|
  }

  /** The calls before call n asked for more than they got. */
  ghost predicate TooSmallUntil(svc: Service, from: nat, first: nat, n: int) {
    forall k | from <= k < n :: !svc.fails(k) && |svc.data(k)| > Capacity(svc, from, first, k)
  }

  /** A loop that succeeds does so at the first call with a buffer large enough. */
  ghost predicate FirstEnough(pool: FirmwarePool, svc: Service, from: nat, first: nat, status: Status, buffer: block)
    reads pool, svc
  {
    status == Success ==>
      && svc.calls > from && TooSmallUntil(svc, from, first, svc.calls - 1)
      && buffer in pool.live && |pool.live[buffer]| == Capacity(svc, from, first, svc.calls - 1)
  }

  /** One turn of such a loop. It goes on only with a larger buffer. */
  method Turn(pool: FirmwarePool, svc: Service, buffer: block, size: nat, ghost live0: map<block, seq<byte>>)
    returns (tryAgain: bool, status: Status, b: block, s: nat)
    requires OneMore(pool, live0, buffer, size) && size > 0
    modifies pool, svc`calls
    ensures svc.calls == old(svc.calls) + 1
    ensures tryAgain ==> OneMore(pool, live0, b, s) && size < s == |svc.data(svc.calls - 1)|
    ensures !tryAgain ==> Filled(pool, svc, live0, status, b, s)
    ensures !tryAgain ==> status != BufferTooSmall
    ensures tryAgain ==> !svc.fails(old(svc.calls))
    ensures !tryAgain && status == Success ==> b in pool.live && |pool.live[b]| == size
    ensures Reliable(pool, svc) && !tryAgain ==> status == Success
  {
    status, s := svc.Call(pool, buffer, size);
    ghost var filled := pool.live[buffer];
    tryAgain, status, b := GrowBuffer(pool, status, buffer, s);
    assert live0[buffer := filled] - {buffer} == live0;
  }

  /** What holds between two turns, and behind the last. */
  ghost predicate Running(pool: FirmwarePool, svc: Service, live0: map<block, seq<byte>>, from: nat, first: nat,
                          again: bool, status: Status, buffer: block, size: nat)
    reads pool, svc
  {
    svc.calls >= from &&
    if again
      then OneMore(pool, live0, buffer, size) && size > 0 && size == Capacity(svc, from, first, svc.calls)
           && TooSmallUntil(svc, from, first, svc.calls)
      else Filled(pool, svc, live0, status, buffer, size) && FirstEnough(pool, svc, from, first, status, buffer)
           && (Reliable(pool, svc) ==> status == Success)
  }

  /** The first buffer. */
  method Begin(pool: FirmwarePool, svc: Service, before: Status, first: nat)
    returns (again: bool, status: Status, buffer: block)
    requires pool.Valid() && first > 0
    modifies pool
    ensures Running(pool, svc, old(pool.live), svc.calls, first, again, status, buffer, first)
  {
    again, status, buffer := GrowBuffer(pool, before, 0, first);
  }

  /** One turn in the run of a loop. */
  method Round(pool: FirmwarePool, svc: Service, buffer: block, size: nat, ghost live0: map<block, seq<byte>>,
               ghost from: nat, ghost first: nat, ghost before: Status)
    returns (again: bool, status: Status, b: block, s: nat)
    requires Running(pool, svc, live0, from, first, true, before, buffer, size)
    modifies pool, svc`calls
    ensures svc.calls == old(svc.calls) + 1 && Running(pool, svc, live0, from, first, again, status, b, s)
    ensures again ==> size < s == |svc.data(svc.calls - 1)|
  {
    hide Filled, OneMore, Reliable;
    again, status, b, s := Turn(pool, svc, buffer, size, live0);
  }

  /** `LibLocateHandle`: an array of handles of 8 bytes each. */
  method LibLocateHandle(pool: FirmwarePool, svc: Service, ghost bound: nat)
    returns (status: Status, noHandles: nat, buffer: block)
    requires pool.Valid() && forall n :: |svc.data(n)| <= bound
    modifies pool, svc`calls
    ensures exists size: nat :: Filled(pool, svc, old(pool.live), status, buffer, size)
                           && noHandles == if IsError(status) then 0 else size / 8
    ensures FirstEnough(pool, svc, old(svc.calls), 400, status, buffer)
    ensures Reliable(pool, svc) ==> status == Success
  {
    hide Filled, FirstEnough, OneMore, TooSmallUntil, Reliable, Capacity;
    ghost var live0, from := pool.live, svc.calls;
    status, buffer := Success, 0;
    var bufferSize: nat := 50 * 8;
    var again;
    again, status, buffer := Begin(pool, svc, status, bufferSize);
    while again
      invariant Running(pool, svc, live0, from, 400, again, status, buffer, bufferSize)
      decreases again, bound - bufferSize
    {
      again, status, buffer, bufferSize := Round(pool, svc, buffer, bufferSize, live0, from, 400, status);
    }
    noHandles := bufferSize / 8;
    if IsError(status) {
      noHandles := 0;
    }
  }

  /** `LibMemoryMap`; the descriptor size is the service's, and the number of entries is set only on
      success. */
  method LibMemoryMap(pool: FirmwarePool, svc: Service, sizeOfDescriptor: nat, descriptorSize: nat, entries: nat, ghost bound: nat)
    returns (status: Status, noEntries: nat, buffer: block)
    requires pool.Valid() && sizeOfDescriptor > 0 && descriptorSize > 0 && forall n :: |svc.data(n)| <= bound
    modifies pool, svc`calls
    ensures exists size: nat :: Filled(pool, svc, old(pool.live), status, buffer, size)
                           && noEntries == if IsError(status) then entries else size / descriptorSize
    ensures FirstEnough(pool, svc, old(svc.calls), sizeOfDescriptor, status, buffer)
    ensures Reliable(pool, svc) ==> status == Success
  {
    hide Filled, FirstEnough, OneMore, TooSmallUntil, Reliable, Capacity;
    ghost var live0, from := pool.live, svc.calls;
    status, buffer := Success, 0;
    var bufferSize: nat := sizeOfDescriptor;
    var again;
    again, status, buffer := Begin(pool, svc, status, bufferSize);
    while again
      invariant Running(pool, svc, live0, from, sizeOfDescriptor, again, status, buffer, bufferSize)
      decreases again, bound - bufferSize
    {
      again, status, buffer, bufferSize := Round(pool, svc, buffer, bufferSize, live0, from, sizeOfDescriptor, status);
    }
    noEntries := entries;
    if !IsError(status) {
      noEntries := bufferSize / descriptorSize;
    }
  }

  /** `LibGetVariableAndSize`. Its status starts out uninitialized: any value will do. */
  method LibGetVariableAndSize(pool: FirmwarePool, svc: Service, garbage: Status, ghost bound: nat)
    returns (varSize: nat, buffer: block, ghost status: Status)
    requires pool.Valid() && forall n :: |svc.data(n)| <= bound
    modifies pool, svc`calls
    ensures buffer != 0 <==> status == Success
    ensures exists size: nat :: Filled(pool, svc, old(pool.live), status, buffer, size)
                           && varSize == if buffer == 0 then 0 else size
    ensures FirstEnough(pool, svc, old(svc.calls), 100, status, buffer)
    ensures Reliable(pool, svc) ==> status == Success
  {
    hide FirstEnough, OneMore, TooSmallUntil, Reliable, Capacity;
    ghost var live0, from := pool.live, svc.calls;
    var st := garbage;
    buffer := 0;
    var bufferSize: nat := 100;
    var again;
    again, st, buffer := Begin(pool, svc, st, bufferSize);
    while again
      invariant Running(pool, svc, live0, from, 100, again, st, buffer, bufferSize)
      decreases again, bound - bufferSize
    {
      again, st, buffer, bufferSize := Round(pool, svc, buffer, bufferSize, live0, from, 100, st);
    }
    status := st;
    varSize := if buffer != 0 then bufferSize else 0;
  }
}

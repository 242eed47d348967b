/**
  * The retry protocol around firmware calls that fill a buffer of unknown size:
  * call, and when the buffer was too small replace it and call again.
  */
module GrowBuffer {
  import opened Machine

  ghost function Max(a: nat, b: nat): nat {
    if a < b then b else a
  }

  /** The pool: the blocks that are allocated, with their sizes.  A number is never given out twice. */
  class Pool {
    var blocks: map<nat, nat>
    var issued: nat
    ghost var peak: nat  // the largest number of blocks there ever were at once
    ghost var failures: nat  // how often there was no memory

    ghost predicate Valid()
      reads this
    {
      forall b :: b in blocks ==> b < issued
    }

    constructor ()
      ensures Valid() && blocks == map[]
    {
      blocks := map[];
      issued := 0;
      peak := 0;
      failures := 0;
    }

    /** May fail at any time. */
    method Allocate(size: nat) returns (b: Option<nat>)
      requires Valid()
      modifies this
      ensures Valid() && issued >= old(issued)
      ensures peak == Max(old(peak), |blocks|) || (b.None? && peak == old(peak))
      ensures b.None? ==> blocks == old(blocks)
      ensures failures == old(failures) + if b.None? then 1 else 0
      ensures b.Some? ==> old(issued) <= b.value && b.value !in old(blocks) && blocks == old(blocks)[b.value := size]
    {
      if * {
        b := None;
        failures := failures + 1;
      } else {
        b := Some(issued);
        blocks := blocks[issued := size];
        issued := issued + 1;
        peak := Max(peak, |blocks|);
      }
    }

    /** Only a block that is allocated can be freed, and so no block is freed twice. */
    method Free(b: nat)
      requires Valid() && b in blocks
      modifies this
      ensures Valid() && issued == old(issued) && blocks == old(blocks) - {b}
      ensures peak == old(peak) && failures == old(failures)
    {
      blocks := blocks - {b};
    }
  }

  /** The pool with the one buffer that the protocol holds. */
  ghost predicate Holds(blocks: map<nat, nat>, others: map<nat, nat>, buffer: Option<nat>, size: nat) {
    if buffer.None? then blocks == others
    else buffer.value !in others && blocks == others[buffer.value := size]
  }

  /** One step of the protocol: whether the firmware is to be called (again), and with which buffer. */
  method GrowBuffer(pool: Pool, status: nat, buffer: Option<nat>, size: nat,
                    ghost others: map<nat, nat>, ghost held: nat)
    returns (status': nat, buffer': Option<nat>, tryAgain: bool)
    requires pool.Valid() && Holds(pool.blocks, others, buffer, held)
    modifies pool
    ensures pool.Valid() && pool.peak <= Max(old(pool.peak), |others| + 1)
    ensures Holds(pool.blocks, others, buffer', if tryAgain then size else held)
    ensures tryAgain ==> buffer'.Some?
    ensures pool.failures == old(pool.failures) ==>
      (tryAgain <==> status == BUFFER_TOO_SMALL || (buffer.None? && size > 0))
    ensures old(pool.failures) <= pool.failures
    ensures tryAgain ==> status == BUFFER_TOO_SMALL || (buffer.None? && size > 0)
    ensures !tryAgain && buffer.Some? ==>
      (buffer'.None? <==> EfiError(status')) && (buffer'.Some? ==> buffer' == buffer)
    ensures !tryAgain && buffer.None? ==> buffer'.None? && (size > 0 ==> EfiError(status'))
    ensures !tryAgain && !(status == BUFFER_TOO_SMALL || (buffer.None? && size > 0)) ==> status' == status
    ensures !tryAgain && (status == BUFFER_TOO_SMALL || (buffer.None? && size > 0)) ==> status' == OUT_OF_RESOURCES
  {
    status', buffer', tryAgain := status, buffer, false;
    if buffer'.None? && size != 0 {
      status' := BUFFER_TOO_SMALL;
    }
    if status' == BUFFER_TOO_SMALL {
      if buffer'.Some? {
        pool.Free(buffer'.value);
        assert pool.blocks == others;
      }
      buffer' := pool.Allocate(size);
      if buffer'.Some? {
        tryAgain := true;
      } else {
        status' := OUT_OF_RESOURCES;
      }
    }
    if !tryAgain && EfiError(status') && buffer'.Some? {
      pool.Free(buffer'.value);
      assert pool.blocks == others;
      buffer' := None;
    }
  }

  /** What the firmware answers: a status, and the size of the data or the size it needs. */
  datatype Reply = Reply(status: nat, size: nat)

  /** Firmware that needs `need` bytes all the time. */
  ghost predicate Stable(firmware: (nat, nat) -> Reply, need: nat) {
    forall k: nat, size: nat ::
      if size < need then firmware(k, size) == Reply(BUFFER_TOO_SMALL, need)
      else firmware(k, size).status != BUFFER_TOO_SMALL
  }

  /** Where the protocol stands. */
  datatype Outcome = Outcome(status: nat, buffer: Option<nat>, size: nat, calls: nat, finished: bool)

  /** The data in the buffer come from the last call, which was made with a block of the size it was told. */
  ghost predicate Answered(firmware: (nat, nat) -> Reply, o: Outcome, held: nat) {
    o.calls > 0 && Reply(o.status, o.size) == firmware(o.calls - 1, held)
  }

  /**
    * The loop, stopped after `most` calls.  The firmware may answer anything, and
    * the pool may be exhausted at any time.  At each call the buffer has the size
    * that the firmware is told.
    */
  method Retry(pool: Pool, firmware: (nat, nat) -> Reply, size: nat, most: nat) returns (o: Outcome, ghost held: nat)
    requires pool.Valid()
    modifies pool
    ensures pool.Valid() && Holds(pool.blocks, old(pool.blocks), o.buffer, held)
    ensures pool.peak <= Max(old(pool.peak), |old(pool.blocks)| + 1)
    ensures o.finished ==> ((o.buffer.None? <==> EfiError(o.status)) <==> size > 0)
    ensures o.finished && o.buffer.Some? ==> Answered(firmware, o, held)
    ensures o.finished && o.buffer.None? && o.status != OUT_OF_RESOURCES && size > 0 ==>
      o.calls > 0 && o.status == firmware(o.calls - 1, held).status
    ensures pool.failures == old(pool.failures) && size > 0 && most > 0 ==>
      o.calls > 0 && (o.finished ==> o.status == firmware(o.calls - 1, held).status)
    ensures o.calls > 0 && firmware(0, size).status != BUFFER_TOO_SMALL ==>
      o.calls == 1 && o.finished && held == size && o.status == firmware(0, size).status
    ensures !o.finished ==> o.calls == most && o.buffer.Some? && held == o.size
    ensures o.calls <= most
    ensures forall need :: Stable(firmware, need) ==> o.calls <= 2 && (most >= 2 ==> o.finished)
  {
    ghost var others := pool.blocks;
    var status: nat, buffer, again := SUCCESS, None, false;
    var bufferSize: nat, calls := size, 0;
    held := 0;
    status, buffer, again := GrowBuffer(pool, status, buffer, bufferSize, others, held);
    if again {
      held := bufferSize;
    }
    while again && calls < most
      invariant pool.Valid() && Holds(pool.blocks, others, buffer, held)
      invariant pool.peak <= Max(old(pool.peak), |others| + 1)
      invariant calls <= most && (again ==> buffer.Some? && held == bufferSize && size > 0)
      invariant !again ==> ((buffer.None? <==> EfiError(status)) <==> size > 0)
      invariant !again && buffer.Some? ==> calls > 0 && Reply(status, bufferSize) == firmware(calls - 1, held)
      invariant !again && buffer.None? && status != OUT_OF_RESOURCES && size > 0 ==>
        calls > 0 && firmware(calls - 1, held).status == status
      invariant old(pool.failures) <= pool.failures
      invariant pool.failures == old(pool.failures) && size > 0 ==> again || calls > 0
      invariant pool.failures == old(pool.failures) && size > 0 && !again ==>
        calls > 0 && status == firmware(calls - 1, held).status
      invariant calls == 0 && again ==> held == size
      invariant calls > 0 && firmware(0, size).status != BUFFER_TOO_SMALL ==>
        calls == 1 && !again && held == size && status == firmware(0, size).status
      invariant forall need :: Stable(firmware, need) ==>
        calls <= 2 && (again ==> calls <= 1 && (calls == 1 ==> bufferSize == need))
    {
      var reply := firmware(calls, bufferSize);
      calls := calls + 1;
      status, bufferSize := reply.status, reply.size;
      status, buffer, again := GrowBuffer(pool, status, buffer, bufferSize, others, held);
      if again {
        held := bufferSize;
      }
    }
    o := Outcome(status, buffer, bufferSize, calls, !again);
  }

  /** Reads a variable of unknown size. */
  method LibGetVariableAndSize(pool: Pool, firmware: (nat, nat) -> Reply, most: nat)
    returns (buffer: Option<nat>, varSize: nat, finished: bool, ghost o: Outcome, ghost held: nat)
    requires pool.Valid()
    modifies pool
    ensures pool.Valid() && buffer == o.buffer
    ensures finished && buffer.None? ==> varSize == 0 && EfiError(o.status) && pool.blocks == old(pool.blocks)
    ensures finished && buffer.Some? ==> !EfiError(o.status) && varSize == o.size && Answered(firmware, o, held)
    ensures Holds(pool.blocks, old(pool.blocks), buffer, held)
    ensures pool.failures == old(pool.failures) && most > 0 && firmware(0, 100).status == SUCCESS ==>
      finished && buffer.Some? && varSize == firmware(0, 100).size
  {
    var outcome;
    outcome, held := Retry(pool, firmware, 100, most);
    o := outcome;
    buffer, finished := outcome.buffer, outcome.finished;
    varSize := if buffer.Some? then outcome.size else 0;
  }

  const HANDLE_SIZE := 8

  /** All handles of a kind. */
  method LibLocateHandle(pool: Pool, firmware: (nat, nat) -> Reply, most: nat)
    returns (status: nat, buffer: Option<nat>, noHandles: nat, finished: bool, ghost o: Outcome, ghost held: nat)
    requires pool.Valid()
    modifies pool
    ensures pool.Valid() && buffer == o.buffer && status == o.status
    ensures finished && EfiError(status) ==> buffer.None? && noHandles == 0 && pool.blocks == old(pool.blocks)
    ensures finished && !EfiError(status) ==>
      buffer.Some? && noHandles == o.size / 8 && Answered(firmware, o, held)
    ensures Holds(pool.blocks, old(pool.blocks), buffer, held)
    ensures pool.failures == old(pool.failures) && most > 0 && firmware(0, 400).status == SUCCESS ==>
      finished && buffer.Some? && noHandles == firmware(0, 400).size / 8
  {
    var outcome;
    outcome, held := Retry(pool, firmware, 50 * HANDLE_SIZE, most);
    o := outcome;
    status, buffer, finished := outcome.status, outcome.buffer, outcome.finished;
    noHandles := if EfiError(status) then 0 else outcome.size / HANDLE_SIZE;
  }
}

/**
 Packet identifiers (crates/mqtt5-protocol/src/packet_id.rs).

 `PacketIdGenerator` is the allocator as one caller at a time sees it. The concurrent
 allocator, with its retries and its fallback, is the state machine of module
 `ConcurrentPacketIds`.
 */
module PacketIds {
  import opened Options
  import opened Bytes

  const MAX_ID := 65535

  // The atomic holds any 16-bit value; only 1..65535 are packet identifiers.
  type PacketId = i: int | 1 <= i <= 65535 witness 1

  // The value stored in place of `current` by a successful compare-exchange.
  function After(current: u16): (next: PacketId) {
    if current == MAX_ID then 1 else current + 1
  }

  // The n-th value of the cyclic sequence start, start + 1, ..., 65535, 1, 2, ...
  function Cycle(start: PacketId, n: nat): PacketId {
    (start - 1 + n) % MAX_ID + 1
  }

  lemma CycleStep(start: PacketId, n: nat)
    ensures Cycle(start, n + 1) == After(Cycle(start, n))
  {
    var x := start - 1 + n;
    assert x == MAX_ID * (x / MAX_ID) + x % MAX_ID;
    if x % MAX_ID == MAX_ID - 1 {
      assert x + 1 == MAX_ID * (x / MAX_ID + 1);
    } else {
      assert x + 1 == MAX_ID * (x / MAX_ID) + (x % MAX_ID + 1);
    }
  }

  // Fewer than 65535 steps never come back to the same identifier.
  lemma CycleDistinct(start: PacketId, i: nat, j: nat)
    requires i < j < i + MAX_ID
    ensures Cycle(start, i) != Cycle(start, j)
  {
    var x, y := start - 1 + i, start - 1 + j;
    assert x == MAX_ID * (x / MAX_ID) + x % MAX_ID;
    assert y == MAX_ID * (y / MAX_ID) + y % MAX_ID;
  }

  // Every identifier is met within 65535 steps.
  lemma CycleCovers(start: PacketId, id: PacketId) returns (k: nat)
    ensures k < MAX_ID && Cycle(start, k) == id
  {
    k := if start <= id then id - start else id - start + MAX_ID;
  }

  // How many steps from `start` the first identifier not in use lies, looking at steps k..65534.
  function FirstFree(start: PacketId, inUse: PacketId -> bool, k: nat): (r: Option<nat>)
    requires k <= MAX_ID
    ensures r.Some? ==> k <= r.value < MAX_ID && !inUse(Cycle(start, r.value))
    ensures r.Some? ==> forall j: nat :: k <= j < r.value ==> inUse(Cycle(start, j))
    ensures r.None? ==> forall j: nat :: k <= j < MAX_ID ==> inUse(Cycle(start, j))
    decreases MAX_ID - k, start
  {
    if k == MAX_ID then None
    else if !inUse(Cycle(start, k)) then Some(k)
    else FirstFree(start, inUse, k + 1)
  }

  lemma FirstFreeNone(start: PacketId, inUse: PacketId -> bool)
    ensures FirstFree(start, inUse, 0).None? <==> forall id: PacketId :: inUse(id)
  {
    var r := FirstFree(start, inUse, 0);
    if r.None? {
      forall id: PacketId ensures inUse(id) {
        var k := CycleCovers(start, id);
      }
    } else {
      var id := Cycle(start, r.value);
      assert !inUse(id);
    }
  }

  class PacketIdGenerator {
    var nextId: PacketId

    constructor ()
      ensures nextId == 1
    {
      nextId := 1;
    }

    // Without a concurrent writer the first compare-exchange succeeds; see
    // ConcurrentPacketIds.SoloCall for the same call as steps of the machine.
    method Next() returns (id: PacketId)
      modifies this
      ensures id == old(nextId) && nextId == After(old(nextId))
    {
      var current := nextId;
      nextId := After(current);
      id := current;
    }

    // The first identifier in cyclic order that is not in use; None exactly when all
    // 65535 are in use, and then the generator is back where it started.
    method NextAvailable(inUse: PacketId -> bool) returns (r: Option<PacketId>)
      modifies this
      ensures r.None? <==> forall id: PacketId :: inUse(id)
      ensures r.None? ==> nextId == old(nextId)
      ensures r.Some? ==>
                var k := FirstFree(old(nextId), inUse, 0);
                k.Some? && r.value == Cycle(old(nextId), k.value) && nextId == Cycle(old(nextId), k.value + 1)
    {
      ghost var start := nextId;
      FirstFreeNone(start, inUse);
      var i := 0;
      while i < MAX_ID
        invariant 0 <= i <= MAX_ID
        invariant nextId == Cycle(start, i)
        invariant FirstFree(start, inUse, 0) == FirstFree(start, inUse, i)
      {
        var id := Next();
        CycleStep(start, i);
        if !inUse(id) {
          return Some(id);
        }
        i := i + 1;
      }
      r := None;
    }
  }
}

/**
 The bump arena (memory/src/MemoryArena.cpp). Addresses and sizes are 64-bit words and every sum wraps, as
 in the C++; a null buffer is address 0.
 */
module Arenas {
  import opened Bytes
  import opened Arithmetic
  import opened MemoryBlocks

  datatype Arena = Arena(base: u64, capacity: u64, offset: u64, peak: u64) {
    /** The buffer is a piece of the address space, and the offsets lie inside it. */
    ghost predicate Sane() {
      offset <= peak <= capacity && base + capacity <= TWO64
    }
  }

  predicate IsPowerOfTwo(value: u64) {
    value != 0 && And(value, value - 1) == 0
  }

  /** `(current + alignment - 1) & ~(alignment - 1)`. */
  function AlignUp(current: u64, alignment: u64): nat
    requires alignment > 0
  {
    And(U64(current + alignment - 1), TWO64 - 1 - (alignment - 1))
  }

  /** What the code takes as a request at all. */
  predicate Legal(a: Arena, size: u64, alignment: u64) {
    a.base != 0 && size != 0 && alignment != 0 && IsPowerOfTwo(alignment)
  }

  function Aligned(a: Arena, alignment: u64): nat
    requires alignment > 0
  {
    AlignUp(U64(a.base + a.offset), alignment)
  }

  /** The offset behind the new block, as computed in 64 bits. */
  function NewOffset(a: Arena, size: u64, alignment: u64): u64
    requires alignment > 0
  {
    U64(a.offset + U64(Aligned(a, alignment) - U64(a.base + a.offset)) + size)
  }

  function Allocate(a: Arena, size: u64, alignment: u64): (Arena, Block) {
    if !Legal(a, size, alignment) || NewOffset(a, size, alignment) > a.capacity then (a, NO_BLOCK) else
    var offset := NewOffset(a, size, alignment);
    (a.(offset := offset, peak := if a.peak >= offset then a.peak else offset), Block(Aligned(a, alignment), size))
  }

  function Reset(a: Arena): Arena {
    a.(offset := 0)
  }

  function StatsOf(a: Arena): (s: Stats)
    requires a.Sane()
    ensures s.used + s.free == s.capacity && s.used <= s.peak <= s.capacity
    ensures s.capacity == a.capacity && s.free == a.capacity - a.offset && s.peak == a.peak
  {
    Stats(a.capacity, a.offset, a.capacity - a.offset, a.peak)
  }

  // ---------------------------------------------------------------------------------------------
  // Alignment

  /** `is_power_of_two` holds for exactly the powers of two. */
  lemma PowersOfTwo(value: u64)
    ensures IsPowerOfTwo(value) <==> IsPow2(value)
  {
    if value > 0 {
      AndBelow(value);
    }
  }

  /** What `allocate` is promised to accept: a buffer, at least one byte, and a power of two to align to. */
  ghost predicate Proper(a: Arena, size: u64, alignment: u64) {
    a.base > 0 && size > 0 && IsPow2(alignment)
  }

  /** The checks on the arguments let through just that. */
  lemma LegalExact(a: Arena, size: u64, alignment: u64)
    ensures Legal(a, size, alignment) <==> Proper(a, size, alignment)
  {
    hide And, IsPow2;
    PowersOfTwo(alignment);
  }

  lemma AlignmentPower(alignment: u64) returns (k: nat)
    requires IsPowerOfTwo(alignment)
    ensures k <= 64 && alignment == Pow2(k) && Pow2(64) == TWO64
  {
    hide And, Pow2;
    PowersOfTwo(alignment);
    k :| alignment == Pow2(k);
    Pow2Of64();
    if k > 64 { Pow2Monotone(64, k); }
  }

  lemma MaskRounds(current: u64, alignment: u64) returns (q: nat)
    requires IsPowerOfTwo(alignment)
    ensures AlignUp(current, alignment) == q * alignment
    ensures q * alignment <= U64(current + alignment - 1) < q * alignment + alignment
  {
    hide And, Pow2, U64, IsPowerOfTwo;
    var k := AlignmentPower(alignment);
    q := MaskRoundsDown(U64(current + alignment - 1), 64, k);
  }

  lemma LeastMultiple(q: nat, alignment: nat, current: nat)
    requires q * alignment < current + alignment
    ensures forall j: nat | j * alignment >= current :: q * alignment <= j * alignment
  {
    forall j: nat | j * alignment >= current
      ensures q * alignment <= j * alignment
    {
      if j < q { Apart(alignment, j, q); }
    }
  }

  /**
   For a power of two the mask expression is the least multiple of it at or above the address; where the sum
   in it wraps, it is 0.
   */
  lemma AlignUpLeast(current: u64, alignment: u64)
    requires IsPowerOfTwo(alignment)
    ensures var r := AlignUp(current, alignment);
            && r % alignment == 0
            && (current + alignment - 1 < TWO64 ==>
                current <= r < current + alignment && r < TWO64
                && (forall j: nat | j * alignment >= current :: r <= j * alignment))
            && (current + alignment - 1 >= TWO64 ==> r == 0)
  {
    hide AlignUp, IsPowerOfTwo;
    var q := MaskRounds(current, alignment);
    IndexOf(alignment, 0, q, q * alignment);
    if current + alignment - 1 < TWO64 {
      LeastMultiple(q, alignment, current);
    } else if q > 0 {
      Apart(alignment, 0, q);
    }
  }

  // ---------------------------------------------------------------------------------------------
  // One allocation

  /** No sum in the call leaves 64 bits. */
  predicate NoWrap(a: Arena, size: u64, alignment: u64)
    requires alignment > 0
  {
    a.base + a.offset + alignment - 1 < TWO64 && Aligned(a, alignment) - a.base + size < TWO64
  }

  /** No sum wraps, or the call is refused anyway: by the checks on its arguments or by the check on the new offset. */
  predicate Safe(a: Arena, size: u64, alignment: u64) {
    Legal(a, size, alignment) ==> NoWrap(a, size, alignment) || NewOffset(a, size, alignment) > a.capacity
  }

  /**
   What `allocate` is for: either the block is aligned, lies in the free part of the buffer, and the free part
   now starts behind it; or there is no block and nothing has changed.
   */
  ghost predicate Behaves(a: Arena, size: u64, alignment: u64) {
    var (r, b) := Allocate(a, size, alignment);
    if b.Usable() then
      && alignment > 0 && b.ptr % alignment == 0 && b.size == size
      && a.base + a.offset <= b.ptr && b.ptr + size <= a.base + a.capacity
      && r == a.(offset := b.ptr + size - a.base, peak := Max(a.peak, b.ptr + size - a.base))
    else
      b == NO_BLOCK && r == a
  }

  lemma NewOffsetNoWrap(a: Arena, size: u64, alignment: u64)
    requires a.Sane() && Legal(a, size, alignment) && NoWrap(a, size, alignment)
    ensures a.base + a.offset <= Aligned(a, alignment) && Aligned(a, alignment) % alignment == 0
    ensures NewOffset(a, size, alignment) == Aligned(a, alignment) - a.base + size
  {
    hide AlignUp, IsPowerOfTwo;
    AlignUpLeast(a.base + a.offset, alignment);
  }

  lemma NewOffsetWraps(a: Arena, size: u64, alignment: u64)
    requires a.Sane() && Legal(a, size, alignment) && !NoWrap(a, size, alignment)
    ensures Aligned(a, alignment) == 0 || Aligned(a, alignment) + size > a.base + a.capacity
  {
    hide Aligned, IsPowerOfTwo, U64;
    AlignedWraps(a, alignment);
  }

  /** Where rounding up leaves 64 bits, the aligned address is null. */
  lemma AlignedWraps(a: Arena, alignment: u64)
    requires a.Sane() && a.base != 0 && IsPowerOfTwo(alignment)
    ensures a.base + a.offset + alignment - 1 >= TWO64 ==> Aligned(a, alignment) == 0
  {
    hide AlignUp, IsPowerOfTwo;
    AlignUpLeast(if a.base + a.offset < TWO64 then a.base + a.offset else 0, alignment);
  }

  /** `allocate` behaves exactly when no sum wraps or the call is refused. */
  lemma AllocateExact(a: Arena, size: u64, alignment: u64)
    requires a.Sane()
    ensures Behaves(a, size, alignment) <==> Safe(a, size, alignment)
  {
    hide IsPowerOfTwo, Aligned, NewOffset;
    if Legal(a, size, alignment) {
      if NoWrap(a, size, alignment) {
        NewOffsetNoWrap(a, size, alignment);
      } else {
        NewOffsetWraps(a, size, alignment);
      }
    }
  }

  /** A size close to 2^64 wraps past the capacity check: the block handed out is larger than the buffer. */
  lemma WrappedSizeAccepted()
    ensures var a := Arena(4096, 64, 16, 16);
            var size := TWO64 - 10;
            && Allocate(a, size, 8) == (a.(offset := 6), Block(4112, size))
            && !Behaves(a, size, 8) && !Safe(a, size, 8)
  {
    var a, size: u64 := Arena(4096, 64, 16, 16), TWO64 - 10;
    assert Pow2(3) == 8;
    PowersOfTwo(8);
    AlignUpLeast(4112, 8);
    var r := Aligned(a, 8);
    assert 514 * 8 >= 4112;
    assert r == 4112;
    AllocateExact(a, size, 8);
  }

  /** Some aligned block of the size fits in the free part of the buffer. */
  ghost predicate HasRoom(a: Arena, size: u64, alignment: u64) {
    exists j: nat :: a.base + a.offset <= j * alignment && j * alignment + size <= a.base + a.capacity
  }

  lemma RoomNoWrap(a: Arena, size: u64, alignment: u64)
    requires a.Sane() && Legal(a, size, alignment) && NoWrap(a, size, alignment)
    ensures Allocate(a, size, alignment).1.Usable() <==> HasRoom(a, size, alignment)
  {
    hide IsPowerOfTwo, AlignUp;
    AlignUpLeast(a.base + a.offset, alignment);
    NewOffsetNoWrap(a, size, alignment);
    var r := Aligned(a, alignment);
    IndexOf(alignment, 0, 0, r);
    if Allocate(a, size, alignment).1.Usable() {
      assert r == (r / alignment) * alignment;
    }
  }

  /** Where rounding up leaves 64 bits, no aligned address is left in the buffer. */
  lemma NoMultipleLeft(current: nat, alignment: u64, j: nat)
    requires IsPowerOfTwo(alignment) && current + alignment > TWO64 && j * alignment >= current
    ensures j * alignment >= TWO64
  {
    hide IsPowerOfTwo, Pow2;
    var k := AlignmentPower(alignment);
    var m := Pow2Divides(k, 64);
    if j < m { Apart(alignment, j, m); } else { Fits(alignment, m, j); }
  }

  lemma RoomWraps(a: Arena, size: u64, alignment: u64)
    requires a.Sane() && Legal(a, size, alignment) && !NoWrap(a, size, alignment)
    ensures !HasRoom(a, size, alignment)
  {
    hide IsPowerOfTwo, AlignUp;
    if j: nat :| a.base + a.offset <= j * alignment && j * alignment + size <= a.base + a.capacity {
      if a.base + a.offset + alignment > TWO64 {
        NoMultipleLeft(a.base + a.offset, alignment, j);
      } else {
        AlignUpLeast(a.base + a.offset, alignment);
      }
    }
  }

  /**
   `allocate` succeeds exactly for proper requests of which some aligned block fits in the free part; and that is so
   exactly when no sum wraps or the call is refused, or when the aligned address itself wraps to null.
   */
  lemma RoomExact(a: Arena, size: u64, alignment: u64)
    requires a.Sane()
    ensures (Allocate(a, size, alignment).1.Usable() <==> Proper(a, size, alignment) && HasRoom(a, size, alignment)) <==>
            Safe(a, size, alignment) || (alignment > 0 && Aligned(a, alignment) == 0)
  {
    hide IsPowerOfTwo, Aligned, NewOffset, HasRoom, Proper;
    LegalExact(a, size, alignment);
    if Legal(a, size, alignment) {
      if NoWrap(a, size, alignment) {
        RoomNoWrap(a, size, alignment);
      } else {
        RoomWraps(a, size, alignment);
      }
    }
  }

  // ---------------------------------------------------------------------------------------------
  // Runs

  datatype Op = Request(size: u64, alignment: u64) | DoReset

  datatype Grant = Grant(block: Block, alignment: nat)

  /** An arena and the blocks handed out since the last reset, in order. */
  datatype Use = Use(arena: Arena, blocks: seq<Grant>)

  function StepUse(u: Use, op: Op): Use {
    match op
    case Request(size, alignment) =>
      var (a, b) := Allocate(u.arena, size, alignment);
      Use(a, if b.Usable() then u.blocks + [Grant(b, alignment)] else u.blocks)
    case DoReset => Use(Reset(u.arena), [])
  }

  function RunUse(u: Use, ops: seq<Op>): Use
    decreases |ops|
  {
    if ops == [] then u else RunUse(StepUse(u, ops[0]), ops[1..])
  }

  predicate SafeRun(u: Use, ops: seq<Op>)
    decreases |ops|
  {
    ops == [] ||
    ((ops[0].Request? ==> Safe(u.arena, ops[0].size, ops[0].alignment)) && SafeRun(StepUse(u, ops[0]), ops[1..]))
  }

  /** The blocks are aligned, follow one another without overlap, and lie in the used part of the buffer. */
  ghost predicate WellPlaced(u: Use) {
    && u.arena.Sane()
    && (forall i | 0 <= i < |u.blocks| ::
          var g := u.blocks[i];
          && g.block.size > 0 && g.alignment > 0 && g.block.ptr % g.alignment == 0
          && u.arena.base <= g.block.ptr && g.block.ptr + g.block.size <= u.arena.base + u.arena.offset)
    && (forall i, j | 0 <= i < j < |u.blocks| ::
          u.blocks[i].block.ptr + u.blocks[i].block.size <= u.blocks[j].block.ptr)
  }

  lemma StepPlaces(u: Use, op: Op)
    requires WellPlaced(u) && (op.Request? ==> Safe(u.arena, op.size, op.alignment))
    ensures WellPlaced(StepUse(u, op))
    ensures StepUse(u, op).arena.base == u.arena.base && StepUse(u, op).arena.capacity == u.arena.capacity
  {
    hide Safe, Allocate;
    if op.Request? {
      AllocateExact(u.arena, op.size, op.alignment);
    }
  }

  /**
   Over any run of requests and resets, of which none both wraps and is accepted: the blocks handed out since
   the last reset are aligned, in bounds, in order and pairwise disjoint, and used <= peak <= capacity.
   */
  lemma {:induction false} ArenaRun(u: Use, ops: seq<Op>)
    requires WellPlaced(u) && SafeRun(u, ops)
    ensures WellPlaced(RunUse(u, ops))
    ensures RunUse(u, ops).arena.base == u.arena.base && RunUse(u, ops).arena.capacity == u.arena.capacity
    decreases |ops|
  {
    hide WellPlaced, StepUse, Safe;
    if ops != [] {
      StepPlaces(u, ops[0]);
      ArenaRun(StepUse(u, ops[0]), ops[1..]);
    }
  }

  /** Each request of the run, where it is made, behaves. */
  ghost predicate BehavesThroughout(u: Use, ops: seq<Op>)
    decreases |ops|
  {
    ops == [] ||
    ((ops[0].Request? ==> Behaves(u.arena, ops[0].size, ops[0].alignment)) && BehavesThroughout(StepUse(u, ops[0]), ops[1..]))
  }

  /** Over any run, each request behaves exactly when none both wraps and is accepted. */
  lemma {:induction false} ThroughoutExact(u: Use, ops: seq<Op>)
    requires WellPlaced(u)
    ensures BehavesThroughout(u, ops) <==> SafeRun(u, ops)
    decreases |ops|
  {
    hide WellPlaced, StepUse, Safe, Behaves;
    WellPlacedSane(u);
    if ops != [] {
      if ops[0].Request? {
        AllocateExact(u.arena, ops[0].size, ops[0].alignment);
      }
      if ops[0].Request? ==> Safe(u.arena, ops[0].size, ops[0].alignment) {
        StepPlaces(u, ops[0]);
        ThroughoutExact(StepUse(u, ops[0]), ops[1..]);
      }
    }
  }

  lemma WellPlacedSane(u: Use)
    requires WellPlaced(u)
    ensures u.arena.Sane()
  {
  }

  /** Requests that are not near 2^64 are safe in every state of the arena. */
  lemma SmallRequestsSafe(a: Arena, size: u64, alignment: u64)
    requires a.Sane() && a.base + a.capacity + alignment + size <= TWO64
    ensures Safe(a, size, alignment)
  {
    hide IsPowerOfTwo, AlignUp;
    if Legal(a, size, alignment) {
      AlignUpLeast(U64(a.base + a.offset), alignment);
    }
  }

  /** The most that is in use at any point of the run. */
  function MostUsed(u: Use, ops: seq<Op>): nat
    decreases |ops|
  {
    if ops == [] then u.arena.offset else Max(u.arena.offset, MostUsed(StepUse(u, ops[0]), ops[1..]))
  }

  /** Over any run, whatever wraps in it, the peak is the most that was ever in use; a reset does not lower it. */
  lemma {:induction false} PeakExact(u: Use, ops: seq<Op>)
    requires u.arena.offset <= u.arena.peak
    ensures RunUse(u, ops).arena.peak == Max(u.arena.peak, MostUsed(u, ops))
    decreases |ops|
  {
    hide StepUse;
    if ops != [] {
      StepPeak(u, ops[0]);
      PeakExact(StepUse(u, ops[0]), ops[1..]);
    }
  }

  lemma StepPeak(u: Use, op: Op)
    requires u.arena.offset <= u.arena.peak
    ensures var next := StepUse(u, op).arena; next.peak == Max(u.arena.peak, next.offset)
    ensures op == DoReset ==> StepUse(u, op) == Use(u.arena.(offset := 0), [])
  {
    hide Legal, NewOffset, Aligned;
  }

  // ---------------------------------------------------------------------------------------------
  // Capacity

  function SumOfSizes(ops: seq<Op>): nat {
    if ops == [] then 0 else (if ops[0].Request? then ops[0].size else 0) + SumOfSizes(ops[1..])
  }

  /** Every request with the most padding its alignment can cost. */
  function SumWithPadding(ops: seq<Op>): nat {
    if ops == [] then 0
    else (if ops[0].Request? then ops[0].size + Max(0, ops[0].alignment - 1) else 0) + SumWithPadding(ops[1..])
  }

  lemma RequestFits(a: Arena, size: u64, alignment: u64)
    requires a.Sane() && Legal(a, size, alignment)
    requires a.offset + size + alignment - 1 <= a.capacity
    ensures Allocate(a, size, alignment).1.Usable() && Allocate(a, size, alignment).0.Sane()
    ensures a.offset + size <= Allocate(a, size, alignment).0.offset <= a.offset + size + alignment - 1
  {
    hide IsPowerOfTwo, AlignUp;
    AlignUpLeast(a.base + a.offset, alignment);
    NewOffsetNoWrap(a, size, alignment);
  }

  /**
   Capacity guarantee: from any address, proper requests whose sizes, each with `alignment - 1` bytes to spare,
   fit in what is free all succeed, and what they use is between the sum of sizes and that sum.
   */
  lemma {:induction false} CapacityGuarantee(u: Use, ops: seq<Op>)
    requires u.arena.Sane() && u.arena.offset + SumWithPadding(ops) <= u.arena.capacity
    requires forall i | 0 <= i < |ops| :: ops[i].Request? && Proper(u.arena, ops[i].size, ops[i].alignment)
    ensures |RunUse(u, ops).blocks| == |u.blocks| + |ops|
    ensures u.arena.offset + SumOfSizes(ops) <= RunUse(u, ops).arena.offset <= u.arena.offset + SumWithPadding(ops)
    decreases |ops|
  {
    hide IsPowerOfTwo, IsPow2, Allocate, Legal;
    if ops != [] {
      var op := ops[0];
      LegalExact(u.arena, op.size, op.alignment);
      assert Legal(u.arena, op.size, op.alignment);
      RequestFits(u.arena, op.size, op.alignment);
      KeepsBuffer(u.arena, op.size, op.alignment);
      assert forall i | 0 <= i < |ops[1..]| :: ops[1..][i] == ops[i + 1];
      CapacityGuarantee(StepUse(u, op), ops[1..]);
    }
  }

  lemma KeepsBuffer(a: Arena, size: u64, alignment: u64)
    ensures Allocate(a, size, alignment).0.base == a.base && Allocate(a, size, alignment).0.capacity == a.capacity
  {
  }

  // ---------------------------------------------------------------------------------------------
  // The code

  class MemoryArena {
    /** The address of the buffer, 0 for a null pointer. */
    const buffer: u64
    const capacity: u64
    var offset: u64
    var peakUsed: u64

    ghost function View(): Arena
      reads this
    {
      Arena(buffer, capacity, offset, peakUsed)
    }

    constructor (buffer: u64, capacity: u64)
      requires buffer + capacity <= TWO64
      ensures View() == Arena(buffer, capacity, 0, 0) && View().Sane()
    {
      this.buffer, this.capacity, offset, peakUsed := buffer, capacity, 0, 0;
    }

    method AllocateBlock(size: u64, alignment: u64) returns (b: Block)
      modifies this
      ensures (View(), b) == Allocate(old(View()), size, alignment)
      ensures old(View().Sane()) ==> View().Sane()
    {
      hide AlignUp, IsPowerOfTwo;
      if buffer == 0 || size == 0 {
        return NO_BLOCK;
      }
      if alignment == 0 || !IsPowerOfTwo(alignment) {
        return NO_BLOCK;
      }
      var current := U64(buffer + offset);
      var aligned := AlignUp(current, alignment);
      var padding := U64(aligned - current);
      var newOffset := U64(offset + padding + size);
      if newOffset > capacity {
        return NO_BLOCK;
      }
      offset := newOffset;
      peakUsed := if peakUsed >= offset then peakUsed else offset;
      return Block(aligned, size);
    }

    method ReadStats() returns (s: Stats)
      requires View().Sane()
      ensures s == StatsOf(View())
    {
      return Stats(capacity, offset, capacity - offset, peakUsed);
    }

    method ResetArena()
      modifies this
      ensures View() == Reset(old(View()))
      ensures old(View().Sane()) ==> View().Sane()
    {
      offset := 0;
    }
  }
}

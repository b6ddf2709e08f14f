/**
 The fixed-block pool (memory/src/FixedBlockPool.cpp): a stack of free indices, a bitmap and a counter that
 have to agree. A pointer is an address, 0 for null; `base` is the address of the pool's storage. Products are
 computed in 64 bits, the size of the storage among them.
 */
module BlockPools {
  import opened Bytes
  import opened Arithmetic
  import opened MemoryBlocks

  datatype Pool = Pool(
    blockSize: u64, blockCount: u64, base: nat, free: seq<nat>, taken: seq<bool>, used: nat, peak: nat)
  {
    /** The address of block `i`. */
    function Address(i: nat): nat {
      base + U64(i * blockSize)
    }

    /** How many bytes the storage has. */
    function Storage(): u64 {
      U64(blockSize * blockCount)
    }

    /** The storage holds all the blocks. */
    predicate Whole() {
      blockSize * blockCount < TWO64
    }

    /** Free stack, bitmap and counters agree. */
    ghost predicate Agrees() {
      && |taken| == blockCount
      && (forall i | 0 <= i < |free| :: free[i] < blockCount)
      && (forall i, j | 0 <= i < j < |free| :: free[i] != free[j])
      && (forall i: nat | i < blockCount :: i in free <==> !taken[i])
      && |free| + used == blockCount && used <= peak <= blockCount
      && (blockSize == 0 ==> used == 0)
      && (Storage() > 0 ==> base > 0)
    }

    /** The start addresses of the live blocks. */
    ghost function Live(): set<nat>
      requires |taken| == blockCount
    {
      set i: nat | i < blockCount && taken[i] :: Address(i)
    }

    /** Block `i` is live, and it starts inside the storage at `ptr`. */
    predicate LiveAt(i: nat, ptr: nat)
      requires |taken| == blockCount
    {
      i < blockCount && taken[i] && i * blockSize < Storage() && ptr == base + i * blockSize
    }

    predicate Owns(ptr: nat) {
      ptr != 0 && Storage() != 0 && base <= ptr < base + Storage()
    }
  }

  function NewPool(blockSize: u64, blockCount: u64, base: nat): Pool {
    Pool(blockSize, blockCount, base, seq(blockCount, i requires 0 <= i < blockCount => blockCount - 1 - i),
         seq(blockCount, _ => false), 0, 0)
  }

  function Allocate(p: Pool): (Pool, Block)
    requires forall i | 0 <= i < |p.free| :: p.free[i] < |p.taken|
  {
    if p.blockSize == 0 || p.blockCount == 0 || p.free == [] then (p, NO_BLOCK) else
    var i := p.free[|p.free| - 1];
    (p.(free := p.free[..|p.free| - 1], taken := p.taken[i := true], used := p.used + 1,
        peak := Max(p.peak, p.used + 1)),
     Block(p.Address(i), p.blockSize))
  }

  function Free(p: Pool, ptr: nat): (Pool, bool)
    requires |p.taken| == p.blockCount
  {
    if !p.Owns(ptr) then (p, false) else
    var offset := ptr - p.base;
    if offset % p.blockSize != 0 then (p, false) else
    var i := offset / p.blockSize;
    if i >= p.blockCount || !p.taken[i] then (p, false) else
    (p.(taken := p.taken[i := false], free := p.free + [i], used := U64(p.used - 1)), true)
  }

  // ---------------------------------------------------------------------------------------------
  // The free stack, the bitmap and the counter agree on every run

  lemma NewPoolAgrees(blockSize: u64, blockCount: u64, base: nat)
    requires U64(blockSize * blockCount) > 0 ==> base > 0
    ensures NewPool(blockSize, blockCount, base).Agrees() && NewPool(blockSize, blockCount, base).Live() == {}
  {
    var p := NewPool(blockSize, blockCount, base);
    forall i: nat | i < blockCount
      ensures i in p.free
    {
      assert p.free[blockCount - 1 - i] == i;
    }
  }

  /**
   What one `allocate` does: agreement is kept, and a block comes out exactly when one is free. Where the storage
   holds all the blocks, it is usable and no other live block starts where it does.
   */
  lemma AllocateAgrees(p: Pool)
    requires p.Agrees()
    ensures var (q, b) := Allocate(p);
            && q.Agrees() && (b == NO_BLOCK <==> p.blockSize == 0 || p.used == p.blockCount)
            && (b == NO_BLOCK ==> q == p)
            && (b != NO_BLOCK ==>
                && b.size == p.blockSize && q.Live() == p.Live() + {b.ptr}
                && (p.Whole() ==> b.Usable() && b.ptr !in p.Live()))
  {
    if p.blockSize > 0 && p.free != [] {
      var i := p.free[|p.free| - 1];
      var q := Allocate(p).0;
      assert i in p.free;
      forall k: nat | k < p.blockCount
        ensures k in q.free <==> !q.taken[k]
      {
      }
      MarkLive(p, q, i);
      Positive(p.blockSize, p.blockCount);
      if p.Whole() {
        AddressesDiffer(p, i);
      }
    }
  }

  lemma MarkLive(p: Pool, q: Pool, i: nat)
    requires |p.taken| == p.blockCount && i < p.blockCount && q.base == p.base
    requires q.blockSize == p.blockSize && q.blockCount == p.blockCount && q.taken == p.taken[i := true]
    ensures q.Live() == p.Live() + {p.Address(i)}
  {
    forall k: nat | k < p.blockCount && q.taken[k]
      ensures q.Address(k) in p.Live() + {p.Address(i)}
    {
    }
    forall k: nat | k < p.blockCount && p.taken[k]
      ensures p.Address(k) in q.Live()
    {
      assert q.taken[k] && q.Address(k) == p.Address(k);
    }
    assert q.taken[i] && q.Address(i) == p.Address(i);
  }

  function StatsOf(p: Pool): Stats {
    var capacity, used := U64(p.blockSize * p.blockCount), U64(p.blockSize * p.used);
    Stats(capacity, used, U64(capacity - used), U64(p.blockSize * p.peak))
  }

  /**
   What is used and what is free make up the capacity, the pool is full exactly when nothing is free, and the figures
   are those of all blocks, of the live ones and of the most that were live at once.
   */
  ghost predicate Honest(s: Stats, p: Pool) {
    && s.capacity == p.blockCount * p.blockSize && s.used == p.used * p.blockSize && s.peak == p.peak * p.blockSize
    && s.used + s.free == s.capacity && s.used <= s.peak <= s.capacity
    && (s.capacity > 0 ==> (s.free == 0 <==> p.used == p.blockCount))
  }

  /** The byte figures are honest where the storage holds all the blocks. */
  lemma StatsHonest(p: Pool)
    requires p.Agrees() && p.Whole()
    ensures Honest(StatsOf(p), p)
  {
    hide U64, Pool.Agrees;
    CountsAgree(p);
    Fits(p.blockSize, p.used, p.peak);
    Fits(p.blockSize, p.peak, p.blockCount);
    FullExactly(p.blockSize, p.used, p.blockCount);
  }

  lemma CountsAgree(p: Pool)
    requires p.Agrees()
    ensures p.used <= p.peak <= p.blockCount
  {
  }

  lemma FullExactly(size: nat, used: nat, count: nat)
    requires used <= count
    ensures size * count > 0 ==> (size * used == size * count <==> used == count)
  {
    if size > 0 && used < count {
      assert size * (count - used) > 0;
    }
  }

  lemma Positive(a: nat, b: nat)
    requires a > 0 && b > 0
    ensures a * b > 0
  {
  }

  lemma NoWrap(p: Pool, i: nat)
    requires p.Whole() && i < p.blockCount
    ensures i * p.blockSize + p.blockSize <= p.blockSize * p.blockCount
    ensures p.Address(i) == p.base + i * p.blockSize
  {
    Apart(p.blockSize, i, p.blockCount);
  }

  lemma AddressesDiffer(p: Pool, i: nat)
    requires p.blockSize > 0 && p.Whole() && i < p.blockCount
    ensures forall k: nat | k < p.blockCount && k != i :: p.Address(k) != p.Address(i)
  {
    NoWrap(p, i);
    forall k: nat | k < p.blockCount && k != i
      ensures p.Address(k) != p.Address(i)
    {
      NoWrap(p, k);
      if k < i { Apart(p.blockSize, k, i); } else { Apart(p.blockSize, i, k); }
    }
  }

  function Below(n: nat): (s: set<nat>)
    ensures |s| == n && forall k: nat :: k in s <==> k < n
  {
    if n == 0 then {} else Below(n - 1) + {n - 1}
  }

  function Elements(s: seq<nat>): set<nat> {
    set x: nat | x in s
  }

  lemma {:induction false} DistinctCount(s: seq<nat>)
    requires forall i, j | 0 <= i < j < |s| :: s[i] != s[j]
    ensures |Elements(s)| == |s|
  {
    if s == [] {
      assert Elements(s) == {};
    } else {
      var front, last := s[..|s| - 1], s[|s| - 1];
      DistinctCount(front);
      assert s == front + [last] && last !in front;
      assert Elements(s) == Elements(front) + {last};
    }
  }

  lemma PartsCount(a: set<nat>, b: set<nat>, all: set<nat>)
    requires forall i: nat :: (i in a || i in b <==> i in all) && !(i in a && i in b)
    ensures |a| + |b| == |all|
  {
    assert a + b == all && a * b == {};
  }

  function Busy(taken: seq<bool>): (r: set<nat>) {
    set i: nat | i < |taken| && taken[i]
  }

  /** Free indices and taken ones together are all. */
  lemma StackCount(free: seq<nat>, taken: seq<bool>)
    requires forall i, j | 0 <= i < j < |free| :: free[i] != free[j]
    requires forall i: nat :: i in free <==> i < |taken| && !taken[i]
    ensures |free| + |Busy(taken)| == |taken|
  {
    var onStack := Elements(free);
    DistinctCount(free);
    forall i: nat
      ensures (i in onStack || i in Busy(taken) <==> i in Below(|taken|)) && !(i in onStack && i in Busy(taken))
    {
      assert i in onStack <==> i in free;
    }
    PartsCount(onStack, Busy(taken), Below(|taken|));
  }

  /** The counter is the number of live blocks; in particular it is positive when there is one. */
  lemma UsedCountsLive(p: Pool)
    requires p.Agrees()
    ensures |Busy(p.taken)| == p.used
    ensures forall i: nat | i < p.blockCount && p.taken[i] :: p.used > 0 && p.blockSize > 0 && i !in p.free
  {
    forall i: nat
      ensures i in p.free <==> i < |p.taken| && !p.taken[i]
    {
      if i in p.free {
        var k :| 0 <= k < |p.free| && p.free[k] == i;
      }
    }
    StackCount(p.free, p.taken);
    forall i: nat | i < p.blockCount && p.taken[i]
      ensures p.used > 0
    {
      assert i in Busy(p.taken);
    }
  }

  lemma CutDown(n: nat)
    ensures U64(n) <= n
  {
  }

  /** What is owned starts inside the storage, so its index is one of a block. */
  lemma OwnedIndex(p: Pool, ptr: nat)
    requires p.Owns(ptr)
    ensures p.blockSize > 0 && (ptr - p.base) / p.blockSize < p.blockCount
    ensures (ptr - p.base) % p.blockSize == 0 ==> ptr == p.base + (ptr - p.base) / p.blockSize * p.blockSize
  {
    hide U64;
    CutDown(p.blockSize * p.blockCount);
    IndexOf(p.blockSize, p.blockCount, 0, ptr - p.base);
  }

  lemma LiveIsFreed(p: Pool, i: nat, ptr: nat)
    requires |p.taken| == p.blockCount && (p.Storage() > 0 ==> p.base > 0) && p.LiveAt(i, ptr)
    ensures p.Owns(ptr) && Free(p, ptr).1 && p.blockSize > 0 && (ptr - p.base) / p.blockSize == i
  {
    hide U64;
    assert p.Storage() > 0 && p.blockSize > 0;
    IndexOf(p.blockSize, p.blockCount, i, ptr - p.base);
  }

  /** `free_block` succeeds for exactly the live blocks that start inside the storage. */
  lemma FreeExact(p: Pool, ptr: nat)
    requires p.Agrees()
    ensures Free(p, ptr).1 <==> exists i: nat :: p.LiveAt(i, ptr)
    ensures Free(p, ptr).1 ==>
            var i := (ptr - p.base) / p.blockSize;
            && p.LiveAt(i, ptr) && p.Address(i) == ptr
            && Free(p, ptr).0 == p.(taken := p.taken[i := false], free := p.free + [i], used := U64(p.used - 1))
    ensures !Free(p, ptr).1 ==> Free(p, ptr).0 == p
  {
    hide Pool.Agrees, U64;
    BitmapSize(p);
    if p.Owns(ptr) {
      OwnedIndex(p, ptr);
    }
    if Free(p, ptr).1 {
      var i := (ptr - p.base) / p.blockSize;
      assert p.LiveAt(i, ptr);
    } else if i: nat :| p.LiveAt(i, ptr) {
      LiveIsFreed(p, i, ptr);
    }
  }

  /**
   What one `free_block` does: it succeeds for exactly the live blocks that start inside the storage, takes that
   block off, and otherwise changes nothing; where the storage holds all the blocks, these are all the live ones.
   The index it computes is never out of range.
   */
  lemma FreeAgrees(p: Pool, ptr: nat)
    requires p.Agrees()
    ensures var (q, ok) := Free(p, ptr);
            && q.Agrees() && (ok <==> exists i: nat :: p.LiveAt(i, ptr)) && (ok ==> ptr in p.Live())
            && (ok ==> q.used == p.used - 1 && Allocate(q).1 == Block(ptr, p.blockSize))
            && (!ok ==> q == p)
            && (p.Owns(ptr) ==> (ptr - p.base) / p.blockSize < p.blockCount)
            && (p.Whole() ==> (ok <==> ptr in p.Live()) && (ok ==> q.Live() == p.Live() - {ptr}))
  {
    FreeExact(p, ptr);
    LiveIsOwned(p, ptr);
    if p.Owns(ptr) {
      OwnedIndex(p, ptr);
    }
    if Free(p, ptr).1 {
      var i := (ptr - p.base) / p.blockSize;
      FreedAgrees(p, i);
      if p.Whole() {
        UnmarkLive(p, Free(p, ptr).0, i);
      }
    }
  }

  lemma FreedAgrees(p: Pool, i: nat)
    requires p.Agrees() && i < p.blockCount && p.taken[i]
    ensures var q := p.(taken := p.taken[i := false], free := p.free + [i], used := U64(p.used - 1));
            q.Agrees() && q.used == p.used - 1 && Allocate(q).1 == Block(p.Address(i), p.blockSize)
  {
    UsedCountsLive(p);
    var q := p.(taken := p.taken[i := false], free := p.free + [i], used := U64(p.used - 1));
    forall k: nat | k < p.blockCount
      ensures k in q.free <==> !q.taken[k]
    {
      assert q.free[|p.free|] == i;
      assert forall x :: x in q.free <==> x in p.free || x == i;
    }
  }

  /** Where the storage holds all the blocks, each live one starts inside it, at a multiple of the block size. */
  lemma LiveIsOwned(p: Pool, ptr: nat)
    requires p.Agrees()
    ensures p.Whole() && ptr in p.Live() ==>
            p.Owns(ptr) && (ptr - p.base) % p.blockSize == 0 && p.LiveAt((ptr - p.base) / p.blockSize, ptr)
  {
    if p.Whole() && ptr in p.Live() {
      var i: nat :| i < p.blockCount && p.taken[i] && p.Address(i) == ptr;
      UsedCountsLive(p);
      NoWrap(p, i);
      Positive(p.blockSize, p.blockCount);
      IndexOf(p.blockSize, p.blockCount, i, ptr - p.base);
    }
  }

  lemma UnmarkLive(p: Pool, q: Pool, i: nat)
    requires |p.taken| == p.blockCount && i < p.blockCount && q.base == p.base && p.blockSize > 0 && p.taken[i]
    requires q.blockSize == p.blockSize && q.blockCount == p.blockCount && q.taken == p.taken[i := false] && p.Whole()
    ensures q.Live() == p.Live() - {p.Address(i)}
  {
    AddressesDiffer(p, i);
    forall k: nat | k < p.blockCount && p.taken[k] && k != i
      ensures p.Address(k) in q.Live()
    {
      assert q.taken[k] && q.Address(k) == p.Address(k);
    }
    forall k: nat | k < p.blockCount && q.taken[k]
      ensures q.Address(k) in p.Live() && q.Address(k) != p.Address(i)
    {
      assert p.taken[k] && k != i && q.Address(k) == p.Address(k);
    }
  }

  /**
   Two blocks of 2^63 + 8 bytes get 16 bytes of storage: block 1 is handed out far outside it, and freeing it is
   refused though it is live.
   */
  lemma WrappedStorage()
    ensures var size: u64 := TWO64 / 2 + 8;
            var p := NewPool(size, 2, 4096);
            var (one, a) := Allocate(p);
            var (two, b) := Allocate(one);
            && p.Storage() == 16 && a == Block(4096, size) && b == Block(4096 + size, size)
            && b.ptr in two.Live() && Free(two, b.ptr) == (two, false) && StatsOf(one).used > StatsOf(one).capacity
  {
    var size: u64 := TWO64 / 2 + 8;
    var p := NewPool(size, 2, 4096);
    var one := Allocate(p).0;
    var two := Allocate(one).0;
    assert p.free == [1, 0] && one.free == [1];
    assert two.taken[1] && two.Address(1) == 4096 + size;
  }

  // ---------------------------------------------------------------------------------------------
  // Runs, seen from outside

  datatype Op = DoAllocate | DoFree(ptr: nat)

  /** A pool and the blocks its user holds: those handed out and not given back since. */
  datatype Use = Use(pool: Pool, held: set<nat>)

  function StepUse(u: Use, op: Op): Use
    requires |u.pool.taken| == u.pool.blockCount
    requires forall i | 0 <= i < |u.pool.free| :: u.pool.free[i] < |u.pool.taken|
  {
    match op
    case DoAllocate =>
      var (q, b) := Allocate(u.pool);
      Use(q, if b.Usable() then u.held + {b.ptr} else u.held)
    case DoFree(ptr) =>
      var (q, ok) := Free(u.pool, ptr);
      Use(q, if ok then u.held - {ptr} else u.held)
  }

  ghost function RunUse(u: Use, ops: seq<Op>): (r: Use)
    requires u.pool.Agrees()
    ensures r.pool.Agrees()
    ensures (r.pool.blockSize, r.pool.blockCount, r.pool.base) == (u.pool.blockSize, u.pool.blockCount, u.pool.base)
    decreases |ops|
  {
    if ops == [] then u else
    StepAgrees(u, ops[0]);
    RunUse(StepUse(u, ops[0]), ops[1..])
  }

  /** Stack, bitmap and counters agree over every run, whatever the sizes. */
  lemma StepAgrees(u: Use, op: Op)
    requires u.pool.Agrees()
    ensures StepUse(u, op).pool.Agrees()
  {
    match op
    case DoAllocate => AllocateAgrees(u.pool);
    case DoFree(ptr) => FreeAgrees(u.pool, ptr);
  }

  /** Where the storage holds all the blocks, the user holds just the live ones over every run. */
  lemma {:induction false} RunHoldsLive(u: Use, ops: seq<Op>)
    requires u.pool.Agrees() && u.pool.Whole() && u.held == u.pool.Live()
    ensures RunUse(u, ops).held == RunUse(u, ops).pool.Live()
    decreases |ops|
  {
    if ops != [] {
      var next := StepUse(u, ops[0]);
      StepAgrees(u, ops[0]);
      StepHoldsLive(u, ops[0]);
      RunHoldsLive(next, ops[1..]);
    }
  }

  lemma StepHoldsLive(u: Use, op: Op)
    requires u.pool.Agrees() && u.pool.Whole() && u.held == u.pool.Live()
    ensures StepUse(u, op).pool.Agrees() && StepUse(u, op).held == StepUse(u, op).pool.Live()
    ensures StepUse(u, op).pool.Whole()
  {
    hide Pool.Agrees, Pool.Live, Pool.LiveAt;
    match op
    case DoAllocate => AllocateAgrees(u.pool);
    case DoFree(ptr) => FreeAgrees(u.pool, ptr);
  }

  /** The most blocks that are in use at any point of the run. */
  ghost function MostUsed(u: Use, ops: seq<Op>): nat
    requires u.pool.Agrees()
    decreases |ops|
  {
    if ops == [] then u.pool.used else
    StepAgrees(u, ops[0]);
    Max(u.pool.used, MostUsed(StepUse(u, ops[0]), ops[1..]))
  }

  /** Over every run, whatever the sizes, the peak is the most blocks that were ever in use. */
  lemma {:induction false} PeakExact(u: Use, ops: seq<Op>)
    requires u.pool.Agrees()
    ensures RunUse(u, ops).pool.peak == Max(u.pool.peak, MostUsed(u, ops))
    decreases |ops|
  {
    hide StepUse;
    CountsAgree(u.pool);
    if ops != [] {
      StepAgrees(u, ops[0]);
      StepPeak(u, ops[0]);
      PeakExact(StepUse(u, ops[0]), ops[1..]);
    }
  }

  lemma StepPeak(u: Use, op: Op)
    requires u.pool.Agrees()
    ensures var next := StepUse(u, op).pool; next.peak == Max(u.pool.peak, next.used)
  {
    hide Pool.Agrees;
    BitmapSize(u.pool);
    CountsAgree(u.pool);
    StepCounts(u, op);
  }

  /** What a step does to the counters. */
  lemma StepCounts(u: Use, op: Op)
    requires u.pool.Agrees()
    ensures var next := StepUse(u, op).pool;
            if next.used > u.pool.used then next.peak == Max(u.pool.peak, next.used) else next.peak == u.pool.peak
  {
    if op.DoFree? {
      FreeExact(u.pool, op.ptr);
      FreeAgrees(u.pool, op.ptr);
    }
  }

  /** The blocks that the user holds lie in the storage. */
  ghost predicate InStorage(u: Use) {
    forall a | a in u.held :: u.pool.base <= a && a + u.pool.blockSize <= u.pool.base + u.pool.Storage()
  }

  /**
   What a pool is for: the blocks held lie in the storage and do not overlap, the counter is how many there are,
   another allocation fails only when no block is left, `free_block` succeeds for exactly the blocks held, and the
   byte figures are honest.
   */
  ghost predicate Serves(u: Use)
    requires u.pool.Agrees()
  {
    var p := u.pool;
    && InStorage(u)
    && (forall a, b | a in u.held && b in u.held && a != b :: a + p.blockSize <= b || b + p.blockSize <= a)
    && |u.held| == p.used
    && (Allocate(p).1 == NO_BLOCK <==> p.blockSize == 0 || |u.held| == p.blockCount)
    && (forall ptr :: Free(p, ptr).1 <==> ptr in u.held)
    && Honest(StatsOf(p), p)
  }

  function FreshUse(blockSize: u64, blockCount: u64, base: nat): Use {
    Use(NewPool(blockSize, blockCount, base), {})
  }

  lemma WholeServes(blockSize: u64, blockCount: u64, base: nat, ops: seq<Op>)
    requires (U64(blockSize * blockCount) > 0 ==> base > 0) && blockSize * blockCount < TWO64
    ensures FreshUse(blockSize, blockCount, base).pool.Agrees()
    ensures Serves(RunUse(FreshUse(blockSize, blockCount, base), ops))
  {
    hide Pool.Agrees, Pool.Live, Honest, Free, Allocate;
    NewPoolAgrees(blockSize, blockCount, base);
    var u := RunUse(FreshUse(blockSize, blockCount, base), ops);
    var p := u.pool;
    RunHoldsLive(FreshUse(blockSize, blockCount, base), ops);
    BitmapSize(p);
    LiveBlocksApart(p);
    HeldCount(p);
    AllocateAgrees(p);
    StatsHonest(p);
    forall ptr
      ensures Free(p, ptr).1 <==> ptr in u.held
    {
      FreeAgrees(p, ptr);
    }
  }

  /** The stack of a new pool, after the first `from` blocks were handed out. */
  function FreeFrom(p: Pool, from: nat): seq<nat>
    requires from <= p.blockCount
  {
    NewPool(p.blockSize, p.blockCount, p.base).free[..p.blockCount - from]
  }

  lemma NextBlock(u: Use, from: nat)
    requires u.pool.Agrees() && u.pool.blockSize > 0 && from < u.pool.blockCount && u.pool.free == FreeFrom(u.pool, from)
    ensures var next := StepUse(u, DoAllocate);
            && next.pool.Agrees() && next.pool.free == FreeFrom(next.pool, from + 1)
            && (u.pool.Address(from) != 0 ==> u.pool.Address(from) in next.held)
    ensures var p := StepUse(u, DoAllocate).pool;
            (p.blockSize, p.blockCount, p.base) == (u.pool.blockSize, u.pool.blockCount, u.pool.base)
  {
    StepAgrees(u, DoAllocate);
    hide Pool.Agrees, U64;
  }

  /** `n` allocations hand out the next `n` blocks, in order. */
  lemma {:induction false} FirstBlocks(u: Use, from: nat, n: nat)
    requires u.pool.Agrees() && u.pool.blockSize > 0 && n > 0 && from + n <= u.pool.blockCount
    requires u.pool.free == FreeFrom(u.pool, from)
    ensures var last := from + n - 1;
            u.pool.Address(last) != 0 ==> u.pool.Address(last) in RunUse(u, seq(n, _ => DoAllocate)).held
    decreases n
  {
    hide U64, FreeFrom, StepUse;
    var ops := seq(n, _ => DoAllocate);
    NextBlock(u, from);
    assert ops[0] == DoAllocate && ops[1..] == seq(n - 1, _ => DoAllocate);
    assert RunUse(u, ops) == RunUse(StepUse(u, DoAllocate), ops[1..]);
    if n == 1 {
      assert ops[1..] == [];
    } else {
      FirstBlocks(StepUse(u, DoAllocate), from + 1, n - 1);
    }
  }

  /** Where the storage does not hold all the blocks, the first block that would reach past 2^64 is not in it. */
  lemma WrappedFails(blockSize: u64, blockCount: u64, base: nat) returns (ops: seq<Op>)
    requires (U64(blockSize * blockCount) > 0 ==> base > 0) && blockSize * blockCount >= TWO64
    ensures FreshUse(blockSize, blockCount, base).pool.Agrees()
    ensures !InStorage(RunUse(FreshUse(blockSize, blockCount, base), ops))
  {
    NewPoolAgrees(blockSize, blockCount, base);
    var u := FreshUse(blockSize, blockCount, base);
    var i := (TWO64 - 1) / blockSize;
    LastBelow(blockSize, blockCount);
    assert u.pool.free[..u.pool.blockCount] == u.pool.free;
    FirstBlocks(u, 0, i + 1);
    ops := seq(i + 1, _ => DoAllocate);
  }

  lemma LastBelow(blockSize: u64, blockCount: u64)
    requires blockSize * blockCount >= TWO64
    ensures blockSize > 0
    ensures var i := (TWO64 - 1) / blockSize; 0 < i < blockCount && i * blockSize < TWO64 <= i * blockSize + blockSize
  {
    IndexOf(blockSize, blockCount, 0, TWO64 - 1);
  }

  /**
   A new pool does what it is for over all runs of allocations and frees exactly when the product of block size
   and block count does not wrap; when it does, some run even leaves its user with a block outside the storage.
   */
  lemma PoolRun(blockSize: u64, blockCount: u64, base: nat)
    requires U64(blockSize * blockCount) > 0 ==> base > 0
    ensures FreshUse(blockSize, blockCount, base).pool.Agrees()
    ensures (forall ops :: Serves(RunUse(FreshUse(blockSize, blockCount, base), ops))) <==> blockSize * blockCount < TWO64
    ensures (forall ops :: InStorage(RunUse(FreshUse(blockSize, blockCount, base), ops))) <==> blockSize * blockCount < TWO64
  {
    hide Serves, InStorage, RunUse, Pool.Agrees;
    NewPoolAgrees(blockSize, blockCount, base);
    if blockSize * blockCount < TWO64 {
      forall ops
        ensures Serves(RunUse(FreshUse(blockSize, blockCount, base), ops))
        ensures InStorage(RunUse(FreshUse(blockSize, blockCount, base), ops))
      {
        WholeServes(blockSize, blockCount, base, ops);
        ServesInStorage(RunUse(FreshUse(blockSize, blockCount, base), ops));
      }
    } else {
      var ops := WrappedFails(blockSize, blockCount, base);
      var u := RunUse(FreshUse(blockSize, blockCount, base), ops);
      if Serves(u) {
        ServesInStorage(u);
      }
    }
  }

  lemma ServesInStorage(u: Use)
    requires u.pool.Agrees() && Serves(u)
    ensures InStorage(u)
  {
  }

  lemma LiveBlocksApart(p: Pool)
    requires |p.taken| == p.blockCount && p.Whole()
    ensures forall a | a in p.Live() :: p.base <= a && a + p.blockSize <= p.base + p.Storage()
    ensures forall a, b | a in p.Live() && b in p.Live() && a != b :: a + p.blockSize <= b || b + p.blockSize <= a
  {
    hide Pool.Agrees, Pool.Live, Pool.Address;
    forall a | a in p.Live()
      ensures p.base <= a && a + p.blockSize <= p.base + p.Storage()
    {
      var i := LiveIndex(p, a);
    }
    forall a, b | a in p.Live() && b in p.Live() && a != b
      ensures a + p.blockSize <= b || b + p.blockSize <= a
    {
      var i := LiveIndex(p, a);
      var j := LiveIndex(p, b);
      BlocksApart(p, i, j);
    }
  }

  lemma LiveIndex(p: Pool, a: nat) returns (i: nat)
    requires |p.taken| == p.blockCount && a in p.Live() && p.Whole()
    ensures i < p.blockCount && p.taken[i] && p.Address(i) == a
    ensures p.base <= a && a + p.blockSize <= p.base + p.Storage()
  {
    i :| i < p.blockCount && p.taken[i] && p.Address(i) == a;
    NoWrap(p, i);
  }

  lemma BlocksApart(p: Pool, i: nat, j: nat)
    requires p.Whole() && i < p.blockCount && j < p.blockCount && p.Address(i) != p.Address(j)
    ensures p.Address(i) + p.blockSize <= p.Address(j) || p.Address(j) + p.blockSize <= p.Address(i)
  {
    NoWrap(p, i);
    NoWrap(p, j);
    if i < j { Apart(p.blockSize, i, j); } else { Apart(p.blockSize, j, i); }
  }

  /** Different live indices have different addresses, so there are as many of one as of the other. */
  lemma HeldCount(p: Pool)
    requires p.Agrees() && p.Whole()
    ensures |p.Live()| == p.used
  {
    UsedCountsLive(p);
    var busy := Busy(p.taken);
    ImageCount(p, busy);
    assert p.Live() == set i | i in busy :: p.Address(i);
  }

  lemma {:induction false} ImageCount(p: Pool, s: set<nat>)
    requires p.Whole() && (s != {} ==> p.blockSize > 0) && forall i | i in s :: i < p.blockCount
    ensures |set i | i in s :: p.Address(i)| == |s|
    decreases |s|
  {
    if s == {} {
      assert (set i | i in s :: p.Address(i)) == {};
    } else {
      var k :| k in s;
      var rest := s - {k};
      ImageCount(p, rest);
      AddressesDiffer(p, k);
      assert (set i | i in s :: p.Address(i)) == (set i | i in rest :: p.Address(i)) + {p.Address(k)};
    }
  }

  lemma BitmapSize(p: Pool)
    requires p.Agrees()
    ensures |p.taken| == p.blockCount && (p.Storage() > 0 ==> p.base > 0)
  {
  }

  // ---------------------------------------------------------------------------------------------
  // The code

  class FixedBlockPool {
    const blockSize: u64
    const blockCount: u64
    /** The address of the storage. */
    const base: nat
    var freeIndices: seq<nat>
    var taken: seq<bool>
    var usedBlocks: nat
    var peakUsedBlocks: nat

    ghost function View(): Pool
      reads this
    {
      Pool(blockSize, blockCount, base, freeIndices, taken, usedBlocks, peakUsedBlocks)
    }

    ghost predicate Valid()
      reads this
    {
      View().Agrees()
    }

    constructor (blockSize: u64, blockCount: u64, base: nat)
      requires U64(blockSize * blockCount) > 0 ==> base > 0
      ensures Valid() && View() == NewPool(blockSize, blockCount, base)
    {
      this.blockSize, this.blockCount, this.base := blockSize, blockCount, base;
      taken := seq(blockCount, _ => false);
      usedBlocks, peakUsedBlocks := 0, 0;
      freeIndices := [];
      new;
      for i := 0 to blockCount
        invariant freeIndices == NewPool(blockSize, blockCount, base).free[..i]
        invariant taken == seq(blockCount, _ => false) && usedBlocks == peakUsedBlocks == 0
      {
        freeIndices := freeIndices + [blockCount - 1 - i];
      }
      NewPoolAgrees(blockSize, blockCount, base);
    }

    method AllocateBlock() returns (b: Block)
      requires Valid()
      modifies this
      ensures Valid() && (View(), b) == Allocate(old(View()))
    {
      AllocateAgrees(View());
      if blockSize == 0 || blockCount == 0 || freeIndices == [] {
        return NO_BLOCK;
      }
      var index := freeIndices[|freeIndices| - 1];
      freeIndices := freeIndices[..|freeIndices| - 1];
      taken := taken[index := true];
      usedBlocks := usedBlocks + 1;
      peakUsedBlocks := Max(peakUsedBlocks, usedBlocks);
      return Block(base + U64(index * blockSize), blockSize);
    }

    method FreeBlock(ptr: nat) returns (ok: bool)
      requires Valid()
      modifies this
      ensures Valid() && (View(), ok) == Free(old(View()), ptr)
    {
      hide Pool.Agrees, Pool.Live, Pool.LiveAt;
      BitmapSize(View());
      FreeAgrees(View(), ptr);
      if !OwnsPointer(ptr) {
        return false;
      }
      var offset := ptr - base;
      if offset % blockSize != 0 {
        return false;
      }
      var index := offset / blockSize;
      if index >= blockCount || !taken[index] {
        return false;
      }
      taken := taken[index := false];
      freeIndices := freeIndices + [index];
      usedBlocks := U64(usedBlocks - 1);
      return true;
    }

    method ReadStats() returns (s: Stats)
      ensures s == StatsOf(View())
    {
      var capacityBytes: int := U64(blockSize * blockCount);
      var usedBytes: int := U64(blockSize * usedBlocks);
      var peakBytes := U64(blockSize * peakUsedBlocks);
      return Stats(capacityBytes, usedBytes, U64(capacityBytes - usedBytes), peakBytes);
    }

    predicate OwnsPointer(ptr: nat)
      reads this
    {
      ptr != 0 && U64(blockSize * blockCount) != 0 && base <= ptr < base + U64(blockSize * blockCount)
    }
  }
}

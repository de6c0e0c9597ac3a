/** Whole runs of the frame pool and the virtual page allocator together:
    ownership and counter conservation in every reachable state. */
module MemoryRuns {
  import opened Words
  import opened Runs
  import opened Frames
  import opened PageWalk
  import opened Memory
  import opened Ownership

  datatype MemOp =
    | PoolAlloc(count: nat)
    | PoolFree(phys: nat)
    | ReserveOnly(count: nat)
    | UnreserveOnly(virt: nat, count: nat)
    | AllocPages(count: nat)
    | AllocRunOfFrames(count: nat)
    | FreePages(virt: nat, count: nat)
    | MapDevice(phys: nat, length: Word, flags: nat)
    | UnmapDevice(virt: nat, length: Word)
    | DestroyAll

  function Step(m: Mem, op: MemOp): Mem
  {
    match op
    case PoolAlloc(count) => m.(pool := Frames.Alloc(m.pool, count).0)
    case PoolFree(phys) => m.(pool := Frames.Free(m.pool, phys, 1))
    case ReserveOnly(count) => m.(space := Reserve(m.space, count).0)
    case UnreserveOnly(virt, count) => m.(space := Unreserve(m.space, virt, count))
    case AllocPages(count) => Memory.Alloc(m, count).0
    case AllocRunOfFrames(count) => AllocContiguous(m, count).0
    case FreePages(virt, count) => Memory.Free(m, virt, count)
    case MapDevice(phys, length, flags) => Mmap(m, phys, length, flags).0
    case UnmapDevice(virt, length) => Munmap(m, virt, length)
    case DestroyAll => Destroy(m, 0)
  }

  /** What callers owe: a frame freed by hand is used and unmapped, pages given
      up by hand are unmapped, `mmap` gets frames that are used and unmapped,
      and nothing reaches into the page-table window. */
  ghost predicate Legal(m: Mem, op: MemOp)
  {
    match op
    case PoolFree(phys) =>
      phys > 0 && (forall v :: v in m.pages ==> FrameOf(m.pages[v]) != phys / PAGE)
      && (phys % PAGE == 0 ==> FrameUsed(m.pool, phys / PAGE))
    case UnreserveOnly(virt, count) => GivesUpUnmapped(m, virt, count)
    case FreePages(virt, count) => virt / PAGE + count <= WINDOW
    case MapDevice(phys, length, _) => MayMap(m, phys, PageCount(length))
    case UnmapDevice(virt, length) => virt / PAGE + PageCount(length) <= WINDOW
    case DestroyAll => m.space.base > 0
    case _ => true
  }

  ghost predicate LegalRun(m: Mem, ops: seq<MemOp>)
    decreases |ops|
  {
    ops == [] || (Legal(m, ops[0]) && LegalRun(Step(m, ops[0]), ops[1..]))
  }

  function Run(m: Mem, ops: seq<MemOp>): Mem
    decreases |ops|
  {
    if ops == [] then m else Run(Step(m, ops[0]), ops[1..])
  }

  lemma PoolAllocOwned(m: Mem, count: nat)
    requires Owned(m)
    ensures Owned(m.(pool := Frames.Alloc(m.pool, count).0))
  {
    AllocGivesRun(m.pool, count);
    var q := Frames.Alloc(m.pool, count).0;
    forall v | v in m.pages ensures FrameUsed(q, FrameOf(m.pages[v])) && FrameOf(m.pages[v]) != 0 {
      assert FrameUsed(m.pool, FrameOf(m.pages[v]));
    }
  }

  lemma PoolFreeOwned(m: Mem, phys: nat)
    requires Owned(m) && Legal(m, PoolFree(phys))
    ensures Owned(m.(pool := Frames.Free(m.pool, phys, 1)))
  {
    FreeOneInv(m.pool, phys);
    var q := Frames.Free(m.pool, phys, 1);
    forall v | v in m.pages ensures FrameUsed(q, FrameOf(m.pages[v])) && FrameOf(m.pages[v]) != 0 {
      assert FrameUsed(m.pool, FrameOf(m.pages[v]));
    }
  }

  lemma ReserveOwned(m: Mem, count: nat)
    requires Owned(m)
    ensures Owned(m.(space := Reserve(m.space, count).0))
  {
    ReserveFresh(m, count);
    BitsKept(m.space, Reserve(m.space, count).0, m.pages);
  }

  /** Every operation keeps one owner per frame. */
  lemma StepOwned(m: Mem, op: MemOp)
    requires Owned(m) && Legal(m, op)
    ensures Owned(Step(m, op))
  {
    match op
    case PoolAlloc(count) => PoolAllocOwned(m, count);
    case PoolFree(phys) => PoolFreeOwned(m, phys);
    case ReserveOnly(count) => ReserveOwned(m, count);
    case UnreserveOnly(virt, count) => UnreserveOwnedIff(m, virt, count);
    case AllocPages(count) => AllocOwned(m, count);
    case AllocRunOfFrames(count) => AllocContiguousOwned(m, count);
    case FreePages(virt, count) => FreeOwned(m, virt, count);
    case MapDevice(phys, length, flags) => MmapOwned(m, phys, length, flags);
    case UnmapDevice(virt, length) => MunmapOwned(m, virt, length);
    case DestroyAll => DestroyOutcome(m, 0);
  }

  /** Frame ownership over every run. */
  lemma {:induction false} RunOwned(m: Mem, ops: seq<MemOp>)
    requires Owned(m) && LegalRun(m, ops)
    ensures Owned(Run(m, ops))
    decreases |ops|
  {
    if ops != [] {
      StepOwned(m, ops[0]);
      RunOwned(Step(m, ops[0]), ops[1..]);
    }
  }

  // ---- counters of the VMM ----

  /** `free + used` is the whole range, and at least `free` bits are clear. */
  ghost predicate SpaceCounted(s: Space)
  {
    s.free + s.usedCount == |s.used| < WORD && s.free <= CountFree(s.used)
  }

  /** Clear bits that `free_pages` does not count. */
  ghost function Gap(s: Space): int
  {
    CountFree(s.used) - s.free
  }

  /** Pages given back are a reserved range of the VMM. */
  ghost predicate ReservedRange(s: Space, virt: nat, count: nat)
  {
    && virt % PAGE == 0 && virt > 0 && s.base <= virt / PAGE
    && virt / PAGE + count <= s.base + |s.used|
    && forall j :: virt / PAGE - s.base <= j < virt / PAGE - s.base + count ==> s.used[j]
  }

  ghost predicate ValidFree(m: Mem, op: MemOp)
  {
    match op
    case UnreserveOnly(virt, count) => ReservedRange(m.space, virt, count)
    case FreePages(virt, count) => ReservedRange(m.space, virt, count)
    case UnmapDevice(virt, length) => ReservedRange(m.space, virt, PageCount(length))
    case DestroyAll => false
    case _ => true
  }

  lemma CounterMoves(x: nat, y: nat, c: nat)
    requires c <= x && x + y < WORD
    ensures Minus(x, c) == x - c && (y + c) % WORD == y + c
  {
  }

  lemma ReserveCounted(m: Mem, count: nat)
    requires Owned(m) && SpaceCounted(m.space)
    ensures SpaceCounted(Reserve(m.space, count).0) && Gap(Reserve(m.space, count).0) == Gap(m.space)
  {
    ReserveFresh(m, count);
    var (s, virt) := Reserve(m.space, count);
    if virt != 0 { TakenCounted(m.space, s, virt / PAGE - s.base, count); }
  }

  lemma TakenCounted(s: Space, t: Space, q: nat, count: nat)
    requires SpaceCounted(s) && FreeRun(s.used, q, count) && count <= s.free
    requires t.used == SetRange(s.used, q, count, true)
    requires t.free == Minus(s.free, count) && t.usedCount == (s.usedCount + count) % WORD
    ensures SpaceCounted(t) && Gap(t) == Gap(s)
  {
    CountFreeRange(s.used, q, count, true);
    CounterMoves(s.free, s.usedCount, count);
  }

  lemma UnreserveCounted(s: Space, virt: nat, count: nat)
    requires SpaceCounted(s) && SpaceOk(s) && ReservedRange(s, virt, count)
    ensures SpaceCounted(Unreserve(s, virt, count)) && Gap(Unreserve(s, virt, count)) == Gap(s)
  {
    if count > 0 {
      var q := virt / PAGE - s.base;
      UnreservePlain(s, virt, count);
      var t := SetRange(s.used, q, count, false);
      CountFreeRange(s.used, q, count, false);
      assert s.free + count <= CountFree(t) <= |t|;
      CounterMoves(s.usedCount, s.free, count);
    }
  }

  /** Pages whose bits a failed `vmm_alloc` clears again without counting them. */
  ghost function RolledBack(m: Mem, op: MemOp): nat
  {
    match op
    case AllocPages(count) =>
      if Reserve(m.space, count).1 != 0 && CountFree(m.pool.used) < count then CountFree(m.pool.used) else 0
    case _ => 0
  }

  lemma AllocCounted(m: Mem, count: nat)
    requires Owned(m) && SpaceCounted(m.space)
    ensures var s := Memory.Alloc(m, count).0.space;
      SpaceCounted(s) && Gap(s) == Gap(m.space) + RolledBack(m, AllocPages(count))
  {
    ReserveCounted(m, count);
    AllocFailing(m, count);
    if RolledBack(m, AllocPages(count)) > 0 {
      AllocFailureDrift(m, count);
    } else {
      var fs := AllocBacking(m, count);
      var (s, start) := Reserve(m.space, count);
      if start != 0 && CountFree(m.pool.used) < count {
        assert SetRange(s.used, start / PAGE - s.base, 0, false) == s.used;
      }
    }
  }

  /** Every operation with valid frees conserves the counters; the gap grows by
      exactly the pages a failed `vmm_alloc` rolls back. */
  lemma StepCounted(m: Mem, op: MemOp)
    requires Owned(m) && SpaceCounted(m.space) && Legal(m, op) && ValidFree(m, op)
    ensures SpaceCounted(Step(m, op).space)
    ensures Gap(Step(m, op).space) == Gap(m.space) + RolledBack(m, op)
  {
    match op
    case PoolAlloc(_) =>
    case PoolFree(_) =>
    case ReserveOnly(count) => ReserveCounted(m, count);
    case UnreserveOnly(virt, count) => UnreserveCounted(m.space, virt, count);
    case AllocPages(count) => AllocCounted(m, count);
    case AllocRunOfFrames(count) => ReserveCounted(m, count); ContiguousBacking(m, count);
    case FreePages(virt, count) => UnreserveCounted(m.space, virt, count);
    case MapDevice(_, length, _) => ReserveCounted(m, PageCount(length));
    case UnmapDevice(virt, length) => UnreserveCounted(m.space, virt, PageCount(length));
  }

  ghost predicate ValidRun(m: Mem, ops: seq<MemOp>)
    decreases |ops|
  {
    ops == [] || (Legal(m, ops[0]) && ValidFree(m, ops[0]) && ValidRun(Step(m, ops[0]), ops[1..]))
  }

  ghost function RolledBackInAll(m: Mem, ops: seq<MemOp>): nat
    decreases |ops|
  {
    if ops == [] then 0 else RolledBack(m, ops[0]) + RolledBackInAll(Step(m, ops[0]), ops[1..])
  }

  /** Counter conservation over every run with valid frees: the pool's counters
      are exact, the VMM's add up to its size, and `free_pages` falls short of
      the clear bits by exactly the pages rolled back. */
  lemma {:induction false} RunCounted(m: Mem, ops: seq<MemOp>)
    requires Owned(m) && SpaceCounted(m.space) && ValidRun(m, ops)
    ensures Counted(Run(m, ops).pool) && SpaceCounted(Run(m, ops).space)
    ensures Gap(Run(m, ops).space) == Gap(m.space) + RolledBackInAll(m, ops)
    decreases |ops|
  {
    if ops != [] {
      StepOwned(m, ops[0]);
      StepCounted(m, ops[0]);
      RunCounted(Step(m, ops[0]), ops[1..]);
    }
  }
}

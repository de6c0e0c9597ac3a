/** The whole memory stack from boot on: heap, VMM and pool together never touch
    the kernel's own pages. */
module SystemRuns {
  import opened Words
  import opened PageWalk
  import opened Memory
  import opened Ownership
  import opened MemoryRuns
  import opened Layout
  import opened KernelHeap
  import opened HeapLive
  import opened Kinit
  import opened Boot
  import opened BootRuns
  import Frames
  import HeapRuns

  ghost predicate RegionsAbove(h: seq<Region>, lo: nat)
  {
    forall i :: 0 <= i < |h| ==> h[i].base / PAGE >= lo
  }

  /** The first `n` frames and pages are used, and no heap region reaches into them. */
  ghost predicate Spared(s: Sys, n: nat)
  {
    Protected(s.mem, n) && RegionsAbove(s.heap, s.mem.space.base + n)
  }

  /** Callers of the VMM do not give the protected pages up; heap calls may be
      anything. */
  ghost predicate OpRespects(s: Sys, op: HeapRuns.SysOp, n: nat)
  {
    op.Other? ==> Respects(s.mem, op.op, n)
  }

  ghost predicate RunRespects(s: Sys, ops: seq<HeapRuns.SysOp>, n: nat)
    decreases |ops|
  {
    |ops| == 0 ||
    (HeapRuns.SysLegal(s, ops[0]) && OpRespects(s, ops[0], n) && RunRespects(HeapRuns.SysStep(s, ops[0]), ops[1..], n))
  }

  lemma ObtainSpared(m: Mem, pages: nat, contiguous: bool, n: nat)
    requires Owned(m) && Protected(m, n)
    ensures var (r, base) := Obtain(m, pages, contiguous);
      && Protected(r, n) && r.space.base == m.space.base
      && (base != 0 ==> base / PAGE >= m.space.base + n)
  {
    BootRuns.HandedOut(m, n, pages);
    if contiguous {
      StepProtected(m, AllocRunOfFrames(pages), n);
    } else {
      StepProtected(m, AllocPages(pages), n);
    }
  }

  lemma AllocateSpared(s: Sys, size: Word, contiguous: bool, n: nat)
    requires SysInv(s) && Spared(s, n)
    ensures Spared(HeapAlloc(s, size, contiguous).0, n)
    ensures HeapAlloc(s, size, contiguous).0.mem.space.base == s.mem.space.base
  {
    if size > 0 && FindFree(s.heap, Align16(size), contiguous, 0).None? {
      ObtainSpared(s.mem, GrowPages(Align16(size)), contiguous, n);
    }
  }

  lemma ReleaseSpared(s: Sys, ptr: nat, n: nat)
    requires SysInv(s) && Spared(s, n)
    ensures Spared(HeapFree(s, ptr), n) && HeapFree(s, ptr).mem.space.base == s.mem.space.base
  {
    if ptr != 0 && FindPtr(s.heap, ptr, 0).Some? {
      var (i, j) := FindPtr(s.heap, ptr, 0).value;
      var r := s.heap[i];
      if r.blocks[j].used && |Give(r.blocks, j)| == 1 {
        RegionReturned(s, i, n);
      }
    }
  }

  lemma RegionReturned(s: Sys, i: nat, n: nat)
    requires SysInv(s) && Spared(s, n) && i < |s.heap|
    ensures var m := Memory.Free(s.mem, s.heap[i].base, s.heap[i].size / PAGE);
      Protected(m, n) && m.space.base == s.mem.space.base
  {
    var r := s.heap[i];
    FreeKeepsFrames(s.mem, r.base, r.size / PAGE);
    assert RegionOk(r) && RegionHeld(s.mem, r);
    RegionBelowWindow(s.mem, r);
    GivesUp(s.mem, Unreserve(s.mem.space, r.base, r.size / PAGE), r.base, r.size / PAGE, n);
  }

  lemma StepSpared(s: Sys, op: HeapRuns.SysOp, n: nat)
    requires SysInv(s) && Spared(s, n) && HeapRuns.SysLegal(s, op) && OpRespects(s, op, n)
    ensures Spared(HeapRuns.SysStep(s, op), n) && HeapRuns.SysStep(s, op).mem.space.base == s.mem.space.base
  {
    match op
    case Allocate(size, contiguous) => AllocateSpared(s, size, contiguous, n);
    case Release(ptr) => ReleaseSpared(s, ptr, n);
    case Other(o) => StepProtected(s.mem, o, n);
  }

  lemma {:induction false} RunSpared(s: Sys, ops: seq<HeapRuns.SysOp>, n: nat)
    requires SysInv(s) && Spared(s, n) && RunRespects(s, ops, n)
    ensures var t := HeapRuns.SysRun(s, ops); SysInv(t) && Spared(t, n) && t.mem.space.base == s.mem.space.base
    decreases |ops|
  {
    if |ops| > 0 {
      HeapRuns.StepInv(s, ops[0]);
      StepSpared(s, ops[0], n);
      RunSpared(HeapRuns.SysStep(s, ops[0]), ops[1..], n);
    }
  }

  /** A live block lies in its region. */
  lemma BlockAbove(s: Sys, b: Block, lo: nat)
    requires SysInv(s) && b in Live(s.heap) && RegionsAbove(s.heap, lo)
    ensures b.addr / PAGE >= lo
  {
    var i := LiveWhere(s.heap, b);
    assert RegionOk(s.heap[i]);
    BlockInside(s.heap[i], b);
  }

  /** From boot on, through any run of heap and VMM calls that does not give the
      kernel's own pages up explicitly: the invariants of the whole stack hold, the
      kernel's pages and frames stay used, and all heap memory lies above them. */
  lemma BootRun(i: Image, regions: seq<Frames.PhysRegion>, ops: seq<HeapRuns.SysOp>)
    requires ImageOk(i) && RunRespects(Sys(MmInit(i, regions), []), ops, KernelEnd(i, regions))
    ensures var t, n := HeapRuns.SysRun(Sys(MmInit(i, regions), []), ops), KernelEnd(i, regions);
      && SysInv(t) && Protected(t.mem, n)
      && forall b :: b in Live(t.heap) ==> b.addr / PAGE >= KV + n
  {
    var s, n := Sys(MmInit(i, regions), []), KernelEnd(i, regions);
    BootOwned(i, regions);
    BootSystem(i, regions);
    BootSpaceOk(i, regions);
    RunSpared(s, ops, n);
    var t := HeapRuns.SysRun(s, ops);
    forall b | b in Live(t.heap) ensures b.addr / PAGE >= KV + n { BlockAbove(t, b, KV + n); }
  }

  // ---- the page tables ----

  /** A step that keeps all held pages but those from `v` on keeps the kernel's own
      mappings, if it does not cover them. */
  lemma KeptMapped(m: Mem, r: Mem, v: nat, count: nat, n: nat, lo: nat, hi: nat)
    requires KernelMapped(m, lo, hi) && Protected(m, n) && KeepsOutside(m, r, v, count) && m.space.base == KV
    requires hi <= n <= |m.space.used| && Clear(m, v, count, n)
    ensures KernelMapped(r, lo, hi)
  {
    forall k: nat | KV + lo <= k < KV + hi ensures k in r.pages && FrameOf(r.pages[k]) == k - KV {
      assert PageHeld(m, k);
    }
  }

  lemma StepMapped(s: Sys, op: HeapRuns.SysOp, n: nat, lo: nat, hi: nat)
    requires SysInv(s) && Spared(s, n) && HeapRuns.SysLegal(s, op) && OpRespects(s, op, n)
    requires KernelMapped(s.mem, lo, hi) && s.mem.space.base == KV && hi <= n <= |s.mem.space.used|
    ensures KernelMapped(HeapRuns.SysStep(s, op).mem, lo, hi)
    ensures |HeapRuns.SysStep(s, op).mem.space.used| == |s.mem.space.used|
  {
    match op
    case Allocate(size, contiguous) =>
      HeapRuns.AllocateKeeps(s, size, contiguous);
      KeptMapped(s.mem, HeapAlloc(s, size, contiguous).0.mem, 0, 0, n, lo, hi);
    case Release(ptr) => ReleaseMapped(s, ptr, n, lo, hi);
    case Other(o) =>
      HeapRuns.OtherKeeps(s.mem, o);
      KeptMapped(s.mem, Step(s.mem, o), HeapRuns.FreedRange(o).0, HeapRuns.FreedRange(o).1, n, lo, hi);
  }

  lemma ReleaseMapped(s: Sys, ptr: nat, n: nat, lo: nat, hi: nat)
    requires SysInv(s) && Spared(s, n)
    requires KernelMapped(s.mem, lo, hi) && s.mem.space.base == KV && hi <= n <= |s.mem.space.used|
    ensures KernelMapped(HeapFree(s, ptr).mem, lo, hi)
    ensures |HeapFree(s, ptr).mem.space.used| == |s.mem.space.used|
  {
    if ptr != 0 && FindPtr(s.heap, ptr, 0).Some? {
      var (i, j) := FindPtr(s.heap, ptr, 0).value;
      var r := s.heap[i];
      if r.blocks[j].used && |Give(r.blocks, j)| == 1 {
        RegionMapped(s, i, n, lo, hi);
      }
    }
  }

  lemma RegionMapped(s: Sys, i: nat, n: nat, lo: nat, hi: nat)
    requires SysInv(s) && Spared(s, n) && i < |s.heap|
    requires KernelMapped(s.mem, lo, hi) && s.mem.space.base == KV && hi <= n <= |s.mem.space.used|
    ensures var m := Memory.Free(s.mem, s.heap[i].base, s.heap[i].size / PAGE);
      KernelMapped(m, lo, hi) && |m.space.used| == |s.mem.space.used|
  {
    var r := s.heap[i];
    assert RegionOk(r) && RegionHeld(s.mem, r);
    RegionBelowWindow(s.mem, r);
    FreeKeeps(s.mem, r.base, r.size / PAGE);
    KeptMapped(s.mem, Memory.Free(s.mem, r.base, r.size / PAGE), r.base / PAGE, r.size / PAGE, n, lo, hi);
  }

  lemma {:induction false} RunMapped(s: Sys, ops: seq<HeapRuns.SysOp>, n: nat, lo: nat, hi: nat)
    requires SysInv(s) && Spared(s, n) && RunRespects(s, ops, n)
    requires KernelMapped(s.mem, lo, hi) && s.mem.space.base == KV && hi <= n <= |s.mem.space.used|
    ensures KernelMapped(HeapRuns.SysRun(s, ops).mem, lo, hi)
    decreases |ops|
  {
    if |ops| > 0 {
      HeapRuns.StepInv(s, ops[0]);
      StepSpared(s, ops[0], n);
      StepMapped(s, ops[0], n, lo, hi);
      RunMapped(HeapRuns.SysStep(s, ops[0]), ops[1..], n, lo, hi);
    }
  }

  /** The frames of the page directory and the page tables: in every reachable state
      they are used in the pool, and no page maps one but the kernel's own. */
  lemma TablesSafe(i: Image, regions: seq<Frames.PhysRegion>, ops: seq<HeapRuns.SysOp>, root: nat)
    requires ImageOk(i) && RunRespects(Sys(MmInit(i, regions), []), ops, KernelEnd(i, regions)) && TablesInside(i, root)
    ensures var m := HeapRuns.SysRun(Sys(MmInit(i, regions), []), ops).mem;
      && (forall f :: root <= f < root + 1025 ==> FrameUsed(m.pool, f))
      && (forall v :: v in m.pages && root <= FrameOf(m.pages[v]) < root + 1025 ==> v == KV + FrameOf(m.pages[v]))
  {
    var s, n := Sys(MmInit(i, regions), []), KernelEnd(i, regions);
    BootOwned(i, regions);
    BootSystem(i, regions);
    BootSpaceOk(i, regions);
    ArenaBound(i, regions);
    DataMapped(i, regions);
    RunSpared(s, ops, n);
    RunMapped(s, ops, n, i.bss.first, i.bss.End());
    OnlyKernel(HeapRuns.SysRun(s, ops).mem, i.bss.first, i.bss.End());
  }

  lemma OnlyKernel(m: Mem, lo: nat, hi: nat)
    requires Owned(m) && KernelMapped(m, lo, hi)
    ensures forall v :: v in m.pages && lo <= FrameOf(m.pages[v]) < hi ==> v == KV + FrameOf(m.pages[v])
  {
    forall v | v in m.pages && lo <= FrameOf(m.pages[v]) < hi ensures v == KV + FrameOf(m.pages[v]) {
      var w := KV + FrameOf(m.pages[v]);
      assert w in m.pages && FrameOf(m.pages[w]) == FrameOf(m.pages[v]);
    }
  }
}

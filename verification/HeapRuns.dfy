/** Whole runs of the kernel's memory: `kmalloc` memory is physically contiguous
    in every reachable state and stays where it is until it is freed. */
module HeapRuns {
  import opened Words
  import opened Frames
  import opened PageWalk
  import opened Memory
  import opened Ownership
  import opened MemoryRuns
  import opened Layout
  import opened KernelHeap
  import opened HeapLive

  datatype SysOp =
    | Allocate(size: Word, contiguous: bool)
    | Release(ptr: nat)
    | Other(op: MemOp)

  function SysStep(s: Sys, op: SysOp): Sys
  {
    match op
    case Allocate(size, contiguous) => HeapAlloc(s, size, contiguous).0
    case Release(ptr) => HeapFree(s, ptr)
    case Other(o) => s.(mem := Step(s.mem, o))
  }

  /** The pages an operation of the VMM itself gives up. */
  function FreedRange(op: MemOp): (nat, nat)
  {
    match op
    case UnreserveOnly(virt, count) => (virt / PAGE, count)
    case FreePages(virt, count) => (virt / PAGE, count)
    case UnmapDevice(virt, length) => (virt / PAGE, PageCount(length))
    case _ => (0, 0)
  }

  /** Callers of the VMM give up only pages of their own, not the heap's. */
  ghost predicate Spares(h: seq<Region>, op: MemOp)
  {
    forall i, v: nat :: 0 <= i < |h| && InRegion(h[i], v) ==> !Covers(FreedRange(op).0, FreedRange(op).1, v)
  }

  ghost predicate SysLegal(s: Sys, op: SysOp)
  {
    match op
    case Allocate(size, _) => size <= MAX_REQUEST
    case Release(_) => true
    case Other(o) => Legal(s.mem, o) && !o.DestroyAll? && Spares(s.heap, o)
  }

  function SysRun(s: Sys, ops: seq<SysOp>): Sys
    decreases |ops|
  {
    if ops == [] then s else SysRun(SysStep(s, ops[0]), ops[1..])
  }

  ghost predicate SysLegalRun(s: Sys, ops: seq<SysOp>)
    decreases |ops|
  {
    ops == [] || (SysLegal(s, ops[0]) && SysLegalRun(SysStep(s, ops[0]), ops[1..]))
  }

  // ---- the invariant over runs ----

  lemma MmapKeeps(m: Mem, phys: nat, length: Word, flags: nat)
    requires Owned(m)
    ensures KeepsOutside(m, Mmap(m, phys, length, flags).0, 0, 0)
  {
    ReserveFresh(m, PageCount(length));
    var (n, virt) := Mmap(m, phys, length, flags);
    if virt != 0 { MapKeeps(m, n, virt / PAGE, phys / PAGE, flags, PageCount(length)); }
  }

  lemma MunmapKeeps(m: Mem, virt: nat, length: Word)
    requires Owned(m)
    ensures KeepsOutside(m, Munmap(m, virt, length), virt / PAGE, PageCount(length))
  {
    UnmapRangeIs(m.pages, virt / PAGE, PageCount(length));
    UnreserveShape(m.space, virt, PageCount(length));
  }

  lemma FreePagesKeeps(m: Mem, virt: nat, count: nat)
    requires Owned(m)
    ensures KeepsOutside(m, Memory.Free(m, virt, count), virt / PAGE, count)
  {
    UnmapRangeIs(m.pages, virt / PAGE, count);
    UnreserveShape(m.space, virt, count);
  }

  /** A VMM operation leaves every held page alone that it does not give up. */
  lemma OtherKeeps(m: Mem, op: MemOp)
    requires Owned(m) && !op.DestroyAll?
    ensures KeepsOutside(m, Step(m, op), FreedRange(op).0, FreedRange(op).1)
  {
    match op
    case PoolAlloc(_) =>
    case PoolFree(_) =>
    case ReserveOnly(count) => ReserveFresh(m, count);
    case UnreserveOnly(virt, count) => UnreserveShape(m.space, virt, count);
    case AllocPages(count) => AllocKeeps(m, count);
    case AllocRunOfFrames(count) => ContiguousKeeps(m, count);
    case FreePages(virt, count) => FreePagesKeeps(m, virt, count);
    case MapDevice(phys, length, flags) => MmapKeeps(m, phys, length, flags);
    case UnmapDevice(virt, length) => MunmapKeeps(m, virt, length);
  }

  lemma OtherInv(s: Sys, op: MemOp)
    requires SysInv(s) && SysLegal(s, Other(op))
    ensures SysInv(s.(mem := Step(s.mem, op)))
  {
    StepOwned(s.mem, op);
    OtherKeeps(s.mem, op);
    forall i | 0 <= i < |s.heap| ensures RegionHeld(Step(s.mem, op), s.heap[i]) {
      assert RegionOk(s.heap[i]) && RegionHeld(s.mem, s.heap[i]);
      RegionKept(s.mem, Step(s.mem, op), s.heap[i], FreedRange(op).0, FreedRange(op).1);
    }
  }

  lemma StepInv(s: Sys, op: SysOp)
    requires SysInv(s) && SysLegal(s, op)
    ensures SysInv(SysStep(s, op))
  {
    match op
    case Allocate(size, contiguous) => AllocInv(s, size, contiguous);
    case Release(ptr) => FreeInv(s, ptr);
    case Other(o) => OtherInv(s, o);
  }

  /** In every reachable state each region is tiled exactly by aligned, properly
      sized blocks without free neighbours and at least one of them used, its
      pages are reserved and mapped, and every frame has one owner. */
  lemma {:induction false} RunInv(s: Sys, ops: seq<SysOp>)
    requires SysInv(s) && SysLegalRun(s, ops)
    ensures SysInv(SysRun(s, ops))
    decreases |ops|
  {
    if ops != [] {
      StepInv(s, ops[0]);
      RunInv(SysStep(s, ops[0]), ops[1..]);
    }
  }

  // ---- physical contiguity ----

  /** Every byte of a block lies in a page of its region. */
  lemma BytePage(r: Region, b: Block, a: nat)
    requires RegionOk(r) && b in r.blocks && b.addr <= a < b.End()
    ensures InRegion(r, a / PAGE)
  {
    BlockInside(r, b);
  }

  /** In any valid state the memory of a block in a contiguous region is
      physically contiguous, byte for byte. */
  lemma Contiguous(s: Sys, i: nat, b: Block, ptr: nat, o: nat)
    requires SysInv(s) && LiveIn(s.heap, i, b) && s.heap[i].contiguous && ptr == b.Ptr() && o < b.size
    ensures var p := Virt2Phys(s.mem.pages, ptr);
      p.Some? && p.value != 0 && Virt2Phys(s.mem.pages, ptr + o) == Some(p.value + o)
  {
    var r := s.heap[i];
    assert RegionOk(r) && RegionHeld(s.mem, r);
    var v, w, c := ptr / PAGE, (ptr + o) / PAGE, r.base / PAGE;
    BytePage(r, b, ptr);
    BytePage(r, b, ptr + o);
    assert InRegion(r, c);
    assert PageHeld(s.mem, v) && PageHeld(s.mem, w) && PageHeld(s.mem, c);
    assert FrameOf(s.mem.pages[w]) == FrameOf(s.mem.pages[v]) + (w - v);
    assert FrameOf(s.mem.pages[v]) != 0;
  }

  // ---- stability ----

  /** Every byte of `b`, its header included, translates alike. */
  ghost predicate SameBytes(m: Mem, n: Mem, b: Block)
  {
    forall a: nat :: b.addr <= a < b.End() ==> Virt2Phys(n.pages, a) == Virt2Phys(m.pages, a)
  }

  /** Pages kept outside a range that spares the region of `b`. */
  lemma BytesKept(m: Mem, n: Mem, r: Region, b: Block, v: nat, count: nat)
    requires RegionOk(r) && RegionHeld(m, r) && b in r.blocks && KeepsOutside(m, n, v, count)
    requires forall k: nat :: InRegion(r, k) ==> !Covers(v, count, k)
    ensures SameBytes(m, n, b)
  {
    forall a: nat | b.addr <= a < b.End() ensures Virt2Phys(n.pages, a) == Virt2Phys(m.pages, a) {
      BytePage(r, b, a);
      assert PageHeld(m, a / PAGE);
    }
  }

  lemma AllocateKeeps(s: Sys, size: Word, contiguous: bool)
    requires SysInv(s)
    ensures KeepsOutside(s.mem, HeapAlloc(s, size, contiguous).0.mem, 0, 0)
  {
    if size > 0 && FindFree(s.heap, Align16(size), contiguous, 0).None? {
      ObtainKeeps(s.mem, GrowPages(Align16(size)), contiguous);
    }
  }

  /** An allocation moves or resizes no other block. */
  lemma AllocateSpares(s: Sys, size: Word, contiguous: bool, b: Block)
    requires SysInv(s) && size <= MAX_REQUEST && b in Live(s.heap)
    ensures var t := HeapAlloc(s, size, contiguous).0;
      b in Live(t.heap) && SameBytes(s.mem, t.mem, b)
  {
    var k, c := AllocLive(s, size, contiguous);
    AllocateKeeps(s, size, contiguous);
    var i := LiveWhere(s.heap, b);
    assert RegionOk(s.heap[i]) && RegionHeld(s.mem, s.heap[i]);
    BytesKept(s.mem, HeapAlloc(s, size, contiguous).0.mem, s.heap[i], b, 0, 0);
  }

  /** A release of one block moves or resizes no other. */
  lemma ReleaseSpares(s: Sys, ptr: nat, b: Block)
    requires SysInv(s) && b in Live(s.heap) && ptr != b.Ptr()
    ensures b in Live(HeapFree(s, ptr).heap) && SameBytes(s.mem, HeapFree(s, ptr).mem, b)
  {
    FreeLive(s, ptr);
    if c :| c in Live(s.heap) && c.Ptr() == ptr {
      FindLive(s, c);
      var (i, j) := FindPtr(s.heap, ptr, 0).value;
      if |Give(s.heap[i].blocks, j)| == 1 {
        GiveSingle(s.heap[i].blocks, j);
        RegionGoneSpares(s, i, c, b);
      }
    }
  }

  lemma RegionGoneSpares(s: Sys, i: nat, c: Block, b: Block)
    requires SysInv(s) && i < |s.heap| && UsedBlocks(s.heap[i].blocks) == {c} && b in Live(s.heap) && b != c
    ensures SameBytes(s.mem, Memory.Free(s.mem, s.heap[i].base, s.heap[i].size / PAGE), b)
  {
    var k := LiveWhere(s.heap, b);
    assert b in UsedBlocks(s.heap[k].blocks);
    var r, g := s.heap[k], s.heap[i];
    assert RegionOk(r) && RegionOk(g) && RegionHeld(s.mem, r);
    ApartEither(s.heap, k, i);
    assert RegionHeld(s.mem, g);
    forall v: nat | InRegion(r, v) ensures !Covers(g.base / PAGE, g.size / PAGE, v) { OtherRegion(s.mem, r, g, v); }
    FreeKeeps(s.mem, g.base, g.size / PAGE);
    BytesKept(s.mem, Memory.Free(s.mem, g.base, g.size / PAGE), r, b, g.base / PAGE, g.size / PAGE);
  }

  lemma OtherSpares(s: Sys, op: MemOp, b: Block)
    requires SysInv(s) && SysLegal(s, Other(op)) && b in Live(s.heap)
    ensures SameBytes(s.mem, Step(s.mem, op), b)
  {
    OtherKeeps(s.mem, op);
    var i := LiveWhere(s.heap, b);
    assert RegionOk(s.heap[i]) && RegionHeld(s.mem, s.heap[i]);
    BytesKept(s.mem, Step(s.mem, op), s.heap[i], b, FreedRange(op).0, FreedRange(op).1);
  }

  lemma StepSpares(s: Sys, op: SysOp, b: Block)
    requires SysInv(s) && SysLegal(s, op) && b in Live(s.heap) && op != Release(b.Ptr())
    ensures b in Live(SysStep(s, op).heap) && SameBytes(s.mem, SysStep(s, op).mem, b)
  {
    match op
    case Allocate(size, contiguous) => AllocateSpares(s, size, contiguous, b);
    case Release(ptr) => ReleaseSpares(s, ptr, b);
    case Other(o) => OtherSpares(s, o, b);
  }

  /** A live block stays live, where and as large as it is, and every byte of it
      on the same physical address, through any run that does not free it. */
  lemma {:induction false} RunSpares(s: Sys, ops: seq<SysOp>, b: Block)
    requires SysInv(s) && SysLegalRun(s, ops) && b in Live(s.heap) && Release(b.Ptr()) !in ops
    ensures b in Live(SysRun(s, ops).heap) && SameBytes(s.mem, SysRun(s, ops).mem, b)
    decreases |ops|
  {
    if ops != [] {
      StepInv(s, ops[0]);
      StepSpares(s, ops[0], b);
      RunSpares(SysStep(s, ops[0]), ops[1..], b);
    }
  }

  /** A live block of a contiguous region stays on the run of frames it has. */
  lemma StaysContiguous(s: Sys, i: nat, b: Block, ptr: nat, ops: seq<SysOp>, o: nat)
    requires SysInv(s) && LiveIn(s.heap, i, b) && s.heap[i].contiguous && ptr == b.Ptr() && o < b.size
    requires SysLegalRun(s, ops) && Release(ptr) !in ops
    ensures var p, u := Virt2Phys(s.mem.pages, ptr), SysRun(s, ops);
      p.Some? && p.value != 0 && Virt2Phys(u.mem.pages, ptr + o) == Some(p.value + o)
  {
    Contiguous(s, i, b, ptr, o);
    assert b in Live(s.heap);
    RunSpares(s, ops, b);
    SameByte(s.mem, SysRun(s, ops).mem, b, ptr + o);
  }

  lemma SameByte(m: Mem, n: Mem, b: Block, a: nat)
    requires SameBytes(m, n, b) && b.addr <= a < b.End()
    ensures Virt2Phys(n.pages, a) == Virt2Phys(m.pages, a)
  {
  }

  lemma KmallocBlock(s: Sys, size: Word, t: Sys, ptr: nat) returns (i: nat, b: Block)
    requires SysInv(s) && size <= MAX_REQUEST && HeapAlloc(s, size, true) == (t, ptr) && ptr != 0
    ensures SysInv(t) && LiveIn(t.heap, i, b) && t.heap[i].contiguous && b.Ptr() == ptr && b.size >= size
  {
    i, b := AllocLive(s, size, true);
    AllocInv(s, size, true);
  }

  /** `kmalloc` memory is physically contiguous from the moment it is handed out,
      in every state reached until it is freed. */
  lemma KmallocContiguous(s: Sys, size: Word, t: Sys, ptr: nat, ops: seq<SysOp>, o: nat)
    requires SysInv(s) && size <= MAX_REQUEST && HeapAlloc(s, size, true) == (t, ptr) && ptr != 0
    requires SysLegalRun(t, ops) && Release(ptr) !in ops && o < size
    ensures var p, u := Virt2Phys(t.mem.pages, ptr), SysRun(t, ops);
      p.Some? && p.value != 0 && Virt2Phys(u.mem.pages, ptr + o) == Some(p.value + o)
  {
    var i, b := KmallocBlock(s, size, t, ptr);
    StaysContiguous(t, i, b, ptr, ops, o);
  }
}

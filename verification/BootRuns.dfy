/** What the kernel can rely on after start-up: its own pages are used in both
    allocators, every frame has one owner, and no later run hands them out. */
module BootRuns {
  import opened Words
  import opened Runs
  import opened Frames
  import opened PageWalk
  import opened Memory
  import opened Backing
  import opened Ownership
  import opened MemoryRuns
  import opened Kinit
  import opened Boot
  import opened MemoryMap
  import KernelHeap

  // ---- the frame pool ----

  /** `mminit` marks the pages below the kernel's end used, and no others. */
  lemma BootPoolMarked(i: Image, regions: seq<PhysRegion>)
    requires ImageOk(i)
    ensures Marked(Frames.Init(regions), BootPool(i, regions), 0, KernelEnd(i, regions))
  {
    ArenaBound(i, regions);
    InitInv(regions);
    MarkThreeIs(regions, Frames.Init(regions), KPHYS, i.end, KernelEnd(i, regions));
  }

  lemma BootPoolOk(i: Image, regions: seq<PhysRegion>)
    requires ImageOk(i)
    ensures PoolInv(BootPool(i, regions)) && KernelEnd(i, regions) <= i.end + 256
    ensures forall f :: 0 <= f < KernelEnd(i, regions) ==> FrameUsed(BootPool(i, regions), f)
  {
    ArenaBound(i, regions);
    InitInv(regions);
    BootPoolMarked(i, regions);
  }

  /** Where `pmm_init` leaves `used_pages` exact, `mminit` does too; so it is after
      every memory map of disjoint regions in whole pages. */
  lemma BootExact(i: Image, regions: seq<PhysRegion>)
    requires ImageOk(i)
    requires FreedBelow(regions, TotalPages(regions)) <= UsablePages(regions) || AlignedMap(regions)
    ensures BootPool(i, regions).free + BootPool(i, regions).usedCount == UsablePages(regions)
  {
    BootPoolMarked(i, regions);
    InitInv(regions);
    InitExactIff(regions);
    UsableBound(regions);
    if AlignedMap(regions) { AlignedExact(regions); }
    MarkedExact(Frames.Init(regions), BootPool(i, regions), 0, KernelEnd(i, regions));
  }

  // ---- the kernel's virtual pages ----

  /** Exact counters. */
  ghost predicate SpaceExact(s: Space)
  {
    s.free + s.usedCount == |s.used| < WORD && s.free == CountFree(s.used)
  }

  lemma MarkUsedOneExact(s: Space, v: nat)
    requires SpaceExact(s)
    ensures SpaceExact(MarkUsedOne(s, v))
  {
    if InRange(s, v) && !s.used[v - s.base] {
      CountFreeUpdate(s.used, v - s.base, true);
      CounterMoves(s.free, s.usedCount, 1);
    }
  }

  lemma {:induction false} MarkUsedRange(s: Space, from: nat, end: nat)
    requires SpaceExact(s)
    ensures var t := MarkUsed(s, from, end);
      && SpaceExact(t) && t.base == s.base && |t.used| == |s.used| && t.largest == s.largest
      && forall k :: 0 <= k < |s.used| ==> t.used[k] == (s.used[k] || from <= s.base + k < end)
    decreases end - from
  {
    if from < end {
      MarkUsedOneExact(s, from);
      MarkUsedRange(MarkUsedOne(s, from), from + 1, end);
    }
  }

  lemma {:induction false} CountAll(used: seq<bool>)
    requires forall k :: 0 <= k < |used| ==> !used[k]
    ensures CountFree(used) == |used|
  {
    if used != [] { CountAll(used[..|used| - 1]); }
  }

  /** Three adjoining ranges from the start of the space on. */
  lemma MarkUsedThree(s: Space, a: nat, b: nat, c: nat)
    requires SpaceExact(s) && a <= b <= c
    ensures var u := MarkUsed(MarkUsed(s, s.base, s.base + a), s.base + a, s.base + b);
      var t := MarkUsed(u, s.base + b, s.base + c);
      && SpaceExact(t) && t.base == s.base && |t.used| == |s.used|
      && forall k :: 0 <= k < |s.used| ==> t.used[k] == (s.used[k] || k < c)
  {
    MarkUsedRange(s, s.base, s.base + a);
    var t := MarkUsed(s, s.base, s.base + a);
    MarkUsedRange(t, s.base + a, s.base + b);
    MarkUsedRange(MarkUsed(t, s.base + a, s.base + b), s.base + b, s.base + c);
  }

  lemma ImageMarked(i: Image, end: nat)
    requires ImageOk(i) && i.end <= end
    ensures var s := MarkUsed(ImageSpace(i), KV + i.end, KV + end);
      && SpaceExact(s) && s.base == KV && |s.used| == KPAGES
      && forall k :: 0 <= k < KPAGES ==> s.used[k] == (k < end)
  {
    var s := Memory.Init(KV, KPAGES);
    CountAll(s.used);
    MarkUsedThree(s, KPHYS, i.end, end);
  }

  lemma BootSpaceOk(i: Image, regions: seq<PhysRegion>)
    requires ImageOk(i)
    ensures var s := BootSpace(i, regions);
      && SpaceExact(s) && s.base == KV && |s.used| == KPAGES
      && forall k :: 0 <= k < KPAGES ==> s.used[k] == (k < KernelEnd(i, regions))
  {
    ImageMarked(i, KernelEnd(i, regions));
  }

  // ---- the page map ----

  /** The pages of an allocation lie behind the image and below the kernel's end. */
  lemma TakenPages(p: nat, size: nat, lo: nat, hi: nat)
    requires (KV + lo) * PAGE <= p && p + size <= (KV + hi) * PAGE
    ensures KV + lo <= p / PAGE && p / PAGE + Touched(p, size) <= KV + hi
  {
    assert p / PAGE + Touched(p, size) == (p + size + (PAGE - 1)) / PAGE;
  }

  lemma TakenDirect(pages: map<nat, nat>, boot: Section, n: nat, lo: nat, p: nat, size: Word)
    requires DirectMap(pages, boot, n) && boot.End() <= lo && lo > 0
    requires (KV + lo) * PAGE <= p && p + size <= (KV + n) * PAGE
    ensures DirectMap(MapTaken(pages, p, size), boot, n)
  {
    TakenPages(p, size, lo, n);
    assert Direct(p / PAGE) == p / PAGE - KV;
    DirectRange(pages, boot, n, p / PAGE, Touched(p, size), RW, n);
  }

  lemma DirectWider(pages: map<nat, nat>, boot: Section, n: nat, n': nat)
    requires DirectMap(pages, boot, n) && n <= n' <= KPAGES
    ensures DirectMap(pages, boot, n')
  {
    forall v | v in pages ensures DirectPage(v, FrameOf(pages[v]), boot, n') {
      assert DirectPage(v, FrameOf(pages[v]), boot, n);
    }
  }

  lemma BootPagesDirect(i: Image, regions: seq<PhysRegion>)
    requires ImageOk(i)
    ensures DirectMap(TakeBitmaps(i, regions).pages, i.boot, KernelEnd(i, regions))
  {
    var b, n := TakeBitmaps(i, regions), KernelEnd(i, regions);
    ArenaBound(i, regions);
    BitmapFits(regions);
    EntryDirect(i);
    DirectWider(EntryPages(i), i.boot, i.end, n);
    TakenDirect(EntryPages(i), i.boot, n, i.end, b.pool, BitmapSize(TotalPages(regions)));
    var pages := MapTaken(EntryPages(i), b.pool, BitmapSize(TotalPages(regions)));
    TakenDirect(pages, i.boot, n, i.end, b.space, BitmapSize(KPAGES));
  }

  lemma DirectOwned(m: Mem, boot: Section, n: nat)
    requires DirectMap(m.pages, boot, n) && PoolInv(m.pool) && SpaceOk(m.space)
    requires forall f :: 0 <= f < n ==> FrameUsed(m.pool, f)
    requires m.space.base == KV && forall k :: 0 <= k < |m.space.used| && k < n ==> m.space.used[k]
    ensures Owned(m)
  {
    forall v | v in m.pages ensures DirectPage(v, FrameOf(m.pages[v]), boot, n) {}
    forall v, w | v in m.pages && w in m.pages && v != w ensures FrameOf(m.pages[v]) != FrameOf(m.pages[w]) {
      assert DirectPage(v, FrameOf(m.pages[v]), boot, n) && DirectPage(w, FrameOf(m.pages[w]), boot, n);
    }
  }

  // ---- after mminit ----

  /** The first `n` frames and the first `n` pages of the range are used. */
  ghost predicate Protected(m: Mem, n: nat)
  {
    && (forall f :: 0 <= f < n ==> FrameUsed(m.pool, f))
    && (forall k :: 0 <= k < n && k < |m.space.used| ==> m.space.used[k])
  }

  /** After `mminit`, for every memory map and image: the first megabyte, the
      image and everything the boot allocator handed out, both bitmaps included,
      are used in both allocators, every frame has one owner, and the counters
      are exact. */
  lemma BootOwned(i: Image, regions: seq<PhysRegion>)
    requires ImageOk(i)
    ensures var m, n, b := MmInit(i, regions), KernelEnd(i, regions), TakeBitmaps(i, regions);
      && Owned(m) && SpaceCounted(m.space) && Gap(m.space) == 0
      && Protected(m, n) && 256 <= i.end <= n
      && (KV + i.end) * PAGE <= b.pool && b.pool + BitmapSize(TotalPages(regions)) <= b.space
      && b.space + BitmapSize(KPAGES) <= (KV + n) * PAGE
  {
    BootPoolOk(i, regions);
    BootSpaceOk(i, regions);
    BootPagesDirect(i, regions);
    ArenaBound(i, regions);
    DirectOwned(MmInit(i, regions), i.boot, KernelEnd(i, regions));
  }

  /** The empty heap on top of it is a valid state of the whole memory stack. */
  lemma BootSystem(i: Image, regions: seq<PhysRegion>)
    requires ImageOk(i)
    ensures KernelHeap.SysInv(KernelHeap.Sys(MmInit(i, regions), []))
  {
    BootOwned(i, regions);
  }

  lemma StaysMapped(pages: map<nat, nat>, v: nat, frame: nat, flags: nat, count: nat, k: nat)
    requires k in pages
    ensures k in MapRange(pages, v, frame, flags, count)
  {
    MapRangeIs(pages, v, frame, flags, count);
  }

  lemma FirstMapped(i: Image, regions: seq<PhysRegion>)
    requires ImageOk(i)
    ensures KV + 1 in MmInit(i, regions).pages
  {
    var low := MapKernel(map[], Section(1, KPHYS - 1), RW);
    MapRangeAt(map[], KV + 1, 1, RW, KPHYS - 1, KV + 1);
    StaysMapped(low, KV + i.text.first, i.text.first, 0, i.text.count, KV + 1);
    StaysMapped(MapKernel(low, i.text, 0), KV + i.rodata.first, i.rodata.first, 0, i.rodata.count, KV + 1);
    var code := CodePages(i);
    StaysMapped(code, KV + i.data.first, i.data.first, RW, i.data.count, KV + 1);
    var data := MapKernel(code, i.data, RW);
    StaysMapped(data, KV + i.bss.first, i.bss.first, RW, i.bss.count, KV + 1);
    StaysMapped(MapKernel(data, i.bss, RW), i.boot.first, i.boot.first, 0, i.boot.count, KV + 1);
    ArenaMapped(i, regions, KV + 1);
  }

  /** Pages `lo` to `hi` of the range are mapped to their own frames. */
  ghost predicate KernelMapped(m: Mem, lo: nat, hi: nat)
  {
    forall v: nat :: KV + lo <= v < KV + hi ==> v in m.pages && FrameOf(m.pages[v]) == v - KV
  }

  /** The kernel's data, page tables included, is mapped from the start. */
  lemma DataMapped(i: Image, regions: seq<PhysRegion>)
    requires ImageOk(i)
    ensures KernelMapped(MmInit(i, regions), i.bss.first, i.bss.End())
  {
    var m, s := MmInit(i, regions), i.bss;
    BootPagesDirect(i, regions);
    forall v: nat | KV + s.first <= v < KV + s.End() ensures v in m.pages && FrameOf(m.pages[v]) == v - KV {
      var data := MapKernel(CodePages(i), i.data, RW);
      MapRangeAt(data, KV + s.first, s.first, RW, s.count, v);
      StaysMapped(MapKernel(data, s, RW), i.boot.first, i.boot.first, 0, i.boot.count, v);
      ArenaMapped(i, regions, v);
      assert DirectPage(v, FrameOf(m.pages[v]), i.boot, KernelEnd(i, regions));
    }
  }

  /** The boot allocator maps more pages and unmaps none. */
  lemma ArenaMapped(i: Image, regions: seq<PhysRegion>, k: nat)
    requires ImageOk(i) && k in EntryPages(i)
    ensures k in TakeBitmaps(i, regions).pages
  {
    var b, size := TakeBitmaps(i, regions), BitmapSize(TotalPages(regions));
    BitmapFits(regions);
    StaysMapped(EntryPages(i), b.pool / PAGE, b.pool / PAGE - KV, RW, Touched(b.pool, size), k);
    StaysMapped(MapTaken(EntryPages(i), b.pool, size), b.space / PAGE, b.space / PAGE - KV, RW,
                Touched(b.space, BitmapSize(KPAGES)), k);
  }

  /** The bytes of both bitmaps are mapped, at their fixed offset. */
  lemma BitmapsMapped(i: Image, regions: seq<PhysRegion>, va: nat)
    requires ImageOk(i)
    requires var b := TakeBitmaps(i, regions);
      b.pool <= va < b.pool + BitmapSize(TotalPages(regions)) || b.space <= va < b.space + BitmapSize(KPAGES)
    ensures Virt2Phys(MmInit(i, regions).pages, va) == Some(va - KV * PAGE)
  {
    var b := TakeBitmaps(i, regions);
    BitmapFits(regions);
    ArenaEnd(i, regions);
    if b.space <= va {
      TakenLeads(MapTaken(EntryPages(i), b.pool, BitmapSize(TotalPages(regions))), b.space, BitmapSize(KPAGES), va);
    } else {
      PoolMapped(i, regions, va);
    }
  }

  lemma ArenaEnd(i: Image, regions: seq<PhysRegion>)
    requires ImageOk(i)
    ensures TakeBitmaps(i, regions).arena.next <= WINDOW * PAGE
  {
  }

  lemma PoolMapped(i: Image, regions: seq<PhysRegion>, va: nat)
    requires ImageOk(i)
    requires var b := TakeBitmaps(i, regions); b.pool <= va < b.pool + BitmapSize(TotalPages(regions)) <= WINDOW * PAGE
    ensures Virt2Phys(MmInit(i, regions).pages, va) == Some(va - KV * PAGE)
  {
    PoolPresent(i, regions, va);
    BootPagesDirect(i, regions);
    DirectLeads(MmInit(i, regions).pages, i.boot, KernelEnd(i, regions), va);
  }

  lemma DirectLeads(pages: map<nat, nat>, boot: Section, n: nat, va: nat)
    requires DirectMap(pages, boot, n) && va / PAGE in pages && va / PAGE >= KV
    ensures Virt2Phys(pages, va) == Some(va - KV * PAGE)
  {
    assert DirectPage(va / PAGE, FrameOf(pages[va / PAGE]), boot, n);
  }

  lemma PoolPresent(i: Image, regions: seq<PhysRegion>, va: nat)
    requires ImageOk(i)
    requires var b := TakeBitmaps(i, regions); b.pool <= va < b.pool + BitmapSize(TotalPages(regions)) <= WINDOW * PAGE
    ensures va / PAGE in MmInit(i, regions).pages && va / PAGE >= KV
  {
    var b, size := TakeBitmaps(i, regions), BitmapSize(TotalPages(regions));
    var first := MapTaken(EntryPages(i), b.pool, size);
    BitmapFits(regions);
    TakenLeads(EntryPages(i), b.pool, size, va);
    StaysMapped(first, b.space / PAGE, b.space / PAGE - KV, RW, Touched(b.space, BitmapSize(KPAGES)), va / PAGE);
  }

  /** Nothing stops `vmm_unreserve` from running round the end of the address
      space: a count of 2^20 pages from any page of the range on gives up every
      reservation, the mapped kernel pages included, and the next reservation
      hands the first of them out. */
  lemma UnreserveWraps(i: Image, regions: seq<PhysRegion>, v: nat)
    requires ImageOk(i) && KV <= v < KV + KPAGES
    ensures var m := MmInit(i, regions);
      var t := m.(space := Unreserve(m.space, v * PAGE, 0x10_0000));
      && !Legal(m, UnreserveOnly(v * PAGE, 0x10_0000)) && !Owned(t)
      && KV + 1 in m.pages && Reserve(t.space, 2).1 == KV * PAGE
  {
    var m := MmInit(i, regions);
    BootOwned(i, regions);
    BootSpaceOk(i, regions);
    FirstMapped(i, regions);
    WrapGivesAll(m, v, KV + 1);
    FirstPages(Unreserve(m.space, v * PAGE, 0x10_0000));
  }

  /** Every bit cleared, mapped pages or not. */
  lemma WrapGivesAll(m: Mem, v: nat, k: nat)
    requires Owned(m) && SpaceExact(m.space) && InRange(m.space, v) && v > 0 && k in m.pages && InRange(m.space, k)
    ensures var t := Unreserve(m.space, v * PAGE, 0x10_0000);
      && !GivesUpUnmapped(m, v * PAGE, 0x10_0000) && !Owned(m.(space := t))
      && t.base == m.space.base && |t.used| == |m.space.used| && t.free >= |t.used|
      && forall j :: 0 <= j < |t.used| ==> !t.used[j]
  {
    assert v * PAGE / PAGE == v && v * PAGE % PAGE == 0;
    assert Covers(v, 0x10_0000, k);
    UnreserveOwnedIff(m, v * PAGE, 0x10_0000);
    var t := Unreserve(m.space, v * PAGE, 0x10_0000);
    PlainSum(m.space.free, 0x10_0000);
    forall j | 0 <= j < |t.used| ensures !t.used[j] { assert Covers(v, 0x10_0000, t.base + j); }
  }

  lemma PlainSum(x: nat, c: nat)
    requires x + c < WORD
    ensures (x + c) % WORD == x + c
  {
  }

  lemma FirstPages(s: Space)
    requires forall j :: 0 <= j < |s.used| ==> !s.used[j]
    requires |s.used| >= 2 && s.free >= 2 && s.base > 0
    ensures Reserve(s, 2).1 == s.base * PAGE
  {
    assert FreeRun(s.used, 0, 2);
  }

  // ---- no later run hands out a protected page ----

  /** The operation gives up neither the frames below `n` nor the first `n` pages
      of the range. */
  ghost predicate Respects(m: Mem, op: MemOp, n: nat)
  {
    match op
    case PoolFree(phys) => phys / PAGE >= n
    case UnreserveOnly(virt, count) => Clear(m, virt / PAGE, count, n)
    case FreePages(virt, count) => Clear(m, virt / PAGE, count, n)
    case UnmapDevice(virt, length) => Clear(m, virt / PAGE, PageCount(length), n)
    case DestroyAll => false
    case _ => true
  }

  ghost predicate Clear(m: Mem, v: nat, count: nat, n: nat)
  {
    forall p: nat :: m.space.base <= p < m.space.base + n ==> !Covers(v, count, p)
  }

  ghost predicate RespectsRun(m: Mem, ops: seq<MemOp>, n: nat)
    decreases |ops|
  {
    |ops| == 0 || (Legal(m, ops[0]) && Respects(m, ops[0], n) && RespectsRun(Step(m, ops[0]), ops[1..], n))
  }

  ghost predicate SpaceGrows(s: Space, t: Space)
  {
    t.base == s.base && |t.used| == |s.used| && forall k :: 0 <= k < |s.used| && s.used[k] ==> t.used[k]
  }

  lemma Grows(m: Mem, r: Mem, n: nat)
    requires Protected(m, n) && PoolGrows(m.pool, r.pool) && SpaceGrows(m.space, r.space)
    ensures Protected(r, n)
  {
    forall f | 0 <= f < n ensures FrameUsed(r.pool, f) { assert FrameUsed(m.pool, f); }
  }

  lemma AllocGrows(m: Mem, count: nat)
    requires Owned(m)
    ensures PoolGrows(m.pool, Memory.Alloc(m, count).0.pool) && SpaceGrows(m.space, Memory.Alloc(m, count).0.space)
  {
    var fs := AllocBacking(m, count);
    AllocFailing(m, count);
    ReserveFresh(m, count);
    var (r, virt) := Memory.Alloc(m, count);
    var (s, start) := Reserve(m.space, count);
    if virt != 0 {
      FreshIs(m.pool.used, fs);
      MarkAllIs(m.pool.used, fs);
    } else if start != 0 {
      PartlyUndone(m.space.used, start / PAGE - s.base, count, CountFree(m.pool.used));
    }
  }

  lemma GivesUp(m: Mem, t: Space, virt: nat, count: nat, n: nat)
    requires Owned(m) && Protected(m, n) && Clear(m, virt / PAGE, count, n) && t == Unreserve(m.space, virt, count)
    ensures forall k :: 0 <= k < n && k < |t.used| ==> t.used[k]
  {
    UnreserveShape(m.space, virt, count);
    forall k | 0 <= k < n && k < |t.used| ensures t.used[k] {
      assert InRange(m.space, m.space.base + k);
    }
  }

  lemma StepProtected(m: Mem, op: MemOp, n: nat)
    requires Owned(m) && Protected(m, n) && Legal(m, op) && Respects(m, op, n)
    ensures Protected(Step(m, op), n) && Step(m, op).space.base == m.space.base
  {
    match op
    case PoolAlloc(count) => AllocGivesRun(m.pool, count); Grows(m, Step(m, op), n);
    case PoolFree(phys) =>
      forall f | 0 <= f < n ensures FrameUsed(Step(m, op).pool, f) { assert FrameUsed(m.pool, f); }
    case ReserveOnly(count) => ReserveFresh(m, count); Grows(m, Step(m, op), n);
    case UnreserveOnly(virt, count) => GivesUp(m, Step(m, op).space, virt, count, n);
    case AllocPages(count) => AllocGrows(m, count); Grows(m, Step(m, op), n);
    case AllocRunOfFrames(count) =>
      ReserveFresh(m, count);
      AllocGivesRun(m.pool, count);
      Grows(m, Step(m, op), n);
    case FreePages(virt, count) =>
      FreeKeepsFrames(m, virt, count);
      GivesUp(m, Step(m, op).space, virt, count, n);
    case MapDevice(phys, length, flags) => ReserveFresh(m, PageCount(length)); Grows(m, Step(m, op), n);
    case UnmapDevice(virt, length) => if virt != 0 { GivesUp(m, Step(m, op).space, virt, PageCount(length), n); }
  }

  lemma {:induction false} RunProtected(m: Mem, ops: seq<MemOp>, n: nat)
    requires Owned(m) && Protected(m, n) && RespectsRun(m, ops, n)
    ensures Owned(Run(m, ops)) && Protected(Run(m, ops), n) && Run(m, ops).space.base == m.space.base
    decreases |ops|
  {
    if |ops| > 0 {
      StepOwned(m, ops[0]);
      StepProtected(m, ops[0], n);
      RunProtected(Step(m, ops[0]), ops[1..], n);
    }
  }

  /** What an allocation hands out overlaps no protected page or frame. */
  lemma HandedOut(m: Mem, n: nat, count: nat)
    requires Owned(m) && Protected(m, n)
    ensures var phys := Frames.Alloc(m.pool, count).1; phys != 0 ==> phys / PAGE >= n
    ensures var virt := Reserve(m.space, count).1; virt != 0 ==> virt / PAGE >= m.space.base + n
  {
    AllocGivesRun(m.pool, count);
    ReserveFresh(m, count);
    var phys, virt := Frames.Alloc(m.pool, count).1, Reserve(m.space, count).1;
    assert phys != 0 ==> !FrameUsed(m.pool, phys / PAGE);
    assert virt != 0 ==> !m.space.used[virt / PAGE - m.space.base];
  }

  /** From boot on, through every run that does not free the kernel's own pages,
      neither allocator hands one of them out. */
  lemma KernelPagesSafe(i: Image, regions: seq<PhysRegion>, ops: seq<MemOp>, count: nat)
    requires ImageOk(i) && RespectsRun(MmInit(i, regions), ops, KernelEnd(i, regions))
    ensures var m, n := Run(MmInit(i, regions), ops), KernelEnd(i, regions);
      && Owned(m) && Protected(m, n)
      && (Frames.Alloc(m.pool, count).1 != 0 ==> Frames.Alloc(m.pool, count).1 / PAGE >= n)
      && (Reserve(m.space, count).1 != 0 ==> Reserve(m.space, count).1 / PAGE >= KV + n)
  {
    BootOwned(i, regions);
    BootSpaceOk(i, regions);
    RunProtected(MmInit(i, regions), ops, KernelEnd(i, regions));
    HandedOut(Run(MmInit(i, regions), ops), KernelEnd(i, regions), count);
  }
}

/** Start-up of the memory stack (entry.asm, mminit.c) on the allocators. */
module Mminit {
  import opened Words
  import opened Frames
  import opened PageWalk
  import opened Memory
  import opened Boot
  import opened BootRuns
  import Kinit
  import Pmm
  import Paging
  import Vmm

  /** One `map_section` of entry.asm: pages `first` on, at a fixed distance. */
  method MapSection(tables: Paging.PageTables, s: Section, offset: nat, flags: nat)
    requires tables.Valid() && offset + s.End() <= WINDOW
    modifies tables.words
    ensures tables.Valid()
    ensures tables.Map() == MapRange(old(tables.Map()), offset + s.first, s.first, flags, s.count)
  {
    if s.count > 0 {
      PageAddress(offset + s.first);
      PageAddress(s.first);
      tables.MapPages((offset + s.first) * PAGE, s.first * PAGE, flags, s.count);
    }
  }

  lemma PageAddress(v: nat)
    ensures v * PAGE / PAGE == v
    ensures v < WINDOW ==> v * PAGE < WORD
  {
  }

  method MapCode(tables: Paging.PageTables, i: Image)
    requires tables.Valid() && tables.Map() == map[] && ImageOk(i)
    modifies tables.words
    ensures tables.Valid() && tables.Map() == CodePages(i)
  {
    MapSection(tables, Section(1, KPHYS - 1), Kinit.KV, RW);
    MapSection(tables, i.text, Kinit.KV, 0);
    MapSection(tables, i.rodata, Kinit.KV, 0);
  }

  /** The mappings entry.asm makes before it enables paging. */
  method MapEntry(tables: Paging.PageTables, i: Image)
    requires tables.Valid() && tables.Map() == map[] && ImageOk(i)
    modifies tables.words
    ensures tables.Valid() && tables.Map() == EntryPages(i)
  {
    MapCode(tables, i);
    MapSection(tables, i.data, Kinit.KV, RW);
    MapSection(tables, i.bss, Kinit.KV, RW);
    MapSection(tables, i.boot, 0, 0);
  }

  /** The two bitmaps taken from the boot allocator, in the order of `mminit`. */
  method TakeBoth(arena: Kinit.Allocator, i: Image, regions: seq<PhysRegion>)
    requires arena.Valid() && ImageOk(i) && arena.State() == Arena(i) && arena.tables.Map() == EntryPages(i)
    modifies arena, arena.tables.words
    ensures arena.Valid() && arena.State() == TakeBitmaps(i, regions).arena
    ensures arena.tables.Map() == TakeBitmaps(i, regions).pages && arena.enabled
  {
    BitmapFits(regions);
    ghost var b := TakeBitmaps(i, regions);
    var pool := arena.Alloc(BitmapSize(TotalPages(regions)));
    assert pool == b.pool;
    var space := arena.Alloc(BitmapSize(KPAGES));
    assert space == b.space;
  }

  /** The page tables as `mminit` finds them and the boot allocator leaves them,
      and the size of what it handed out. */
  method StartArena(regions: seq<PhysRegion>, i: Image, root: nat) returns (tables: Paging.PageTables, size: Word)
    requires ImageOk(i) && root + 1025 <= FRAMES
    ensures fresh(tables) && fresh(tables.words) && tables.Valid()
    ensures tables.Map() == TakeBitmaps(i, regions).pages && size == ArenaSize(i, regions)
    ensures i.end + size / PAGE == KernelEnd(i, regions) <= KPAGES
  {
    tables := new Paging.PageTables(root);
    MapEntry(tables, i);
    ArenaOk(i);
    var arena := new Kinit.Allocator(tables, (Kinit.KV + i.end) * PAGE, 0x10_0000);
    TakeBoth(arena, i, regions);
    arena.Finalize();
    size := AlignPage(arena.next - arena.base);
    ArenaBound(i, regions);
  }

  /** `mminit`: the kernel's virtual page allocator over pool and page tables. */
  method Start(regions: seq<PhysRegion>, i: Image, root: nat) returns (kvmm: Vmm.Manager)
    requires ImageOk(i) && TablesInside(i, root)
    ensures kvmm.Valid() && kvmm.State() == MmInit(i, regions)
  {
    var tables, size := StartArena(regions, i, root);
    kvmm := StartManagers(tables, regions);
    MarkKernel(kvmm.pool, i, regions, size);
    MarkSpace(kvmm, i, i.end + size / PAGE);
    StartState(i, regions, i.end + size / PAGE);
  }

  /** `pmm_init` and `vmm_init` over the page tables. */
  method StartManagers(tables: Paging.PageTables, regions: seq<PhysRegion>) returns (kvmm: Vmm.Manager)
    requires tables.Valid()
    ensures kvmm.Valid() && fresh(kvmm) && fresh(kvmm.bitmap) && fresh(kvmm.pool) && fresh(kvmm.pool.bitmap)
    ensures kvmm.tables == tables && kvmm.base == Kinit.KV && kvmm.total == KPAGES
    ensures kvmm.pool.memoryEnd == MemoryEnd(regions)
    ensures kvmm.State() == Mem(Frames.Init(regions), Memory.Init(Kinit.KV, KPAGES), tables.Map())
    ensures kvmm.pool.State() == Frames.Init(regions) && tables.Map() == old(tables.Map())
  {
    var pmm := new Pmm.Manager(regions);
    kvmm := new Vmm.Manager(pmm, tables, Kinit.KV, WINDOW);
  }

  lemma StartState(i: Image, regions: seq<PhysRegion>, end: nat)
    requires ImageOk(i) && end == KernelEnd(i, regions)
    ensures MmInit(i, regions) == Mem(BootPool(i, regions),
      Memory.MarkUsed(ImageSpace(i), Kinit.KV + i.end, Kinit.KV + end), TakeBitmaps(i, regions).pages)
  {
  }

  /** Kernel pages marked used in the pool. */
  method MarkKernel(pmm: Pmm.Manager, i: Image, regions: seq<PhysRegion>, size: Word)
    requires pmm.Valid() && ImageOk(i) && pmm.memoryEnd == MemoryEnd(regions) && size == ArenaSize(i, regions)
    requires pmm.State() == Frames.Init(regions)
    modifies pmm, pmm.bitmap
    ensures pmm.Valid() && pmm.State() == BootPool(i, regions)
  {
    pmm.MarkRange(0, KPHYS * PAGE, true);
    pmm.MarkRange(KPHYS * PAGE, (i.end - KPHYS) * PAGE, true);
    pmm.MarkRange(i.end * PAGE, size, true);
  }

  /** Kernel pages marked used in the virtual range. */
  method MarkSpace(kvmm: Vmm.Manager, i: Image, end: nat)
    requires kvmm.Valid() && ImageOk(i) && i.end <= end <= KPAGES
    requires kvmm.base == Kinit.KV && kvmm.total == KPAGES && kvmm.State().space == Memory.Init(Kinit.KV, KPAGES)
    modifies kvmm, kvmm.bitmap
    ensures kvmm.Valid()
    ensures kvmm.State() ==
      old(kvmm.State()).(space := Memory.MarkUsed(ImageSpace(i), Kinit.KV + i.end, Kinit.KV + end))
  {
    MarkImage(kvmm, i);
    kvmm.MarkUsed(Kinit.KV + i.end, Kinit.KV + end);
  }

  method MarkImage(kvmm: Vmm.Manager, i: Image)
    requires kvmm.Valid() && ImageOk(i)
    requires kvmm.base == Kinit.KV && kvmm.total == KPAGES && kvmm.State().space == Memory.Init(Kinit.KV, KPAGES)
    modifies kvmm, kvmm.bitmap
    ensures kvmm.Valid()
    ensures kvmm.State() == old(kvmm.State()).(space := ImageSpace(i))
  {
    kvmm.MarkUsed(Kinit.KV, Kinit.KV + KPHYS);
    kvmm.MarkUsed(Kinit.KV + KPHYS, Kinit.KV + i.end);
  }
}

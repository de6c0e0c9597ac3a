/** The kernel heap (kheap.c, kmalloc.c) as a state machine over its regions
    and the memory beneath them. */
module KernelHeap {
  import opened Words
  import opened Runs
  import opened Frames
  import opened PageWalk
  import opened Memory
  import opened Backing
  import opened Ownership
  import opened Layout

  const GROW_PAGES: nat := 16

  datatype Region = Region(base: nat, size: nat, contiguous: bool, blocks: seq<Block>)

  datatype Sys = Sys(mem: Mem, heap: seq<Region>)

  // ---- the operations as written ----

  /** First free block of at least `size` bytes from index `j` on. */
  function FreeIn(bs: seq<Block>, size: nat, j: nat): (r: Option<nat>)
    ensures r.Some? ==> j <= r.value < |bs| && !bs[r.value].used && bs[r.value].size >= size
    ensures r.Some? ==> forall k :: j <= k < r.value ==> bs[k].used || bs[k].size < size
    ensures r.None? ==> forall k :: j <= k < |bs| ==> bs[k].used || bs[k].size < size
    decreases |bs| - j
  {
    if j >= |bs| then None
    else if !bs[j].used && bs[j].size >= size then Some(j)
    else FreeIn(bs, size, j + 1)
  }

  /** `block_find_free`: first fit over the regions of the right kind. */
  function FindFree(h: seq<Region>, size: nat, contiguous: bool, i: nat): (r: Option<(nat, nat)>)
    ensures r.Some? ==> var (k, j) := r.value;
      i <= k < |h| && h[k].contiguous == contiguous && j < |h[k].blocks| && !h[k].blocks[j].used &&
        h[k].blocks[j].size >= size
    decreases |h| - i
  {
    if i >= |h| then None else
    var f := FreeIn(h[i].blocks, size, 0);
    if h[i].contiguous == contiguous && f.Some? then Some((i, f.value))
    else FindFree(h, size, contiguous, i + 1)
  }

  /** Index of the block whose memory starts at `ptr`, from `j` on. */
  function PtrIn(bs: seq<Block>, ptr: nat, j: nat): (r: Option<nat>)
    ensures r.Some? ==> j <= r.value < |bs| && bs[r.value].Ptr() == ptr
    ensures r.None? ==> forall k :: j <= k < |bs| ==> bs[k].Ptr() != ptr
    decreases |bs| - j
  {
    if j >= |bs| then None else if bs[j].Ptr() == ptr then Some(j) else PtrIn(bs, ptr, j + 1)
  }

  /** `block_find` */
  function FindPtr(h: seq<Region>, ptr: nat, i: nat): (r: Option<(nat, nat)>)
    ensures r.Some? ==> var (k, j) := r.value; i <= k < |h| && j < |h[k].blocks| && h[k].blocks[j].Ptr() == ptr
    ensures r.None? ==> forall k, b :: i <= k < |h| && b in h[k].blocks ==> b.Ptr() != ptr
    decreases |h| - i
  {
    if i >= |h| then None else
    var f := PtrIn(h[i].blocks, ptr, 0);
    if f.Some? then Some((i, f.value)) else FindPtr(h, ptr, i + 1)
  }

  /** Pages `heap_grow` asks for, computed modulo 2^32. */
  function GrowPages(size: nat): nat
  {
    var pages := (size + REGION + HEADER + (PAGE - 1)) % WORD / PAGE;
    if pages < GROW_PAGES then GROW_PAGES else pages
  }

  /** A fresh region: one free block after the region header. */
  function NewRegion(base: nat, pages: nat, contiguous: bool): Region
    requires pages >= 1
  {
    Region(base, pages * PAGE, contiguous, [Block(base + REGION, pages * PAGE - REGION - HEADER, false)])
  }

  /** The pages of a new region, backed. */
  function Obtain(m: Mem, pages: nat, contiguous: bool): (Mem, nat)
  {
    if contiguous then AllocContiguous(m, pages) else Memory.Alloc(m, pages)
  }

  function TakeIn(r: Region, j: nat, size: nat): Region
    requires j < |r.blocks| && size <= r.blocks[j].size
  {
    r.(blocks := Take(r.blocks, j, size))
  }

  /** What `heap_alloc` does with the pages of a new region at `base`: when it
      turns out too small, the region stays in the list and the call fails. */
  function UseNew(h: seq<Region>, base: nat, pages: nat, size: nat, contiguous: bool): (seq<Region>, nat)
    requires pages >= 1
  {
    var r := NewRegion(base, pages, contiguous);
    if r.blocks[0].size < size then (h + [r], 0) else (h + [TakeIn(r, 0, size)], base + REGION + HEADER)
  }

  /** `heap_grow`, and the rest of `heap_alloc` after it. */
  function Grow(s: Sys, size: nat, contiguous: bool): (Sys, nat)
  {
    var pages := GrowPages(size);
    var got := Obtain(s.mem, pages, contiguous);
    if got.1 == 0 then (s.(mem := got.0), 0) else
    var use := UseNew(s.heap, got.1, pages, size, contiguous);
    (Sys(got.0, use.0), use.1)
  }

  /** `heap_alloc`, the body of `kmalloc` (contiguous) and `vmalloc`. */
  function HeapAlloc(s: Sys, size: Word, contiguous: bool): (Sys, nat)
  {
    if size == 0 then (s, 0) else
    var n := Align16(size);
    match FindFree(s.heap, n, contiguous, 0)
    case Some((i, j)) => (s.(heap := s.heap[i := TakeIn(s.heap[i], j, n)]), s.heap[i].blocks[j].Ptr())
    case None => Grow(s, n, contiguous)
  }

  /** `heap_free`, the body of `kfree` and `vfree`. */
  function HeapFree(s: Sys, ptr: nat): Sys
  {
    if ptr == 0 then s else
    match FindPtr(s.heap, ptr, 0)
    case None => s
    case Some((i, j)) =>
      var r := s.heap[i];
      if !r.blocks[j].used then s else
      var bs := Give(r.blocks, j);
      if |bs| == 1 then Sys(Memory.Free(s.mem, r.base, r.size / PAGE), s.heap[..i] + s.heap[i + 1..])
      else s.(heap := s.heap[i := r.(blocks := bs)])
  }

  // ---- the invariant ----

  ghost predicate RegionOk(r: Region)
  {
    && r.base % PAGE == 0 && r.base > 0 && r.size % PAGE == 0 && r.size > 0
    && BlocksOk(r.blocks, r.base + REGION, r.base + r.size) && SomeUsed(r.blocks)
  }

  /** Page `v` is reserved in the VMM and mapped. */
  ghost predicate PageHeld(m: Mem, v: nat)
  {
    InRange(m.space, v) && m.space.used[v - m.space.base] && v in m.pages
  }

  ghost predicate InRegion(r: Region, v: nat)
  {
    r.base / PAGE <= v < r.base / PAGE + r.size / PAGE
  }

  /** The pages of the region lie on consecutive frames. */
  ghost predicate Consecutive(m: Mem, r: Region)
  {
    var b := r.base / PAGE;
    forall v: nat :: InRegion(r, v) && v in m.pages && b in m.pages ==>
      FrameOf(m.pages[v]) == FrameOf(m.pages[b]) + (v - b)
  }

  /** Every page of the region is held; those of a contiguous region are on
      consecutive frames. */
  ghost predicate RegionHeld(m: Mem, r: Region)
  {
    (forall v: nat :: InRegion(r, v) ==> PageHeld(m, v)) && (r.contiguous ==> Consecutive(m, r))
  }

  ghost predicate Apart(a: Region, b: Region)
  {
    a.base + a.size <= b.base || b.base + b.size <= a.base
  }

  ghost predicate AllApart(h: seq<Region>)
  {
    forall i, k :: 0 <= i < k < |h| ==> Apart(h[i], h[k])
  }

  ghost predicate HeapOk(m: Mem, h: seq<Region>)
  {
    && (forall i :: 0 <= i < |h| ==> RegionOk(h[i]))
    && (forall i :: 0 <= i < |h| ==> RegionHeld(m, h[i]))
    && AllApart(h)
  }

  ghost predicate SysInv(s: Sys)
  {
    Owned(s.mem) && HeapOk(s.mem, s.heap)
  }

  // ---- what keeps a region held ----

  /** Held pages of `m` other than the `count` pages from `v` on stay held with
      their entries. */
  ghost predicate KeepsOutside(m: Mem, n: Mem, v: nat, count: nat)
  {
    && n.space.base == m.space.base && |n.space.used| == |m.space.used|
    && forall k: nat :: PageHeld(m, k) && !Covers(v, count, k) ==> PageHeld(n, k) && n.pages[k] == m.pages[k]
  }

  lemma RegionKept(m: Mem, n: Mem, r: Region, v: nat, count: nat)
    requires RegionHeld(m, r) && KeepsOutside(m, n, v, count) && r.size > 0 && r.size % PAGE == 0
    requires forall k: nat :: InRegion(r, k) ==> !Covers(v, count, k)
    ensures RegionHeld(n, r)
  {
    var b := r.base / PAGE;
    assert InRegion(r, b);
    forall k: nat | InRegion(r, k)
      ensures PageHeld(n, k) && n.pages[k] == m.pages[k]
    {
      assert PageHeld(m, k);
    }
  }

  /** Allocations leave every held page held, with its entry. */
  lemma ObtainKeeps(m: Mem, pages: nat, contiguous: bool)
    requires Owned(m)
    ensures KeepsOutside(m, Obtain(m, pages, contiguous).0, 0, 0) && Owned(Obtain(m, pages, contiguous).0)
  {
    ReserveFresh(m, pages);
    if contiguous {
      AllocContiguousOwned(m, pages);
      ContiguousBacking(m, pages);
      ContiguousKeeps(m, pages);
    } else {
      AllocOwned(m, pages);
      AllocKeeps(m, pages);
    }
  }

  lemma ContiguousKeeps(m: Mem, pages: nat)
    requires Owned(m)
    ensures KeepsOutside(m, AllocContiguous(m, pages).0, 0, 0)
  {
    ReserveFresh(m, pages);
    ContiguousBacking(m, pages);
    var (n, virt) := AllocContiguous(m, pages);
    if virt != 0 { MapKeeps(m, n, virt / PAGE, Frames.Alloc(m.pool, pages).1 / PAGE, RW, pages); }
  }

  /** Mapping pages that were unmapped leaves the others alone. */
  lemma MapKeeps(m: Mem, n: Mem, v: nat, f: nat, flags: nat, count: nat)
    requires n.space.base == m.space.base && |n.space.used| == |m.space.used|
    requires forall k :: 0 <= k < |m.space.used| && m.space.used[k] ==> n.space.used[k]
    requires n.pages == MapRange(m.pages, v, f, flags, count) && forall k :: v <= k < v + count ==> k !in m.pages
    ensures KeepsOutside(m, n, 0, 0)
  {
    MapRangeIs(m.pages, v, f, flags, count);
  }

  lemma AllocKeeps(m: Mem, pages: nat)
    requires Owned(m)
    ensures KeepsOutside(m, Memory.Alloc(m, pages).0, 0, 0)
  {
    ReserveFresh(m, pages);
    var fs := AllocBacking(m, pages);
    var (n, virt) := Memory.Alloc(m, pages);
    if virt != 0 {
      MapAllIs(m.pages, virt / PAGE, fs);
    } else {
      FailedAllocBits(m, pages);
    }
  }

  lemma FailedAllocBits(m: Mem, pages: nat)
    requires Owned(m) && Memory.Alloc(m, pages).1 == 0
    ensures var s := Memory.Alloc(m, pages).0.space;
      && s.base == m.space.base && |s.used| == |m.space.used|
      && forall k :: 0 <= k < |s.used| ==> (m.space.used[k] ==> s.used[k])
  {
    ReserveFresh(m, pages);
    AllocFailing(m, pages);
    var (s, start) := Reserve(m.space, pages);
    if start != 0 {
      PartlyUndone(m.space.used, start / PAGE - s.base, pages, CountFree(m.pool.used));
    }
  }

  /** The pages of a new region: page aligned, held, and none of them held before. */
  lemma ObtainGives(m: Mem, pages: nat, contiguous: bool)
    requires Owned(m) && pages > 0 && Obtain(m, pages, contiguous).1 != 0
    ensures var (n, base) := Obtain(m, pages, contiguous);
      && base % PAGE == 0 && RegionHeld(n, NewRegion(base, pages, contiguous))
      && forall v: nat :: base / PAGE <= v < base / PAGE + pages ==> !PageHeld(m, v)
  {
    ReserveFresh(m, pages);
    var (n, base) := Obtain(m, pages, contiguous);
    var v0 := base / PAGE;
    if contiguous {
      ContiguousBacking(m, pages);
      MapRangeFrames(m.pages, v0, Frames.Alloc(m.pool, pages).1 / PAGE, RW, pages);
    } else {
      var fs := AllocBacking(m, pages);
      MapAllIs(m.pages, v0, fs);
    }
    forall v: nat | v0 <= v < v0 + pages ensures PageHeld(n, v) && !PageHeld(m, v) {
      assert !m.space.used[v - m.space.base];
    }
  }

  /** Page-aligned regions without a common page are apart. */
  lemma NoCommonPage(a: Region, b: Region)
    requires a.base % PAGE == 0 && a.size % PAGE == 0 && a.size > 0
    requires b.base % PAGE == 0 && b.size % PAGE == 0 && b.size > 0
    requires forall v: nat :: InRegion(a, v) ==> !InRegion(b, v)
    ensures Apart(a, b)
  {
    assert InRegion(a, a.base / PAGE) && InRegion(b, b.base / PAGE);
  }

  lemma ApartNoCommonPage(a: Region, b: Region, v: nat)
    requires a.base % PAGE == 0 && a.size % PAGE == 0 && b.base % PAGE == 0 && b.size % PAGE == 0
    requires Apart(a, b) && InRegion(a, v)
    ensures !InRegion(b, v)
  {
  }

  /** Requests whose sizes do not wrap around 2^32 on the way. */
  const MAX_REQUEST: nat := 0xFFFF_EFD0

  lemma GrowFits(size: Word)
    requires 0 < size <= MAX_REQUEST
    ensures var n := Align16(size);
      && size <= n && n % 16 == 0 && n >= MIN_BLOCK
      && GrowPages(n) * PAGE >= n + REGION + HEADER && GrowPages(n) < 0x10_0000
  {
  }

  /** Appending a region keeps the heap in shape. */
  lemma AppendRegion(m: Mem, n: Mem, h: seq<Region>, r: Region)
    requires HeapOk(m, h) && KeepsOutside(m, n, 0, 0)
    requires RegionOk(r) && RegionHeld(n, r)
    requires forall v: nat :: InRegion(r, v) ==> !PageHeld(m, v)
    ensures HeapOk(n, h + [r])
  {
    forall i | 0 <= i < |h| ensures RegionHeld(n, h[i]) && Apart(h[i], r) {
      assert RegionOk(h[i]) && RegionHeld(m, h[i]);
      RegionKept(m, n, h[i], 0, 0);
      NoCommonPage(h[i], r);
    }
  }

  /** Replacing the blocks of a region keeps the heap in shape. */
  lemma UpdateRegion(m: Mem, h: seq<Region>, i: nat, r: Region)
    requires HeapOk(m, h) && i < |h| && RegionOk(r)
    requires r == h[i].(blocks := r.blocks)
    ensures HeapOk(m, h[i := r])
  {
    assert RegionHeld(m, h[i]);
    assert RegionHeld(m, r);
    var g := h[i := r];
    forall a, b | 0 <= a < b < |g| ensures Apart(g[a], g[b]) { assert Apart(h[a], h[b]); }
  }

  /** The region that a successful growth appends. */
  lemma GrownRegion(m: Mem, size: Word, contiguous: bool)
    requires Owned(m) && 0 < size <= MAX_REQUEST
    requires Obtain(m, GrowPages(Align16(size)), contiguous).1 != 0
    ensures var (n, base) := Obtain(m, GrowPages(Align16(size)), contiguous);
      var r := NewRegion(base, GrowPages(Align16(size)), contiguous);
      && r.blocks[0].size >= Align16(size)
      && RegionOk(TakeIn(r, 0, Align16(size))) && RegionHeld(n, TakeIn(r, 0, Align16(size)))
      && forall v: nat :: InRegion(r, v) ==> !PageHeld(m, v)
  {
    var n, pages := Align16(size), GrowPages(Align16(size));
    GrowFits(size);
    ObtainGives(m, pages, contiguous);
    NewRegionOk(Obtain(m, pages, contiguous).1, pages, contiguous, n);
  }

  lemma NewRegionOk(base: nat, pages: nat, contiguous: bool, n: nat)
    requires base % PAGE == 0 && base > 0 && pages > 0
    requires n % 16 == 0 && n >= MIN_BLOCK && pages * PAGE >= n + REGION + HEADER
    ensures RegionOk(TakeIn(NewRegion(base, pages, contiguous), 0, n))
  {
    var r := NewRegion(base, pages, contiguous);
    NewRegionTiles(base, pages, contiguous);
    TakeOk(r.blocks, base + REGION, base + r.size, 0, n);
    assert pages * PAGE % PAGE == 0;
  }

  lemma GrowInv(s: Sys, size: Word, contiguous: bool)
    requires SysInv(s) && 0 < size <= MAX_REQUEST
    ensures SysInv(Grow(s, Align16(size), contiguous).0)
  {
    var n := Align16(size);
    var pages := GrowPages(n);
    ObtainKeeps(s.mem, pages, contiguous);
    var (mem, base) := Obtain(s.mem, pages, contiguous);
    if base == 0 {
      forall i | 0 <= i < |s.heap| ensures RegionHeld(mem, s.heap[i]) {
        assert RegionOk(s.heap[i]) && RegionHeld(s.mem, s.heap[i]);
        RegionKept(s.mem, mem, s.heap[i], 0, 0);
      }
    } else {
      GrownRegion(s.mem, size, contiguous);
      AppendRegion(s.mem, mem, s.heap, TakeIn(NewRegion(base, pages, contiguous), 0, n));
    }
  }

  lemma NewRegionTiles(base: nat, pages: nat, contiguous: bool)
    requires pages > 0
    ensures var r := NewRegion(base, pages, contiguous); BlocksOk(r.blocks, base + REGION, base + r.size)
  {
    var r := NewRegion(base, pages, contiguous);
    var b := r.blocks[0];
    assert r.blocks == [b] && [b][1..] == [];
    assert Tiles([], b.End(), base + r.size);
    MultipleOf16(pages);
  }

  lemma MultipleOf16(pages: nat)
    requires pages > 0
    ensures (pages * PAGE - REGION - HEADER) % 16 == 0 && pages * PAGE - REGION - HEADER >= MIN_BLOCK
  {
    assert pages * PAGE - REGION - HEADER == 16 * (256 * pages - 3);
  }

  /** An allocation keeps the invariant, whatever it finds. */
  lemma AllocInv(s: Sys, size: Word, contiguous: bool)
    requires SysInv(s) && size <= MAX_REQUEST
    ensures SysInv(HeapAlloc(s, size, contiguous).0)
  {
    if size > 0 {
      var n := Align16(size);
      match FindFree(s.heap, n, contiguous, 0)
      case None => GrowInv(s, size, contiguous);
      case Some((i, j)) =>
        var r := s.heap[i];
        assert RegionOk(r);
        TakeOk(r.blocks, r.base + REGION, r.base + r.size, j, n);
        UpdateRegion(s.mem, s.heap, i, TakeIn(r, j, n));
    }
  }

  // ---- release ----

  /** `vmm_free` of a region leaves every other held page alone. */
  lemma FreeKeeps(m: Mem, base: nat, count: nat)
    requires Owned(m) && base % PAGE == 0
    ensures KeepsOutside(m, Memory.Free(m, base, count), base / PAGE, count)
  {
    UnmapRangeIs(m.pages, base / PAGE, count);
    UnreserveShape(m.space, base, count);
  }

  /** The pages of one region are not those of another. */
  lemma OtherRegion(m: Mem, r: Region, g: Region, v: nat)
    requires SpaceOk(m.space) && RegionOk(r) && RegionOk(g) && RegionHeld(m, r) && RegionHeld(m, g)
    requires Apart(r, g) && InRegion(r, v)
    ensures !Covers(g.base / PAGE, g.size / PAGE, v)
  {
    ApartNoCommonPage(r, g, v);
    RegionBelowWindow(m, g);
    assert PageHeld(m, v);
    CoversPlain(g.base / PAGE, g.size / PAGE, v);
  }

  lemma RegionBelowWindow(m: Mem, r: Region)
    requires SpaceOk(m.space) && RegionOk(r) && RegionHeld(m, r)
    ensures r.base / PAGE + r.size / PAGE <= WINDOW
  {
    var v := r.base / PAGE + r.size / PAGE - 1;
    assert InRegion(r, v);
    assert PageHeld(m, v);
  }

  lemma RemoveRegion(m: Mem, n: Mem, h: seq<Region>, i: nat)
    requires SpaceOk(m.space) && HeapOk(m, h) && i < |h| && KeepsOutside(m, n, h[i].base / PAGE, h[i].size / PAGE)
    ensures HeapOk(n, h[..i] + h[i + 1..])
  {
    var g := h[..i] + h[i + 1..];
    forall k | 0 <= k < |g| ensures RegionOk(g[k]) && RegionHeld(n, g[k]) {
      var a := if k < i then k else k + 1;
      assert g[k] == h[a] && RegionOk(h[a]) && RegionOk(h[i]) && RegionHeld(m, h[a]);
      assert Apart(h[a], h[i]) && RegionHeld(m, h[i]);
      forall v: nat | InRegion(h[a], v) ensures !Covers(h[i].base / PAGE, h[i].size / PAGE, v) {
        OtherRegion(m, h[a], h[i], v);
      }
      RegionKept(m, n, h[a], h[i].base / PAGE, h[i].size / PAGE);
    }
    forall a, b | 0 <= a < b < |g| ensures Apart(g[a], g[b]) {
      assert Apart(h[if a < i then a else a + 1], h[if b < i then b else b + 1]);
    }
  }

  /** Giving a used block back to a region that keeps others. */
  lemma FreeWithinInv(s: Sys, i: nat, j: nat)
    requires SysInv(s) && i < |s.heap| && j < |s.heap[i].blocks| && s.heap[i].blocks[j].used
    requires |Give(s.heap[i].blocks, j)| != 1
    ensures SysInv(s.(heap := s.heap[i := s.heap[i].(blocks := Give(s.heap[i].blocks, j))]))
  {
    var r := s.heap[i];
    GivenRegionOk(r, j);
    UpdateRegion(s.mem, s.heap, i, r.(blocks := Give(r.blocks, j)));
  }

  lemma GivenRegionOk(r: Region, j: nat)
    requires RegionOk(r) && j < |r.blocks| && r.blocks[j].used && |Give(r.blocks, j)| != 1
    ensures RegionOk(r.(blocks := Give(r.blocks, j)))
  {
    GiveOk(r.blocks, r.base + REGION, r.base + r.size, j);
    assert Give(r.blocks, j) != [];
    OnlyFreeIsSingle(Give(r.blocks, j));
    NewBlocksOk(r, Give(r.blocks, j));
  }

  lemma NewBlocksOk(r: Region, bs: seq<Block>)
    requires RegionOk(r) && BlocksOk(bs, r.base + REGION, r.base + r.size) && SomeUsed(bs)
    ensures RegionOk(r.(blocks := bs))
  {
  }

  /** Returning a whole region to the VMM. */
  lemma FreeRegionInv(s: Sys, i: nat)
    requires SysInv(s) && i < |s.heap|
    ensures SysInv(Sys(Memory.Free(s.mem, s.heap[i].base, s.heap[i].size / PAGE), s.heap[..i] + s.heap[i + 1..]))
  {
    var r := s.heap[i];
    assert RegionOk(r) && RegionHeld(s.mem, r);
    RegionBelowWindow(s.mem, r);
    FreeOwned(s.mem, r.base, r.size / PAGE);
    FreeKeeps(s.mem, r.base, r.size / PAGE);
    RemoveRegion(s.mem, Memory.Free(s.mem, r.base, r.size / PAGE), s.heap, i);
  }

  /** A release keeps the invariant, whatever the pointer. */
  lemma FreeInv(s: Sys, ptr: nat)
    requires SysInv(s)
    ensures SysInv(HeapFree(s, ptr))
  {
    if ptr != 0 {
      match FindPtr(s.heap, ptr, 0)
      case None =>
      case Some((i, j)) =>
        if s.heap[i].blocks[j].used {
          if |Give(s.heap[i].blocks, j)| == 1 {
            FreeRegionInv(s, i);
          } else {
            FreeWithinInv(s, i, j);
          }
        }
    }
  }
}

/** `heap_free` undoes `heap_alloc`, and what the code does with request sizes
    that wrap around 2^32. */
module HeapRoundTrip {
  import opened Words
  import opened Runs
  import opened Frames
  import opened PageWalk
  import opened Memory
  import opened Backing
  import opened Ownership
  import opened Layout
  import opened KernelHeap
  import opened HeapLive
  import opened Outcomes

  lemma SameIndex(bs: seq<Block>, start: nat, end: nat, j: nat, k: nat)
    requires Tiles(bs, start, end) && j < |bs| && k < |bs| && bs[j] == bs[k]
    ensures j == k
  {
    if j < k { TilesOrdered(bs, start, end, j, k); } else if k < j { TilesOrdered(bs, start, end, k, j); }
  }

  /** The block is found at the place it was put. */
  lemma FoundAt(s: Sys, i: nat, j: nat)
    requires SysInv(s) && i < |s.heap| && j < |s.heap[i].blocks| && s.heap[i].blocks[j].used
    ensures FindPtr(s.heap, s.heap[i].blocks[j].Ptr(), 0) == Some((i, j))
  {
    var b := s.heap[i].blocks[j];
    assert b in Live(s.heap);
    FindLive(s, b);
    var (k, l) := FindPtr(s.heap, b.Ptr(), 0).value;
    SameStart(s, i, k, b, b);
    assert RegionOk(s.heap[i]);
    SameIndex(s.heap[i].blocks, s.heap[i].base + REGION, s.heap[i].base + s.heap[i].size, j, l);
  }

  lemma TakenInv(s: Sys, i: nat, j: nat, n: nat)
    requires SysInv(s) && i < |s.heap| && j < |s.heap[i].blocks| && !s.heap[i].blocks[j].used
    requires n <= s.heap[i].blocks[j].size && n % 16 == 0 && n >= MIN_BLOCK
    ensures SysInv(s.(heap := s.heap[i := TakeIn(s.heap[i], j, n)]))
    ensures |s.heap[i].blocks| > 1
  {
    var r := s.heap[i];
    assert RegionOk(r);
    TakeOk(r.blocks, r.base + REGION, r.base + r.size, j, n);
    UpdateRegion(s.mem, s.heap, i, TakeIn(r, j, n));
    OnlyFreeIsSingle(r.blocks);
  }

  lemma FoundTaken(s: Sys, i: nat, j: nat, n: nat)
    requires SysInv(s) && i < |s.heap| && j < |s.heap[i].blocks| && !s.heap[i].blocks[j].used
    requires n <= s.heap[i].blocks[j].size && n % 16 == 0 && n >= MIN_BLOCK
    ensures FindPtr(s.heap[i := TakeIn(s.heap[i], j, n)], s.heap[i].blocks[j].Ptr(), 0) == Some((i, j))
    ensures Take(s.heap[i].blocks, j, n)[j].used
  {
    var r := s.heap[i];
    TakenInv(s, i, j, n);
    assert Take(r.blocks, j, n)[j] == Taken(r.blocks[j], n);
    FoundAt(s.(heap := s.heap[i := TakeIn(r, j, n)]), i, j);
  }

  /** What `heap_free` does with a used block it has found, others remaining. */
  lemma FreedWithin(s: Sys, i: nat, j: nat, ptr: nat)
    requires ptr != 0 && FindPtr(s.heap, ptr, 0) == Some((i, j)) && s.heap[i].blocks[j].used
    requires |Give(s.heap[i].blocks, j)| != 1
    ensures HeapFree(s, ptr) == s.(heap := s.heap[i := s.heap[i].(blocks := Give(s.heap[i].blocks, j))])
  {
  }

  lemma FreedLast(s: Sys, i: nat, j: nat, ptr: nat)
    requires ptr != 0 && FindPtr(s.heap, ptr, 0) == Some((i, j)) && s.heap[i].blocks[j].used
    requires |Give(s.heap[i].blocks, j)| == 1
    ensures HeapFree(s, ptr) ==
            Sys(Memory.Free(s.mem, s.heap[i].base, s.heap[i].size / PAGE), s.heap[..i] + s.heap[i + 1..])
  {
  }

  /** From an existing block: the layout comes back and memory was never touched. */
  lemma RoundTripTaken(s: Sys, i: nat, j: nat, n: nat)
    requires SysInv(s) && i < |s.heap| && j < |s.heap[i].blocks| && !s.heap[i].blocks[j].used
    requires n <= s.heap[i].blocks[j].size && n % 16 == 0 && n >= MIN_BLOCK
    ensures HeapFree(s.(heap := s.heap[i := TakeIn(s.heap[i], j, n)]), s.heap[i].blocks[j].Ptr()) == s
  {
    var t := s.(heap := s.heap[i := TakeIn(s.heap[i], j, n)]);
    assert |s.heap[i].blocks| > 1 by { TakenInv(s, i, j, n); }
    FoundTaken(s, i, j, n);
    assert Give(t.heap[i].blocks, j) == s.heap[i].blocks by {
      assert RegionOk(s.heap[i]);
      GiveUndoesTake(s.heap[i].blocks, j, n);
    }
    FreedWithin(t, i, j, s.heap[i].blocks[j].Ptr());
    assert t.heap[i := s.heap[i]] == s.heap;
  }

  /** Obtaining pages and freeing them restores the VMM and the page map; the
      frames stay taken. */
  lemma ObtainUndone(m: Mem, pages: nat, contiguous: bool)
    requires Owned(m) && m.space.free < WORD && m.space.usedCount < WORD
    requires pages > 0 && Obtain(m, pages, contiguous).1 != 0
    ensures var (n, base) := Obtain(m, pages, contiguous);
      var t := Memory.Free(n, base, pages);
      && SameSpace(t.space, m.space) && t.pages == m.pages
      && t.pool == n.pool && t.pool.free == m.pool.free - pages
  {
    var (n, base) := Obtain(m, pages, contiguous);
    ReserveFresh(m, pages);
    ReserveUndone(m, pages);
    FreeKeepsFrames(n, base, pages);
    if contiguous {
      ContiguousBacking(m, pages);
      AllocGivesRun(m.pool, pages);
      UnmapUndoesMap(m.pages, base / PAGE, Frames.Alloc(m.pool, pages).1 / PAGE, RW, pages);
    } else {
      var fs := AllocBacking(m, pages);
      UnmapUndoesMapAll(m.pages, base / PAGE, fs);
      CountMarked(m.pool.used, fs);
    }
  }

  lemma UnmapUndoesMapAll(g: map<nat, nat>, v: nat, fs: seq<nat>)
    requires forall k :: v <= k < v + |fs| ==> k !in g
    ensures UnmapRange(MapAll(g, v, fs), v, |fs|) == g
  {
    MapAllIs(g, v, fs);
    UnmapRangeIs(MapAll(g, v, fs), v, |fs|);
  }

  lemma FoundGrown(s: Sys, t: Sys, r: Region, n: nat)
    requires |r.blocks| == 1 && !r.blocks[0].used && n <= r.blocks[0].size
    requires SysInv(t) && t.heap == s.heap + [TakeIn(r, 0, n)]
    ensures FindPtr(t.heap, r.blocks[0].Ptr(), 0) == Some((|s.heap|, 0))
  {
    assert t.heap[|s.heap|] == TakeIn(r, 0, n);
    assert t.heap[|s.heap|].blocks[0] == Taken(r.blocks[0], n);
    FoundAt(t, |s.heap|, 0);
  }

  /** Freeing the only block of the last region gives the region back. */
  lemma LastRegionBack(s: Sys, t: Sys, r: Region, n: nat)
    requires |r.blocks| == 1 && !r.blocks[0].used && n <= r.blocks[0].size
    requires t.heap == s.heap + [TakeIn(r, 0, n)]
    requires FindPtr(t.heap, r.blocks[0].Ptr(), 0) == Some((|s.heap|, 0))
    ensures HeapFree(t, r.blocks[0].Ptr()) == Sys(Memory.Free(t.mem, r.base, r.size / PAGE), s.heap)
  {
    var k := |s.heap|;
    assert t.heap[k] == TakeIn(r, 0, n);
    assert t.heap[k].blocks[0] == Taken(r.blocks[0], n);
    assert Coalesced(r.blocks);
    GiveUndoesTake(r.blocks, 0, n);
    FreedLast(t, k, 0, r.blocks[0].Ptr());
    assert t.heap[..k] + t.heap[k + 1..] == s.heap;
  }

  /** From a region grown for the purpose: the whole region goes back. */
  lemma RoundTripGrown(s: Sys, size: Word, contiguous: bool)
    requires SysInv(s) && 0 < size <= MAX_REQUEST
    requires s.mem.space.free < WORD && s.mem.space.usedCount < WORD
    requires Grow(s, Align16(size), contiguous).1 != 0
    ensures var (t, ptr) := Grow(s, Align16(size), contiguous);
      var u := HeapFree(t, ptr);
      && u.heap == s.heap && SameSpace(u.mem.space, s.mem.space) && u.mem.pages == s.mem.pages
      && u.mem.pool.free == s.mem.pool.free - GrowPages(Align16(size))
  {
    GrowFits(size);
    GrowInv(s, size, contiguous);
    var n, pages := Align16(size), GrowPages(Align16(size));
    var (mem, base) := Obtain(s.mem, pages, contiguous);
    var r := NewRegion(base, pages, contiguous);
    var t := Sys(mem, s.heap + [TakeIn(r, 0, n)]);
    assert UseNew(s.heap, base, pages, n, contiguous) == (t.heap, r.blocks[0].Ptr());
    FoundGrown(s, t, r, n);
    LastRegionBack(s, t, r, n);
    GrownBack(s, mem, base, pages, contiguous);
  }

  lemma GrownBack(s: Sys, mem: Mem, base: nat, pages: nat, contiguous: bool)
    requires Owned(s.mem) && s.mem.space.free < WORD && s.mem.space.usedCount < WORD
    requires pages > 0 && base != 0 && (mem, base) == Obtain(s.mem, pages, contiguous)
    ensures var t := Memory.Free(mem, base, pages * PAGE / PAGE);
      SameSpace(t.space, s.mem.space) && t.pages == s.mem.pages && t.pool.free == s.mem.pool.free - pages
  {
    assert pages * PAGE / PAGE == pages;
    ObtainUndone(s.mem, pages, contiguous);
  }

  /** A successful `heap_alloc` followed by `heap_free` of its result restores
      regions, blocks, VMM bitmap and counters and the page map; the frame pool
      too, exactly when no region had to be grown. */
  lemma AllocThenFree(s: Sys, size: Word, contiguous: bool)
    requires SysInv(s) && size <= MAX_REQUEST
    requires s.mem.space.free < WORD && s.mem.space.usedCount < WORD
    requires HeapAlloc(s, size, contiguous).1 != 0
    ensures var (t, ptr) := HeapAlloc(s, size, contiguous);
      var u := HeapFree(t, ptr);
      && u.heap == s.heap && SameSpace(u.mem.space, s.mem.space) && u.mem.pages == s.mem.pages
      && (u.mem.pool == s.mem.pool <==> FindFree(s.heap, Align16(size), contiguous, 0).Some?)
  {
    GrowFits(size);
    match FindFree(s.heap, Align16(size), contiguous, 0)
    case Some((i, j)) => RoundTripTaken(s, i, j, Align16(size));
    case None => RoundTripGrown(s, size, contiguous);
  }

  // ---- sizes that wrap ----

  /** Every block is smaller than the address space below the window. */
  lemma BlockSmall(s: Sys, i: nat, j: nat)
    requires SysInv(s) && i < |s.heap| && j < |s.heap[i].blocks|
    ensures s.heap[i].blocks[j].size < 0xFFC0_0000
  {
    var r := s.heap[i];
    assert RegionOk(r) && RegionHeld(s.mem, r);
    BlockInside(r, r.blocks[j]);
    var v := r.base / PAGE + r.size / PAGE - 1;
    assert InRegion(r, v);
    assert PageHeld(s.mem, v);
  }

  /** A request between the limit and 0xFFFFFFF0 never succeeds: `heap_grow`
      computes a page count that has wrapped, and the region it obtains stays
      in the list without a used block. */
  lemma WrappedGrow(s: Sys, size: Word, contiguous: bool)
    requires SysInv(s) && MAX_REQUEST < size <= 0xFFFF_FFF0
    ensures var (t, ptr) := HeapAlloc(s, size, contiguous);
      var (mem, base) := Obtain(s.mem, GROW_PAGES, contiguous);
      && ptr == 0
      && t == if base == 0 then s.(mem := mem) else Sys(mem, s.heap + [NewRegion(base, GROW_PAGES, contiguous)])
  {
    var n := Align16(size);
    assert GrowPages(n) == GROW_PAGES;
    var f := FindFree(s.heap, n, contiguous, 0);
    if f.Some? {
      BlockSmall(s, f.value.0, f.value.1);
    }
  }

  /** A request above 0xFFFFFFF0 is rounded to 0 bytes. */
  lemma WrappedToZero(s: Sys, size: Word, contiguous: bool)
    requires SysInv(s) && size > 0xFFFF_FFF0
    ensures Align16(size) == 0 && GrowPages(0) == GROW_PAGES
  {
  }

  /** What the caller must rule out: a size that wraps and either strands a
      region or carves a block of no bytes. */
  ghost predicate SafeRequest(s: Sys, size: Word, contiguous: bool)
  {
    if size <= MAX_REQUEST then true
    else if size <= 0xFFFF_FFF0 then Obtain(s.mem, GROW_PAGES, contiguous).1 == 0
    else match FindFree(s.heap, 0, contiguous, 0)
         case Some((i, j)) => s.heap[i].blocks[j].size < HEADER + MIN_BLOCK
         case None => Obtain(s.mem, GROW_PAGES, contiguous).1 == 0
  }

  lemma MemOnlyInv(s: Sys, pages: nat, contiguous: bool)
    requires SysInv(s)
    ensures SysInv(s.(mem := Obtain(s.mem, pages, contiguous).0))
  {
    ObtainKeeps(s.mem, pages, contiguous);
    var mem := Obtain(s.mem, pages, contiguous).0;
    forall i | 0 <= i < |s.heap| ensures RegionHeld(mem, s.heap[i]) {
      assert RegionOk(s.heap[i]) && RegionHeld(s.mem, s.heap[i]);
      RegionKept(s.mem, mem, s.heap[i], 0, 0);
    }
  }

  /** Carving no bytes out of a block leaves a block of size 0. */
  lemma ZeroTake(s: Sys, h: seq<Region>, i: nat, r: Region, j: nat)
    requires i < |h| && j < |r.blocks| && h[i] == TakeIn(r, j, 0) && r.blocks[j].size >= HEADER + MIN_BLOCK
    ensures !HeapOk(s.mem, h)
  {
    var b := h[i].blocks[j];
    assert b.size == 0 && b in h[i].blocks;
    assert !RegionOk(h[i]);
  }

  /** Taking a whole smallest block for a request of no bytes keeps the shape. */
  lemma SmallTakeInv(s: Sys, i: nat, j: nat)
    requires SysInv(s) && i < |s.heap| && j < |s.heap[i].blocks| && !s.heap[i].blocks[j].used
    requires s.heap[i].blocks[j].size < HEADER + MIN_BLOCK
    ensures SysInv(s.(heap := s.heap[i := TakeIn(s.heap[i], j, 0)]))
  {
    var r := s.heap[i];
    assert RegionOk(r);
    BlockInside(r, r.blocks[j]);
    assert Take(r.blocks, j, 0) == Take(r.blocks, j, MIN_BLOCK);
    TakeOk(r.blocks, r.base + REGION, r.base + r.size, j, MIN_BLOCK);
    UpdateRegion(s.mem, s.heap, i, TakeIn(r, j, 0));
  }

  /** `heap_alloc` keeps the heap's shape if and only if the request is safe. */
  lemma AllocInvIff(s: Sys, size: Word, contiguous: bool)
    requires SysInv(s)
    ensures SysInv(HeapAlloc(s, size, contiguous).0) <==> SafeRequest(s, size, contiguous)
  {
    var t := HeapAlloc(s, size, contiguous).0;
    if size <= MAX_REQUEST {
      AllocInv(s, size, contiguous);
    } else if size <= 0xFFFF_FFF0 {
      WrappedGrow(s, size, contiguous);
      MemOnlyInv(s, GROW_PAGES, contiguous);
      if !SafeRequest(s, size, contiguous) { Stranded(t); }
    } else {
      WrappedToZero(s, size, contiguous);
      match FindFree(s.heap, 0, contiguous, 0)
      case Some((i, j)) =>
        if SafeRequest(s, size, contiguous) { SmallTakeInv(s, i, j); }
        else { ZeroTake(t, t.heap, i, s.heap[i], j); }
      case None =>
        MemOnlyInv(s, GROW_PAGES, contiguous);
        if !SafeRequest(s, size, contiguous) {
          var r := NewRegion(Obtain(s.mem, GROW_PAGES, contiguous).1, GROW_PAGES, contiguous);
          ZeroTake(t, t.heap, |s.heap|, r, 0);
        }
    }
  }

  lemma Stranded(t: Sys)
    requires t.heap != [] && |t.heap[|t.heap| - 1].blocks| == 1 && !t.heap[|t.heap| - 1].blocks[0].used
    ensures !SysInv(t)
  {
    assert !RegionOk(t.heap[|t.heap| - 1]);
  }

  /** The block handed out is as large as the request if and only if the request
      is at most 0xFFFFFFF0 bytes. */
  lemma LargeEnoughIff(s: Sys, size: Word, contiguous: bool)
    requires SysInv(s) && HeapAlloc(s, size, contiguous).1 != 0
    ensures var (t, ptr) := HeapAlloc(s, size, contiguous);
      && (size <= 0xFFFF_FFF0 ==> exists b :: b in Live(t.heap) && b.Ptr() == ptr && b.size >= size)
      && (size > 0xFFFF_FFF0 ==> forall b :: b in Live(t.heap) && b.Ptr() == ptr ==> b.size < size)
  {
    if size <= MAX_REQUEST {
      var i, b := AllocLive(s, size, contiguous);
      assert b in Live(HeapAlloc(s, size, contiguous).0.heap);
    } else if size <= 0xFFFF_FFF0 {
      WrappedGrow(s, size, contiguous);
    } else {
      AllSmall(s, size, contiguous);
    }
  }

  lemma AllSmall(s: Sys, size: Word, contiguous: bool)
    requires SysInv(s) && size > 0xFFFF_FFF0
    ensures forall b :: b in Live(HeapAlloc(s, size, contiguous).0.heap) ==> b.size < size
  {
    WrappedToZero(s, size, contiguous);
    match FindFree(s.heap, 0, contiguous, 0)
    case Some((k, l)) =>
      forall b | b in Live(s.heap[k := TakeIn(s.heap[k], l, 0)]) ensures b.size < size {
        SmallAfterTake(s, k, l, b);
      }
    case None =>
      forall b | b in Live(Grow(s, 0, contiguous).0.heap) ensures b.size < size {
        SmallAfterGrow(s, contiguous, b);
      }
  }

  /** Blocks of a valid heap are small. */
  lemma SmallInHeap(s: Sys, i: nat, b: Block)
    requires SysInv(s) && i < |s.heap| && b in s.heap[i].blocks
    ensures b.size < 0xFFFF_FFF0
  {
    var j :| 0 <= j < |s.heap[i].blocks| && s.heap[i].blocks[j] == b;
    BlockSmall(s, i, j);
  }

  lemma SmallAfterTake(s: Sys, k: nat, l: nat, b: Block)
    requires SysInv(s) && k < |s.heap| && l < |s.heap[k].blocks|
    requires b in Live(s.heap[k := TakeIn(s.heap[k], l, 0)])
    ensures b.size < 0xFFFF_FFF0
  {
    var i := LiveWhere(s.heap[k := TakeIn(s.heap[k], l, 0)], b);
    if i != k {
      SmallInHeap(s, i, b);
    } else {
      TakeSizes(s.heap[k].blocks, l, b);
      SmallInHeap(s, k, s.heap[k].blocks[l]);
      if b in s.heap[k].blocks { SmallInHeap(s, k, b); }
    }
  }

  lemma SmallAfterGrow(s: Sys, contiguous: bool, b: Block)
    requires SysInv(s) && b in Live(Grow(s, 0, contiguous).0.heap) && GrowPages(0) == GROW_PAGES
    ensures b.size < 0xFFFF_FFF0
  {
    var h := Grow(s, 0, contiguous).0.heap;
    var i := LiveWhere(h, b);
    if i < |s.heap| {
      assert h[i] == s.heap[i];
      SmallInHeap(s, i, b);
    } else {
      var r := NewRegion(Obtain(s.mem, GROW_PAGES, contiguous).1, GROW_PAGES, contiguous);
      TakeSizes(r.blocks, 0, b);
    }
  }

  lemma TakeSizes(bs: seq<Block>, j: nat, b: Block)
    requires j < |bs| && b in Take(bs, j, 0)
    ensures b in bs || b.size <= bs[j].size
  {
  }
}

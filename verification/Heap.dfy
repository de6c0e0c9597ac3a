/** The kernel heap (kheap.c) on headers in memory, the virtual page allocator
    underneath: `Alloc` and `Free` are the steps of `KernelHeap`. */
module Heap {
  import opened Words
  import opened Links
  import opened PageWalk
  import opened Memory
  import opened Layout
  import opened KernelHeap
  import opened HeapNodes
  import opened HeapRep
  import Vmm

  class KernelHeapManager {
    const vmm: Vmm.Manager
    /** `heap->head` and `heap->tail` */
    var ends: Ends
    var regions: Regions
    var blocks: Blocks
    /** The regions and blocks the headers represent. */
    ghost var layout: seq<Region>

    ghost function Repr(): set<object>
    {
      {this} + vmm.Repr()
    }

    ghost predicate Valid()
      reads Repr()
    {
      this !in vmm.Repr() && vmm.Valid() && HeapRep.HeapRep(regions, blocks, ends, layout)
    }

    ghost function State(): Sys
      requires Valid()
      reads Repr()
    {
      Sys(vmm.State(), layout)
    }

    /** `heap_init` */
    constructor (vmm: Vmm.Manager)
      requires vmm.Valid()
      ensures Valid() && this.vmm == vmm
      ensures State() == Sys(old(vmm.State()), [])
    {
      this.vmm := vmm;
      ends := Ends(0, 0);
      regions := Regions(Fields(map[], map[]), map[], map[], map[], map[]);
      blocks := Blocks(Fields(map[], map[]), map[], map[]);
      layout := [];
    }

    // ---- list edits ----

    /** `region_append` */
    method RegionAppend(region: nat)
      modifies this`ends, this`regions
      ensures (regions.links, ends) == Append(old(regions).links, old(ends), region)
      ensures regions == old(regions).(links := regions.links)
    {
      regions := regions.(links := regions.links.SetNext(region, 0).SetPrev(region, ends.tail));
      if ends.tail != 0 {
        regions := regions.(links := regions.links.SetNext(ends.tail, region));
      } else {
        ends := ends.(head := region);
      }
      ends := ends.(tail := region);
    }

    /** `region_remove` */
    method RegionRemove(region: nat)
      modifies this`ends, this`regions
      ensures (regions.links, ends) == Remove(old(regions).links, old(ends), region)
      ensures regions == old(regions).(links := regions.links)
    {
      var next, prev := regions.links.Next(region), regions.links.Prev(region);
      if prev != 0 {
        regions := regions.(links := regions.links.SetNext(prev, next));
      } else {
        ends := ends.(head := next);
      }
      if next != 0 {
        regions := regions.(links := regions.links.SetPrev(next, prev));
      } else {
        ends := ends.(tail := prev);
      }
      regions := regions.(links := regions.links.SetNext(region, 0).SetPrev(region, 0));
    }

    /** `block_insert_after` */
    method BlockInsertAfter(region: nat, block: nat, next: nat)
      modifies this`blocks, this`regions
      ensures (blocks.links, regions.EndsOf(region)) ==
              InsertAfter(old(blocks).links, old(regions).EndsOf(region), block, next)
      ensures blocks == old(blocks).(links := blocks.links) && regions == old(regions).(tail := regions.tail)
      ensures OthersSame(old(regions), regions, region)
    {
      var after := blocks.links.Next(block);
      blocks := blocks.(links := blocks.links.SetPrev(next, block));
      blocks := blocks.(links := blocks.links.SetNext(next, after));
      if after != 0 {
        blocks := blocks.(links := blocks.links.SetPrev(after, next));
      } else {
        regions := regions.(tail := regions.tail[region := next]);
      }
      blocks := blocks.(links := blocks.links.SetNext(block, next));
    }

    /** `block_remove` */
    method BlockRemove(region: nat, block: nat)
      modifies this`blocks, this`regions
      ensures (blocks.links, regions.EndsOf(region)) ==
              Remove(old(blocks).links, old(regions).EndsOf(region), block)
      ensures blocks == old(blocks).(links := blocks.links)
      ensures regions == old(regions).(head := regions.head, tail := regions.tail)
      ensures OthersSame(old(regions), regions, region)
    {
      var next, prev := blocks.links.Next(block), blocks.links.Prev(block);
      if prev != 0 {
        blocks := blocks.(links := blocks.links.SetNext(prev, next));
      } else {
        regions := regions.(head := regions.head[region := next]);
      }
      if next != 0 {
        blocks := blocks.(links := blocks.links.SetPrev(next, prev));
      } else {
        regions := regions.(tail := regions.tail[region := prev]);
      }
      blocks := blocks.(links := blocks.links.SetNext(block, 0).SetPrev(block, 0));
    }

    /** `block_alloc`: fails on a block that is too small. */
    method BlockAlloc(region: nat, block: nat, size: nat) returns (ok: bool)
      modifies this`blocks, this`regions
      ensures ok <==> Get(old(blocks).size, block) >= size
      ensures !ok ==> blocks == old(blocks) && regions == old(regions)
      ensures ok ==> (blocks, regions.EndsOf(region)) ==
                     HeapNodes.BlockAlloc(old(blocks), old(regions).EndsOf(region), block, size)
      ensures regions == old(regions).(tail := regions.tail)
      ensures OthersSame(old(regions), regions, region)
    {
      var whole := Get(blocks.size, block);
      if whole < size {
        return false;
      }
      if whole >= size + HEADER + MIN_BLOCK {
        var next := block + HEADER + size;
        blocks := blocks.(size := blocks.size[next := whole - HEADER - size]);
        blocks := blocks.(flags := blocks.flags[next := 0]);
        blocks := blocks.(links := blocks.links.SetNext(next, 0).SetPrev(next, 0));
        BlockInsertAfter(region, block, next);
        blocks := blocks.(size := blocks.size[block := size]);
      }
      blocks := blocks.(flags := SetUsed(blocks.flags, block));
      return true;
    }

    /** `block_free` */
    method BlockFree(region: nat, block: nat)
      modifies this`blocks, this`regions
      ensures (blocks, regions.EndsOf(region)) ==
              HeapNodes.BlockFree(old(blocks), old(regions).EndsOf(region), block)
      ensures regions == old(regions).(head := regions.head, tail := regions.tail)
      ensures OthersSame(old(regions), regions, region)
    {
      var next := blocks.links.Next(block);
      if next == 0 {
        return;
      }
      if UsedFlag(Get(blocks.flags, next)) {
        return;
      }
      blocks := blocks.(size := blocks.size[block := Get(blocks.size, block) + HEADER + Get(blocks.size, next)]);
      BlockRemove(region, next);
    }

    // ---- searches ----

    /** The inner loop of `block_find`. */
    method FindIn(region: nat, ptr: nat, ghost i: nat) returns (block: nat)
      requires Valid() && i < |layout| && region == layout[i].base
      ensures var f := PtrIn(layout[i].blocks, ptr, 0);
        if f.Some? then block == layout[i].blocks[f.value].addr && block != 0 else block == 0
    {
      ghost var bs := layout[i].blocks;
      RegionAt(regions, blocks, layout, |layout|, i);
      Cursor(blocks.links, regions.EndsOf(region), bs, 0);
      block := Get(regions.head, region);
      ghost var j := 0;
      while block != 0
        invariant j <= |bs| && block == AddrAt(bs, j) && (block == 0 <==> j == |bs|)
        invariant PtrIn(bs, ptr, 0) == PtrIn(bs, ptr, j)
        decreases |bs| - j
      {
        Cursor(blocks.links, regions.EndsOf(region), bs, j);
        Cursor(blocks.links, regions.EndsOf(region), bs, j + 1);
        if block + HEADER == ptr {
          return;
        }
        block := blocks.links.Next(block);
        j := j + 1;
      }
    }

    /** `block_find` */
    method BlockFind(ptr: nat) returns (region: nat, block: nat)
      requires Valid()
      ensures match FindPtr(layout, ptr, 0)
              case None => block == 0
              case Some((i, j)) => region == layout[i].base && block == layout[i].blocks[j].addr && block != 0
    {
      RegionCursor(regions.links, ends, layout, 0);
      region, block := ends.head, 0;
      ghost var i := 0;
      while region != 0
        invariant i <= |layout| && region == BaseAt(layout, i) && (region == 0 <==> i == |layout|)
        invariant FindPtr(layout, ptr, 0) == FindPtr(layout, ptr, i)
        invariant block == 0
        decreases |layout| - i
      {
        block := FindIn(region, ptr, i);
        if block != 0 {
          return;
        }
        RegionCursor(regions.links, ends, layout, i);
        RegionCursor(regions.links, ends, layout, i + 1);
        region := regions.links.Next(region);
        i := i + 1;
      }
    }

    /** The inner loop of `block_find_free`. */
    method FindFreeIn(region: nat, size: nat, contiguous: bool, ghost i: nat) returns (block: nat)
      requires Valid() && i < |layout| && region == layout[i].base
      ensures var f := FreeIn(layout[i].blocks, size, 0);
        if layout[i].contiguous == contiguous && f.Some?
        then block == layout[i].blocks[f.value].addr && block != 0 else block == 0
    {
      ghost var bs := layout[i].blocks;
      RegionAt(regions, blocks, layout, |layout|, i);
      Cursor(blocks.links, regions.EndsOf(region), bs, 0);
      block := Get(regions.head, region);
      ghost var j := 0;
      while block != 0
        invariant j <= |bs| && block == AddrAt(bs, j) && (block == 0 <==> j == |bs|)
        invariant layout[i].contiguous == contiguous ==> FreeIn(bs, size, 0) == FreeIn(bs, size, j)
        decreases |bs| - j
      {
        Cursor(blocks.links, regions.EndsOf(region), bs, j);
        Cursor(blocks.links, regions.EndsOf(region), bs, j + 1);
        assert BlockRep(blocks.size, blocks.flags, bs[j]);
        if UsedFlag(Get(blocks.flags, block)) {
        } else if Get(blocks.size, block) < size {
        } else if contiguous != (Get(regions.flags, region) / 2 % 2 == 1) {
        } else {
          return;
        }
        block := blocks.links.Next(block);
        j := j + 1;
      }
    }

    /** `block_find_free` */
    method BlockFindFree(size: nat, contiguous: bool) returns (region: nat, block: nat)
      requires Valid()
      ensures match FindFree(layout, size, contiguous, 0)
              case None => block == 0
              case Some((i, j)) => region == layout[i].base && block == layout[i].blocks[j].addr && block != 0
    {
      RegionCursor(regions.links, ends, layout, 0);
      region, block := ends.head, 0;
      ghost var i := 0;
      while region != 0
        invariant i <= |layout| && region == BaseAt(layout, i) && (region == 0 <==> i == |layout|)
        invariant FindFree(layout, size, contiguous, 0) == FindFree(layout, size, contiguous, i)
        invariant block == 0
        decreases |layout| - i
      {
        block := FindFreeIn(region, size, contiguous, i);
        if block != 0 {
          return;
        }
        RegionCursor(regions.links, ends, layout, i);
        RegionCursor(regions.links, ends, layout, i + 1);
        region := regions.links.Next(region);
        i := i + 1;
      }
    }

    // ---- allocation ----

    /** `block_alloc` on block `j` of region `i`. */
    method TakeBlock(region: nat, block: nat, size: nat, ghost i: nat, ghost j: nat) returns (ok: bool)
      requires Valid() && Tiled(layout) && i < |layout| && j < |layout[i].blocks|
      requires region == layout[i].base && block == layout[i].blocks[j].addr && !layout[i].blocks[j].used
      modifies this
      ensures Valid() && ok == (size <= old(layout)[i].blocks[j].size)
      ensures layout == if ok then old(layout)[i := TakeIn(old(layout)[i], j, size)] else old(layout)
    {
      ghost var r, rm, bm := layout[i], regions, blocks;
      RegionAt(rm, bm, layout, |layout|, i);
      assert BlockRep(bm.size, bm.flags, r.blocks[j]);
      ok := BlockAlloc(region, block, size);
      if ok {
        BlockAllocRep(bm, rm.EndsOf(region), r.blocks, r.base + REGION, r.base + r.size, j, size);
        assert BlocksSameOutside(bm, blocks, r.base, r.base + r.size) by {
          forall a: nat | !(r.base <= a < r.base + r.size) ensures SameHeader(bm, blocks, a) {
            BlockAllocFrame(bm, rm.EndsOf(region), r.blocks, r.base + REGION, r.base + r.size, j, size, a);
          }
        }
        EditRegion(rm, regions, bm, blocks, ends, layout, i, TakeIn(r, j, size));
        layout := layout[i := TakeIn(r, j, size)];
      }
    }

    /** The headers `heap_grow` writes at the start of a fresh region. */
    method InitRegion(region: nat, pages: nat, contiguous: bool)
      requires region > 0 && pages > 0 && HeapRep.HeapRep(regions, blocks, ends, layout)
      requires Tiled(layout + [NewRegion(region, pages, contiguous)])
      modifies this`regions, this`blocks
      ensures HeapRep.HeapRep(regions, blocks, ends, layout) && region !in Bases(layout)
      ensures RegionRep(regions, blocks, NewRegion(region, pages, contiguous))
    {
      ghost var rm, bm := regions, blocks;
      var block := region + REGION;
      regions := regions.(flags := regions.flags[region := if contiguous then CONTIGUOUS else 0]);
      blocks := blocks.(size := blocks.size[block := pages * PAGE - REGION - HEADER]);
      blocks := blocks.(flags := blocks.flags[block := 0]);
      blocks := blocks.(links := blocks.links.SetNext(block, 0).SetPrev(block, 0));
      regions := regions.(size := regions.size[region := pages * PAGE]);
      regions := regions.(head := regions.head[region := block], tail := regions.tail[region := block]);
      regions := regions.(links := regions.links.SetNext(region, 0).SetPrev(region, 0));
      InitRegionRep(rm, regions, bm, blocks, ends, layout, region, pages, contiguous);
    }

    /** The pages of a new region, from the VMM. */
    method ObtainPages(pages: nat, contiguous: bool) returns (region: nat)
      requires Valid()
      modifies vmm.Repr()
      ensures Valid()
      ensures (vmm.State(), region) == Obtain(old(vmm.State()), pages, contiguous)
    {
      if contiguous {
        region := vmm.AllocContiguous(pages);
      } else {
        region := vmm.Alloc(pages);
      }
    }

    /** `heap_grow`: a fresh region with its headers, not in the list yet. */
    method GrowHeap(pages: nat, contiguous: bool) returns (region: nat)
      requires Valid() && pages > 0
      requires Obtain(vmm.State(), pages, contiguous).1 != 0 ==>
                 Tiled(layout + [NewRegion(Obtain(vmm.State(), pages, contiguous).1, pages, contiguous)])
      modifies Repr()
      ensures Valid() && layout == old(layout)
      ensures (vmm.State(), region) == Obtain(old(vmm.State()), pages, contiguous)
      ensures region != 0 ==>
        region !in Bases(layout) && RegionRep(regions, blocks, NewRegion(region, pages, contiguous))
    {
      region := ObtainPages(pages, contiguous);
      if region != 0 {
        InitRegion(region, pages, contiguous);
      }
    }

    /** A fresh region put at the end of the list, and `size` bytes taken from it. */
    method UseRegion(region: nat, pages: nat, size: nat, contiguous: bool) returns (ptr: nat)
      requires Valid() && pages > 0 && region != 0 && region !in Bases(layout)
      requires RegionRep(regions, blocks, NewRegion(region, pages, contiguous))
      requires Tiled(layout + [NewRegion(region, pages, contiguous)])
      modifies this
      ensures Valid()
      ensures (layout, ptr) == UseNew(old(layout), region, pages, size, contiguous)
    {
      ghost var r := NewRegion(region, pages, contiguous);
      AppendNew(region, r);
      var block := Get(regions.head, region);
      assert block == region + REGION by {
        Cursor(blocks.links, regions.EndsOf(region), r.blocks, 0);
      }
      var ok := TakeBlock(region, block, size, |layout| - 1, 0);
      ptr := if ok then block + HEADER else 0;
      if ok { LastUpdated(old(layout), r, TakeIn(r, 0, size)); }
    }

    method AppendNew(region: nat, ghost r: Region)
      requires Valid() && region == r.base != 0 && region !in Bases(layout) && RegionRep(regions, blocks, r)
      modifies this`ends, this`regions, this`layout
      ensures Valid() && layout == old(layout) + [r] && regions == old(regions).(links := regions.links)
    {
      AppendRep(regions, blocks, ends, layout, r);
      RegionAppend(region);
      layout := layout + [r];
    }

    /** The first half of `heap_alloc`: a free block that is large enough. */
    method AllocExisting(size: nat, contiguous: bool) returns (ptr: nat)
      requires Valid() && Tiled(layout)
      modifies this
      ensures Valid()
      ensures match FindFree(old(layout), size, contiguous, 0)
              case None => ptr == 0 && layout == old(layout)
              case Some((i, j)) =>
                ptr == old(layout)[i].blocks[j].Ptr() && layout == old(layout)[i := TakeIn(old(layout)[i], j, size)]
    {
      var region, block := BlockFindFree(size, contiguous);
      ghost var found := FindFree(layout, size, contiguous, 0);
      if block == 0 {
        return 0;
      }
      var ok := TakeBlock(region, block, size, found.value.0, found.value.1);
      ptr := block + HEADER;
    }

    /** `heap_alloc` */
    method Alloc(size: Word, contiguous: bool) returns (ptr: nat)
      requires Valid() && SysInv(State())
      modifies Repr()
      ensures Valid()
      ensures (State(), ptr) == HeapAlloc(old(State()), size, contiguous)
    {
      if size == 0 {
        return 0;
      }
      ptr := AllocAligned(Align16(size), contiguous);
    }

    method AllocAligned(n: nat, contiguous: bool) returns (ptr: nat)
      requires Valid() && SysInv(State())
      modifies Repr()
      ensures Valid()
      ensures match FindFree(old(State()).heap, n, contiguous, 0)
        case Some((i, j)) =>
          var s := old(State());
          State() == s.(heap := s.heap[i := TakeIn(s.heap[i], j, n)]) && ptr == s.heap[i].blocks[j].Ptr()
        case None => (State(), ptr) == Grow(old(State()), n, contiguous)
    {
      ghost var s := State();
      OkTiled(vmm.State(), layout);
      ptr := AllocExisting(n, contiguous);
      if ptr == 0 {
        assert State() == s;
        ptr := AllocNew(n, contiguous);
      }
    }

    /** The rest of `heap_alloc`, when no free block is large enough. */
    method AllocNew(size: nat, contiguous: bool) returns (ptr: nat)
      requires Valid() && SysInv(State())
      modifies Repr()
      ensures Valid()
      ensures (State(), ptr) == Grow(old(State()), size, contiguous)
    {
      var pages := GrowPages(size);
      ghost var got := Obtain(vmm.State(), pages, contiguous);
      assert got.1 != 0 ==> Tiled(layout + [NewRegion(got.1, pages, contiguous)]) by {
        if got.1 != 0 { GrownTiled(vmm.State(), layout, pages, contiguous); }
      }
      var region := GrowHeap(pages, contiguous);
      if region == 0 {
        return 0;
      }
      ptr := UseRegion(region, pages, size, contiguous);
    }

    // ---- release ----

    /** The used block `j` of region `i` marked free and merged; reports whether
        the region now holds exactly one free block. */
    method GiveBlock(region: nat, block: nat, ghost i: nat, ghost j: nat) returns (single: bool)
      requires Valid() && Tiled(layout) && i < |layout| && j < |layout[i].blocks|
      requires region == layout[i].base && block == layout[i].blocks[j].addr && layout[i].blocks[j].used
      modifies this
      ensures Valid() && single == (|Give(old(layout)[i].blocks, j)| == 1)
      ensures layout == old(layout)[i := old(layout)[i].(blocks := Give(old(layout)[i].blocks, j))]
    {
      ghost var r, rm, bm := layout[i], regions, blocks;
      RegionAt(rm, bm, layout, |layout|, i);
      var rest; ghost var k;
      rest, k := MergeBlock(region, block, r.blocks, r.base + REGION, r.base + r.size, j);
      ghost var t := r.(blocks := Give(r.blocks, j));
      assert BlocksSameOutside(bm, blocks, r.base, r.base + r.size);
      EditRegion(rm, regions, bm, blocks, ends, layout, i, t);
      assert BlockRep(blocks.size, blocks.flags, t.blocks[k]);
      SingleBlock(blocks.links, regions.EndsOf(region), t.blocks, k);
      single := Get(regions.head, region) == Get(regions.tail, region) && Get(regions.head, region) == rest
                && !UsedFlag(Get(blocks.flags, rest));
      layout := layout[i := t];
    }

    /** The end of `heap_shrink`: a region with one free block goes back to the VMM. */
    method ReturnRegion(region: nat, ghost i: nat)
      requires Valid() && i < |layout| && region == layout[i].base
      requires region / PAGE + layout[i].size / PAGE <= WINDOW
      modifies Repr()
      ensures Valid()
      ensures State() == Sys(Memory.Free(old(vmm.State()), region, old(layout)[i].size / PAGE),
                             old(layout)[..i] + old(layout)[i + 1..])
    {
      RegionAt(regions, blocks, layout, |layout|, i);
      var count := Get(regions.size, region) / PAGE;
      RemoveRep(regions, blocks, ends, layout, i);
      RegionRemove(region);
      layout := layout[..i] + layout[i + 1..];
      vmm.Free(region, count);
    }

    /** `heap_free` on the used block `j` of region `i`. */
    method ReleaseBlock(region: nat, block: nat, ghost i: nat, ghost j: nat)
      requires Valid() && Tiled(layout) && i < |layout| && j < |layout[i].blocks|
      requires region == layout[i].base && block == layout[i].blocks[j].addr && layout[i].blocks[j].used
      requires region / PAGE + layout[i].size / PAGE <= WINDOW
      modifies Repr()
      ensures Valid()
      ensures var r, bs := old(layout)[i], Give(old(layout)[i].blocks, j);
        State() == if |bs| == 1
                   then Sys(Memory.Free(old(vmm.State()), r.base, r.size / PAGE),
                     old(layout)[..i] + old(layout)[i + 1..])
                   else Sys(old(vmm.State()), old(layout)[i := r.(blocks := bs)])
    {
      var single := GiveBlock(region, block, i, j);
      if single {
        ReturnRegion(region, i);
      }
    }

    /** `heap_free`, needing of the heap only what it looks at. */
    method FreePtr(ptr: nat)
      requires Valid() && Tiled(layout) && BelowWindow(layout)
      modifies Repr()
      ensures Valid()
      ensures State() == HeapFree(old(State()), ptr)
    {
      if ptr == 0 {
        return;
      }
      var region, block := BlockFind(ptr);
      if block == 0 {
        return;
      }
      ghost var (i, j) := FindPtr(layout, ptr, 0).value;
      assert BlockRep(blocks.size, blocks.flags, layout[i].blocks[j]) by {
        RegionAt(regions, blocks, layout, |layout|, i);
      }
      if !UsedFlag(Get(blocks.flags, block)) {
        return;
      }
      ReleaseBlock(region, block, i, j);
    }

    /** `heap_free` */
    method Free(ptr: nat)
      requires Valid() && SysInv(State())
      modifies Repr()
      ensures Valid()
      ensures State() == HeapFree(old(State()), ptr)
    {
      OkTiled(vmm.State(), layout);
      OkBelowWindow(vmm.State(), layout);
      FreePtr(ptr);
    }

    /** The start of `heap_shrink`: the freed block merges with the block after it
        and into a free block before it; returns the block that remains. */
    method MergeBlock(region: nat, block: nat, ghost bs: seq<Block>, ghost from: nat, ghost end: nat, ghost j: nat)
      returns (rest: nat, ghost k: nat)
      requires BlocksRep(blocks, regions.EndsOf(region), bs) && Tiles(bs, from, end)
      requires j < |bs| && block == bs[j].addr && bs[j].used
      modifies this`blocks, this`regions
      ensures BlocksRep(blocks, regions.EndsOf(region), Give(bs, j))
      ensures k < |Give(bs, j)| && Give(bs, j)[k].addr == rest && !Give(bs, j)[k].used
      ensures BlocksSameOutside(old(blocks), blocks, from, end)
      ensures regions == old(regions).(head := regions.head, tail := regions.tail)
      ensures OthersSame(old(regions), regions, region)
    {
      ghost var free, b0, r0 := bs[j := bs[j].(used := false)], blocks, regions;
      ghost var merged := Absorb(free, j);
      assert merged[j].addr == block && !merged[j].used && |merged| > j;
      ClearUsedRep(blocks, regions.EndsOf(region), bs, from, end, j);
      ClearTiles(bs, from, end, j);
      assert from <= block < end by { TilesAt(bs, from, end, j); }
      blocks := blocks.(flags := ClearUsed(blocks.flags, block));
      assert BlocksSameOutside(b0, blocks, from, end);
      ghost var b1 := blocks;
      AbsorbAt(region, block, free, from, end, j);
      SameOutsideTwice(b0, b1, blocks, from, end);
      ghost var b2, r2 := blocks, regions;
      NextAddr(blocks.links, regions.EndsOf(region), merged, j);
      rest, k := block, j;
      var prev := blocks.links.Prev(block);
      if prev != 0 && !UsedFlag(Get(blocks.flags, prev)) {
        assert BlockRep(blocks.size, blocks.flags, merged[j - 1]);
        AbsorbTiles(free, from, end, j);
        rest, k := prev, j - 1;
        AbsorbAt(region, rest, merged, from, end, j - 1);
        SameOutsideTwice(b0, b2, blocks, from, end);
        OthersSameTwice(r0, r2, regions, region);
        assert Give(bs, j) == Absorb(merged, j - 1);
      } else {
        assert j > 0 ==> BlockRep(blocks.size, blocks.flags, merged[j - 1]) && prev == merged[j - 1].addr != 0 by {
          if j > 0 { NextAddr(blocks.links, regions.EndsOf(region), merged, j - 1); }
        }
        assert Give(bs, j) == merged;
      }
    }

    /** `block_free` on block `j` of a region with blocks `bs`. */
    method AbsorbAt(region: nat, block: nat, ghost bs: seq<Block>, ghost from: nat, ghost end: nat, ghost j: nat)
      requires BlocksRep(blocks, regions.EndsOf(region), bs) && Tiles(bs, from, end) && j < |bs| && block == bs[j].addr
      modifies this`blocks, this`regions
      ensures BlocksRep(blocks, regions.EndsOf(region), Absorb(bs, j))
      ensures BlocksSameOutside(old(blocks), blocks, from, end)
      ensures regions == old(regions).(head := regions.head, tail := regions.tail)
      ensures OthersSame(old(regions), regions, region)
    {
      BlockFreeRep(blocks, regions.EndsOf(region), bs, from, end, j);
      forall a: nat | !(from <= a < end)
        ensures SameHeader(blocks, HeapNodes.BlockFree(blocks, regions.EndsOf(region), block).0, a)
      {
        BlockFreeFrame(blocks, regions.EndsOf(region), bs, from, end, j, a);
      }
      BlockFree(region, block);
    }
  }

  /** Head and tail coincide exactly when one block remains, and it is then the
      merged one. */
  lemma SingleBlock(f: Fields, e: Ends, bs: seq<Block>, k: nat)
    requires Linked(f, e, Addrs(bs)) && k < |bs|
    ensures |bs| == 1 <==> e.head == e.tail && e.head == bs[k].addr
  {
    LinkedIs(f, e, Addrs(bs));
    assert e.head == Addrs(bs)[0] && e.tail == Addrs(bs)[|bs| - 1];
  }

  lemma LastUpdated(h: seq<Region>, r: Region, t: Region)
    ensures (h + [r])[|h| := t] == h + [t]
  {
  }

  ghost predicate BelowWindow(h: seq<Region>)
  {
    forall i :: 0 <= i < |h| ==> h[i].base / PAGE + h[i].size / PAGE <= WINDOW
  }

  lemma OkBelowWindow(m: Mem, h: seq<Region>)
    requires SpaceOk(m.space) && HeapOk(m, h)
    ensures BelowWindow(h)
  {
    forall i | 0 <= i < |h| ensures h[i].base / PAGE + h[i].size / PAGE <= WINDOW {
      RegionBelowWindow(m, h[i]);
    }
  }

  lemma SameOutsideTwice(b0: Blocks, b1: Blocks, b2: Blocks, from: nat, end: nat)
    requires BlocksSameOutside(b0, b1, from, end) && BlocksSameOutside(b1, b2, from, end)
    ensures BlocksSameOutside(b0, b2, from, end)
  {
    forall a: nat | !(from <= a < end) ensures SameHeader(b0, b2, a) {
      assert SameHeader(b0, b1, a) && SameHeader(b1, b2, a);
    }
  }

  /** A region just obtained is apart from all others. */
  lemma GrownTiled(m: Mem, h: seq<Region>, pages: nat, contiguous: bool)
    requires Owned(m) && HeapOk(m, h) && pages > 0 && Obtain(m, pages, contiguous).1 != 0
    ensures Tiled(h + [NewRegion(Obtain(m, pages, contiguous).1, pages, contiguous)])
  {
    var base := Obtain(m, pages, contiguous).1;
    var r := NewRegion(base, pages, contiguous);
    OkTiled(m, h);
    ObtainGives(m, pages, contiguous);
    NewRegionTiles(base, pages, contiguous);
    assert pages * PAGE % PAGE == 0;
    forall i | 0 <= i < |h| ensures Apart(h[i], r) {
      assert RegionOk(h[i]) && RegionHeld(m, h[i]);
      NoCommonPage(h[i], r);
    }
  }

  /** The headers of a fresh region represent it and disturb no other. */
  lemma InitRegionRep(rm: Regions, rm': Regions, bm: Blocks, bm': Blocks, e: Ends, h: seq<Region>,
                      region: nat, pages: nat, contiguous: bool)
    requires region > 0 && pages > 0 && HeapRep.HeapRep(rm, bm, e, h)
    requires Tiled(h + [NewRegion(region, pages, contiguous)])
    requires rm' == Regions(rm.links.SetNext(region, 0).SetPrev(region, 0), rm.size[region := pages * PAGE],
                            rm.flags[region := if contiguous then CONTIGUOUS else 0],
                            rm.head[region := region + REGION], rm.tail[region := region + REGION])
    requires bm' == Blocks(bm.links.SetNext(region + REGION, 0).SetPrev(region + REGION, 0),
                           bm.size[region + REGION := pages * PAGE - REGION - HEADER], bm.flags[region + REGION := 0])
    ensures HeapRep.HeapRep(rm', bm', e, h) && region !in Bases(h)
    ensures RegionRep(rm', bm', NewRegion(region, pages, contiguous))
  {
    var r := NewRegion(region, pages, contiguous);
    NewRegionRep(rm', bm', r);
    SameElsewhere(bm, bm', region + REGION, region, region + pages * PAGE);
    RegionWritten(rm, rm', region);
    FreshRegion(rm, rm', bm, bm', e, h, r);
  }

  lemma RegionWritten(rm: Regions, rm': Regions, region: nat)
    requires rm' == Regions(rm.links.SetNext(region, 0).SetPrev(region, 0), rm.size[region := Get(rm'.size, region)],
                            rm.flags[region := Get(rm'.flags, region)],
                            rm.head[region := Get(rm'.head, region)], rm.tail[region := Get(rm'.tail, region)])
    ensures OnlyRegion(rm, rm', region)
  {
  }

  lemma SameElsewhere(bm: Blocks, bm': Blocks, block: nat, from: nat, end: nat)
    requires from <= block < end
    requires bm' == Blocks(bm.links.SetNext(block, 0).SetPrev(block, 0), bm'.size, bm'.flags)
    requires forall a :: a != block ==> Get(bm'.size, a) == Get(bm.size, a) && Get(bm'.flags, a) == Get(bm.flags, a)
    ensures BlocksSameOutside(bm, bm', from, end)
  {
  }

  lemma NewRegionRep(rm: Regions, bm: Blocks, r: Region)
    requires |r.blocks| == 1 && r.blocks[0].addr != 0 && !r.blocks[0].used
    requires Get(rm.size, r.base) == r.size && Get(rm.flags, r.base) == if r.contiguous then CONTIGUOUS else 0
    requires rm.EndsOf(r.base) == Ends(r.blocks[0].addr, r.blocks[0].addr)
    requires Get(bm.size, r.blocks[0].addr) == r.blocks[0].size && Get(bm.flags, r.blocks[0].addr) == 0
    requires bm.links.Next(r.blocks[0].addr) == 0 && bm.links.Prev(r.blocks[0].addr) == 0
    ensures RegionRep(rm, bm, r)
  {
    assert Addrs(r.blocks) == [r.blocks[0].addr];
    LinkedIntro(bm.links, rm.EndsOf(r.base), Addrs(r.blocks));
  }
}

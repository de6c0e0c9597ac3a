/** Live allocations of the kernel heap: where they lie, what an allocation or
    a release does to the others, and that a release undoes an allocation. */
module HeapLive {
  import opened Words
  import opened Frames
  import opened Layout
  import opened KernelHeap

  ghost predicate LiveIn(h: seq<Region>, i: nat, b: Block)
  {
    i < |h| && b in h[i].blocks && b.used
  }

  /** The blocks handed out and not yet released. */
  ghost function Live(h: seq<Region>): set<Block>
  {
    set i, b | 0 <= i < |h| && b in h[i].blocks && b.used :: b
  }

  lemma LiveWhere(h: seq<Region>, b: Block) returns (i: nat)
    requires b in Live(h)
    ensures LiveIn(h, i, b)
  {
    i :| 0 <= i < |h| && b in h[i].blocks && b.used;
  }

  lemma ApartEither(h: seq<Region>, i: nat, k: nat)
    requires AllApart(h) && i < |h| && k < |h| && i != k
    ensures Apart(h[i], h[k])
  {
    if i < k { assert Apart(h[i], h[k]); } else { assert Apart(h[k], h[i]); }
  }

  /** A block lies inside its region, after the region header. */
  lemma BlockInside(r: Region, b: Block)
    requires RegionOk(r) && b in r.blocks
    ensures r.base + REGION <= b.addr && b.End() <= r.base + r.size
    ensures b.addr % 16 == 0 && b.size % 16 == 0 && b.size >= MIN_BLOCK
  {
    var j :| 0 <= j < |r.blocks| && r.blocks[j] == b;
    TilesAt(r.blocks, r.base + REGION, r.base + r.size, j);
    StartAligned(r.base);
    AddressAligned(r.blocks, r.base + REGION, r.base + r.size, j);
  }

  lemma StartAligned(base: nat)
    requires base % PAGE == 0
    ensures (base + REGION) % 16 == 0
  {
    var k := 256 * (base / PAGE) + 2;
    assert base + REGION == 16 * k;
    assert 16 * k % 16 == 0;
  }

  lemma PtrAligned(b: Block)
    requires b.addr % 16 == 0
    ensures b.Ptr() % 16 == 0
  {
  }

  lemma {:induction false} AddressAligned(bs: seq<Block>, start: nat, end: nat, j: nat)
    requires Tiles(bs, start, end) && Sized(bs) && start % 16 == 0 && j < |bs|
    ensures bs[j].addr % 16 == 0
  {
    if j > 0 {
      assert bs[0] in bs;
      forall b | b in bs[1..] ensures b in bs { }
      AddressAligned(bs[1..], bs[0].End(), end, j - 1);
    }
  }

  /** Live allocations are 16-aligned and disjoint from every other block, used or
      free, headers included, and from every region header. */
  lemma LiveDisjoint(s: Sys, a: Block, b: Block, k: nat)
    requires SysInv(s) && a in Live(s.heap) && k < |s.heap| && b in s.heap[k].blocks
    ensures a.Ptr() % 16 == 0
    ensures a != b ==> a.End() <= b.addr || b.End() <= a.addr
    ensures forall k :: 0 <= k < |s.heap| ==> a.End() <= s.heap[k].base || s.heap[k].base + REGION <= a.addr
  {
    var i := LiveWhere(s.heap, a);
    assert RegionOk(s.heap[i]);
    BlockInside(s.heap[i], a);
    PtrAligned(a);
    if a != b { LiveApart(s, a, b, k); }
    forall n | 0 <= n < |s.heap| ensures a.End() <= s.heap[n].base || s.heap[n].base + REGION <= a.addr {
      ClearOfHeader(s, i, a, n);
    }
  }

  lemma LiveApart(s: Sys, a: Block, b: Block, k: nat)
    requires SysInv(s) && a in Live(s.heap) && k < |s.heap| && b in s.heap[k].blocks && a != b
    ensures a.End() <= b.addr || b.End() <= a.addr
  {
    var i := LiveWhere(s.heap, a);
    assert RegionOk(s.heap[i]) && RegionOk(s.heap[k]);
    if i == k {
      UsedDisjoint(s.heap[i].blocks, s.heap[i].base + REGION, s.heap[i].base + s.heap[i].size, a, b);
    } else {
      BlockInside(s.heap[i], a);
      BlockInside(s.heap[k], b);
      ApartEither(s.heap, i, k);
    }
  }

  lemma ClearOfHeader(s: Sys, i: nat, a: Block, n: nat)
    requires SysInv(s) && i < |s.heap| && a in s.heap[i].blocks && n < |s.heap|
    ensures a.End() <= s.heap[n].base || s.heap[n].base + REGION <= a.addr
  {
    assert RegionOk(s.heap[n]) && RegionOk(s.heap[i]);
    BlockInside(s.heap[i], a);
    if n != i {
      RegionLarge(s.heap[n]);
      ApartEither(s.heap, i, n);
    }
  }

  lemma RegionLarge(r: Region)
    requires RegionOk(r)
    ensures r.size > REGION
  {
    TilesForward(r.blocks, r.base + REGION, r.base + r.size);
  }

  // ---- how the live set changes ----

  lemma LiveUpdate(h: seq<Region>, i: nat, r: Region, b: Block)
    requires i < |h| && UsedBlocks(r.blocks) == UsedBlocks(h[i].blocks) + {b}
    ensures Live(h[i := r]) == Live(h) + {b}
  {
    var g := h[i := r];
    forall c | c in Live(g) ensures c in Live(h) + {b} {
      var k := LiveWhere(g, c);
      if k == i { assert c in UsedBlocks(r.blocks); }
      else { assert h[k] == g[k]; }
    }
    forall c | c in Live(h) + {b} ensures c in Live(g) {
      if c == b {
        assert b in UsedBlocks(r.blocks);
        assert b in g[i].blocks && b.used;
      } else {
        var k := LiveWhere(h, c);
        if k == i { assert c in UsedBlocks(r.blocks); assert c in g[i].blocks; } else { assert g[k] == h[k]; }
      }
    }
  }

  lemma LiveAppend(h: seq<Region>, r: Region, b: Block)
    requires UsedBlocks(r.blocks) == {b}
    ensures Live(h + [r]) == Live(h) + {b}
  {
    var g := h + [r];
    forall c | c in Live(g) ensures c in Live(h) + {b} {
      var k := LiveWhere(g, c);
      if k == |h| { assert c in UsedBlocks(r.blocks); }
      else { assert h[k] == g[k]; }
    }
    forall c | c in Live(h) + {b} ensures c in Live(g) {
      if c == b {
        assert b in UsedBlocks(r.blocks);
        assert b in g[|h|].blocks && b.used;
      } else {
        var k := LiveWhere(h, c);
        assert g[k] == h[k];
      }
    }
  }

  /** Blocks of the heap that start at the same address are the same block. */
  lemma SameStart(s: Sys, i: nat, k: nat, a: Block, b: Block)
    requires HeapOk(s.mem, s.heap) && i < |s.heap| && k < |s.heap|
    requires a in s.heap[i].blocks && b in s.heap[k].blocks && a.addr == b.addr
    ensures i == k && a == b
  {
    assert RegionOk(s.heap[i]) && RegionOk(s.heap[k]);
    if i != k { ApartEither(s.heap, i, k); }
    BlockInside(s.heap[i], a);
    BlockInside(s.heap[k], b);
    if i == k && a != b {
      UsedDisjoint(s.heap[i].blocks, s.heap[i].base + REGION, s.heap[i].base + s.heap[i].size, a, b);
    }
  }

  /** `b` of region `i` has been handed out as `ptr`: at least `size` bytes at an
      aligned address, in a region of the requested kind, and it is the only
      change to the live set. */
  ghost predicate HandedOut(h: seq<Region>, g: seq<Region>, ptr: nat, size: nat, contiguous: bool, i: nat, b: Block)
  {
    && LiveIn(g, i, b) && g[i].contiguous == contiguous
    && b.Ptr() == ptr && b.size >= size && ptr % 16 == 0
    && b !in Live(h) && Live(g) == Live(h) + {b}
  }

  /** From an existing free block. */
  lemma TakeLive(s: Sys, k: nat, j: nat, n: nat)
    requires SysInv(s) && k < |s.heap| && j < |s.heap[k].blocks| && !s.heap[k].blocks[j].used
    requires n <= s.heap[k].blocks[j].size && n % 16 == 0 && n >= MIN_BLOCK
    ensures var r := s.heap[k];
      HandedOut(s.heap, s.heap[k := TakeIn(r, j, n)], r.blocks[j].Ptr(), n, r.contiguous, k, Taken(r.blocks[j], n))
  {
    var r := s.heap[k];
    var b := Taken(r.blocks[j], n);
    TakeUsed(r.blocks, j, n);
    LiveUpdate(s.heap, k, TakeIn(r, j, n), b);
    assert b in UsedBlocks(TakeIn(r, j, n).blocks);
    TakenNew(s, k, j, n);
  }

  /** The block cut off is not live yet, and aligned. */
  lemma TakenNew(s: Sys, k: nat, j: nat, n: nat)
    requires SysInv(s) && k < |s.heap| && j < |s.heap[k].blocks| && !s.heap[k].blocks[j].used
    ensures Taken(s.heap[k].blocks[j], n) !in Live(s.heap) && s.heap[k].blocks[j].Ptr() % 16 == 0
  {
    var r := s.heap[k];
    var b := Taken(r.blocks[j], n);
    assert RegionOk(r);
    BlockInside(r, r.blocks[j]);
    PtrAligned(r.blocks[j]);
    if b in Live(s.heap) {
      var i := LiveWhere(s.heap, b);
      SameStart(s, i, k, b, r.blocks[j]);
    }
  }

  /** From a region just grown. */
  lemma GrowLive(s: Sys, size: Word, contiguous: bool)
    requires SysInv(s) && 0 < size <= MAX_REQUEST
    ensures var (t, ptr) := Grow(s, Align16(size), contiguous);
      && (ptr == 0 ==> t.heap == s.heap)
      && (ptr != 0 ==> t.heap != [] && HandedOut(s.heap, t.heap, ptr, size, contiguous, |s.heap|,
            Taken(NewRegion(t.heap[|t.heap| - 1].base, GrowPages(Align16(size)), contiguous).blocks[0], Align16(size))))
  {
    var n, pages := Align16(size), GrowPages(Align16(size));
    GrowFits(size);
    var (mem, base) := Obtain(s.mem, pages, contiguous);
    if base != 0 {
      GrownRegion(s.mem, size, contiguous);
      GrowInv(s, size, contiguous);
      GrownLive(s, Sys(mem, s.heap + [TakeIn(NewRegion(base, pages, contiguous), 0, n)]), base, pages, contiguous, n);
    }
  }

  lemma GrownLive(s: Sys, t: Sys, base: nat, pages: nat, contiguous: bool, n: nat)
    requires pages > 0 && pages * PAGE >= n + REGION + HEADER
    requires t.heap == s.heap + [TakeIn(NewRegion(base, pages, contiguous), 0, n)] && SysInv(t)
    ensures HandedOut(s.heap, t.heap, base + REGION + HEADER, n, contiguous, |s.heap|,
                      Taken(NewRegion(base, pages, contiguous).blocks[0], n))
  {
    var r := NewRegion(base, pages, contiguous);
    var b := Taken(r.blocks[0], n);
    TakeUsed(r.blocks, 0, n);
    assert UsedBlocks(r.blocks) == {};
    LiveAppend(s.heap, TakeIn(r, 0, n), b);
    assert t.heap[|s.heap|] == TakeIn(r, 0, n) && b in UsedBlocks(t.heap[|s.heap|].blocks);
    GrownNew(s, t, b);
  }

  /** A block of the last region is in no other region. */
  lemma GrownNew(s: Sys, t: Sys, b: Block)
    requires SysInv(t) && |t.heap| == |s.heap| + 1 && t.heap[..|s.heap|] == s.heap && b in t.heap[|s.heap|].blocks
    ensures b !in Live(s.heap) && b.Ptr() % 16 == 0
  {
    assert RegionOk(t.heap[|s.heap|]);
    BlockInside(t.heap[|s.heap|], b);
    PtrAligned(b);
    if b in Live(s.heap) {
      var k := LiveWhere(s.heap, b);
      assert t.heap[k] == t.heap[..|s.heap|][k];
      SameStart(t, k, |s.heap|, b, b);
    }
  }

  /** An allocation hands out one new block and changes no other; a failed one
      changes no region at all. */
  lemma AllocLive(s: Sys, size: Word, contiguous: bool) returns (i: nat, b: Block)
    requires SysInv(s) && size <= MAX_REQUEST
    ensures var (t, ptr) := HeapAlloc(s, size, contiguous);
      && (ptr == 0 ==> t.heap == s.heap)
      && (ptr != 0 ==> HandedOut(s.heap, t.heap, ptr, size, contiguous, i, b))
  {
    i, b := 0, Block(0, 0, false);
    if size > 0 {
      var n := Align16(size);
      GrowFits(size);
      match FindFree(s.heap, n, contiguous, 0)
      case Some((k, j)) =>
        i, b := k, Taken(s.heap[k].blocks[j], n);
        TakeLive(s, k, j, n);
      case None =>
        GrowLive(s, size, contiguous);
        var t := Grow(s, n, contiguous).0;
        if Grow(s, n, contiguous).1 != 0 {
          i, b := |s.heap|, Taken(NewRegion(t.heap[|t.heap| - 1].base, GrowPages(n), contiguous).blocks[0], n);
        }
    }
  }

  // ---- release ----

  lemma LiveShrink(h: seq<Region>, i: nat, r: Region, b: Block)
    requires i < |h| && b in h[i].blocks && b.used && UsedBlocks(r.blocks) == UsedBlocks(h[i].blocks) - {b}
    requires forall k :: 0 <= k < |h| && k != i ==> b !in h[k].blocks
    ensures Live(h[i := r]) == Live(h) - {b}
  {
    var g := h[i := r];
    forall c | c in Live(g) ensures c in Live(h) - {b} {
      var k := LiveWhere(g, c);
      if k == i { assert c in UsedBlocks(r.blocks); } else { assert h[k] == g[k]; }
    }
    forall c | c in Live(h) - {b} ensures c in Live(g) {
      var k := LiveWhere(h, c);
      if k == i { assert c in UsedBlocks(r.blocks); assert c in g[i].blocks; } else { assert g[k] == h[k]; }
    }
  }

  lemma LiveRemove(h: seq<Region>, i: nat, b: Block)
    requires i < |h| && UsedBlocks(h[i].blocks) == {b}
    requires forall k :: 0 <= k < |h| && k != i ==> b !in h[k].blocks
    ensures Live(h[..i] + h[i + 1..]) == Live(h) - {b}
  {
    var g := h[..i] + h[i + 1..];
    assert b in UsedBlocks(h[i].blocks);
    forall c | c in Live(g) ensures c in Live(h) - {b} {
      var k := LiveWhere(g, c);
      assert g[k] == h[if k < i then k else k + 1];
    }
    forall c | c in Live(h) - {b} ensures c in Live(g) {
      var k := LiveWhere(h, c);
      assert c in UsedBlocks(h[k].blocks);
      if k != i { assert h[k] == g[if k < i then k else k - 1]; }
    }
  }

  /** A block is found again by its pointer. */
  lemma FindLive(s: Sys, b: Block)
    requires SysInv(s) && b in Live(s.heap)
    ensures FindPtr(s.heap, b.Ptr(), 0).Some?
    ensures var (i, j) := FindPtr(s.heap, b.Ptr(), 0).value; s.heap[i].blocks[j] == b
  {
    var k := LiveWhere(s.heap, b);
    var (i, j) := FindPtr(s.heap, b.Ptr(), 0).value;
    SameStart(s, i, k, s.heap[i].blocks[j], b);
  }

  /** `heap_free` of a live pointer removes that block and changes no other live
      block; of anything else it changes nothing. */
  lemma FreeLive(s: Sys, ptr: nat)
    requires SysInv(s)
    ensures forall b :: b in Live(s.heap) && b.Ptr() == ptr ==> Live(HeapFree(s, ptr).heap) == Live(s.heap) - {b}
    ensures (forall b :: b in Live(s.heap) ==> b.Ptr() != ptr) ==> HeapFree(s, ptr) == s
  {
    forall b | b in Live(s.heap) && b.Ptr() == ptr ensures Live(HeapFree(s, ptr).heap) == Live(s.heap) - {b} {
      FreeLiveBlock(s, b);
    }
    if ptr != 0 && FindPtr(s.heap, ptr, 0).Some? {
      var (i, j) := FindPtr(s.heap, ptr, 0).value;
      var b := s.heap[i].blocks[j];
      if b.used { assert b in Live(s.heap); }
    }
  }

  lemma FreeLiveBlock(s: Sys, b: Block)
    requires SysInv(s) && b in Live(s.heap)
    ensures Live(HeapFree(s, b.Ptr()).heap) == Live(s.heap) - {b}
  {
    FindLive(s, b);
    var (i, j) := FindPtr(s.heap, b.Ptr(), 0).value;
    OnlyThere(s, i, b);
    RegionGive(s.heap[i], j);
    var bs := Give(s.heap[i].blocks, j);
    if |bs| == 1 {
      GiveSingle(s.heap[i].blocks, j);
      LiveRemove(s.heap, i, b);
    } else {
      LiveShrink(s.heap, i, s.heap[i].(blocks := bs), b);
    }
  }

  lemma OnlyThere(s: Sys, i: nat, b: Block)
    requires HeapOk(s.mem, s.heap) && i < |s.heap| && b in s.heap[i].blocks
    ensures forall k :: 0 <= k < |s.heap| && k != i ==> b !in s.heap[k].blocks
  {
    forall k | 0 <= k < |s.heap| && k != i ensures b !in s.heap[k].blocks {
      if b in s.heap[k].blocks { SameStart(s, i, k, b, b); }
    }
  }

  lemma RegionGive(r: Region, j: nat)
    requires RegionOk(r) && j < |r.blocks| && r.blocks[j].used
    ensures UsedBlocks(Give(r.blocks, j)) == UsedBlocks(r.blocks) - {r.blocks[j]}
  {
    GiveUsed(r.blocks, r.base + REGION, r.base + r.size, j);
  }

  /** When one block remains it is the released one, so nothing else was used. */
  lemma GiveSingle(bs: seq<Block>, j: nat)
    requires j < |bs| && bs[j].used && |Give(bs, j)| == 1
    ensures UsedBlocks(bs) == {bs[j]}
  {
    var merged := Absorb(bs[j := bs[j].(used := false)], j);
    assert |bs| <= 3;
    forall k | 0 <= k < |bs| && k != j ensures !bs[k].used { }
    forall b | b in UsedBlocks(bs) ensures b == bs[j] {
      var k :| 0 <= k < |bs| && bs[k] == b;
    }
  }
}

/** One owner per frame: every operation of the virtual page allocator keeps
    `Owned`, and what each leaves of the pool, the bitmap and the counters. */
module Ownership {
  import opened Words
  import opened Runs
  import opened Frames
  import opened PageWalk
  import opened Memory
  import opened Backing

  /** `r` is `g` with the pages from `v` on, unmapped before, mapped as well. */
  ghost predicate Extends(g: map<nat, nat>, r: map<nat, nat>, v: nat, count: nat)
  {
    && (forall k :: v <= k < v + count ==> k !in g)
    && (forall k :: k in r <==> k in g || v <= k < v + count)
    && (forall k :: k in g ==> r[k] == g[k])
  }

  /** The frames behind the new pages: held by the pool, mapped nowhere else,
      and all different. */
  ghost predicate NewFrames(p: Pool, g: map<nat, nat>, r: map<nat, nat>, v: nat, count: nat)
    requires forall k :: v <= k < v + count ==> k in r
  {
    && (forall k :: v <= k < v + count ==> FrameUsed(p, FrameOf(r[k])) && FrameOf(r[k]) != 0)
    && (forall k, w :: v <= k < v + count && w in g ==> FrameOf(r[k]) != FrameOf(g[w]))
    && (forall k, w :: v <= k < v + count && v <= w < v + count && k != w ==> FrameOf(r[k]) != FrameOf(r[w]))
  }

  ghost predicate PoolGrows(p: Pool, q: Pool)
  {
    |q.used| == |p.used| && forall f :: 0 <= f < |p.used| && p.used[f] ==> q.used[f]
  }

  /** Mapping fresh pages to frames nobody maps keeps the frames owned. */
  lemma OwnedAfterMapping(m: Mem, r: Mem, v: nat, count: nat)
    requires OneOwner(m.pages) && FramesHeld(m.pool, m.pages) && PoolGrows(m.pool, r.pool)
    requires Extends(m.pages, r.pages, v, count) && NewFrames(r.pool, m.pages, r.pages, v, count)
    ensures OneOwner(r.pages) && FramesHeld(r.pool, r.pages)
  {
    forall k | k in r.pages ensures FrameUsed(r.pool, FrameOf(r.pages[k])) && FrameOf(r.pages[k]) != 0 {
      if k in m.pages { assert FrameUsed(m.pool, FrameOf(m.pages[k])); }
    }
    forall k, w | k in r.pages && w in r.pages && k != w ensures FrameOf(r.pages[k]) != FrameOf(r.pages[w]) {
      if k in m.pages && w in m.pages { assert FrameOf(m.pages[k]) != FrameOf(m.pages[w]); }
    }
  }

  /** The reservation covers the new pages. */
  lemma BitsAfterMapping(m: Mem, s: Space, pages: map<nat, nat>, v: nat, count: nat)
    requires BitsHeld(m.space, m.pages) && Extends(m.pages, pages, v, count)
    requires s.base == m.space.base <= v && s.used == SetRange(m.space.used, v - s.base, count, true)
    ensures BitsHeld(s, pages)
  {
    forall k | k in pages && InRange(s, k) ensures s.used[k - s.base] {
      if k in m.pages { assert m.space.used[k - s.base]; }
    }
  }

  /** Removing pages, and with them at most their own VMM bits, keeps ownership. */
  lemma OwnedAfterUnmapping(m: Mem, s: Space, v: nat, count: nat)
    requires Owned(m) && s.base == m.space.base && |s.used| == |m.space.used| && SpaceOk(s)
    requires forall k: nat :: InRange(s, k) && !(v <= k < v + count) && m.space.used[k - s.base] ==> s.used[k - s.base]
    ensures Owned(m.(space := s, pages := UnmapRange(m.pages, v, count)))
  {
    UnmapRangeIs(m.pages, v, count);
  }

  // ---- vmm_alloc ----

  /** `vmm_alloc`: on success the lowest free run of virtual pages, each backed
      by a frame of its own that was free; on failure, from whatever iteration,
      the pool's bits and counters and the whole page map are untouched. */
  lemma AllocBacking(m: Mem, count: nat) returns (fs: seq<nat>)
    requires Owned(m)
    ensures var (r, virt) := Memory.Alloc(m, count);
      && Fresh(m.pool.used, fs)
      && (virt == 0 ==> SamePool(m.pool, r.pool) && r.pages == m.pages)
      && (virt != 0 ==>
            var v := virt / PAGE;
            && virt == v * PAGE && |fs| == count > 0 && m.space.base <= v
            && FreeRun(m.space.used, v - m.space.base, count)
            && r.space == Reserve(m.space, count).0
            && r.space.used == SetRange(m.space.used, v - m.space.base, count, true)
            && PoolInv(r.pool) && r.pool.used == MarkAll(m.pool.used, fs)
            && r.pages == MapAll(m.pages, v, fs))
  {
    fs := [];
    ReserveFresh(m, count);
    var (space, virt) := Reserve(m.space, count);
    if virt != 0 {
      fs := BackOutcome(m.(space := space), virt / PAGE, count);
    }
  }

  /** `vmm_alloc` fails exactly when the reservation does or fewer than `count`
      frames are free. In the second case the bits of the pages that had been
      backed are cleared again; the other bits stay set. */
  lemma AllocFailing(m: Mem, count: nat)
    requires Owned(m)
    ensures var (r, virt) := Memory.Alloc(m, count);
      var (s, start) := Reserve(m.space, count);
      && (virt == 0 <==> start == 0 || CountFree(m.pool.used) < count)
      && (start == 0 ==> r.space == s)
      && (start != 0 && virt == 0 ==>
            r.space == s.(used := SetRange(s.used, start / PAGE - s.base, CountFree(m.pool.used), false)))
  {
    ReserveFresh(m, count);
    var (s, start) := Reserve(m.space, count);
    if start != 0 {
      var fs := BackOutcome(m.(space := s), start / PAGE, count);
      CountMarked(m.pool.used, fs);
    }
  }

  /** The counters keep the reservation of a rolled-back `vmm_alloc`: the gap
      between clear bits and `free_pages` grows by the pages rolled back. */
  lemma AllocFailureDrift(m: Mem, count: nat)
    requires Owned(m) && m.space.free < WORD
    requires Reserve(m.space, count).1 != 0 && CountFree(m.pool.used) < count
    ensures var r := Memory.Alloc(m, count).0;
      && r.space.free == m.space.free - count
      && CountFree(r.space.used) - r.space.free == CountFree(m.space.used) - m.space.free + CountFree(m.pool.used)
  {
    AllocFailing(m, count);
    ReserveFresh(m, count);
    var (s, start) := Reserve(m.space, count);
    Drift(m.space, s, start / PAGE - s.base, count, CountFree(m.pool.used));
  }

  /** Reserving `count` pages and clearing the bits of `n` of them again. */
  lemma Drift(m: Space, s: Space, q: nat, count: nat, n: nat)
    requires FreeRun(m.used, q, count) && n <= count <= m.free < WORD
    requires s.used == SetRange(m.used, q, count, true) && s.free == Minus(m.free, count)
    ensures var r := s.(used := SetRange(s.used, q, n, false));
      r.free == m.free - count && CountFree(r.used) - r.free == CountFree(m.used) - m.free + n
  {
    PartlyCounted(m.used, q, count, n);
    SmallMinus(m.free, count);
  }

  lemma SmallMinus(x: nat, c: nat)
    requires c <= x < WORD
    ensures Minus(x, c) == x - c
  {
  }

  lemma PartlyCounted(used: seq<bool>, q: nat, count: nat, n: nat)
    requires FreeRun(used, q, count) && n <= count
    ensures CountFree(SetRange(SetRange(used, q, count, true), q, n, false)) == CountFree(used) - count + n
  {
    CountFreeRange(used, q, count, true);
    CountFreeRange(SetRange(used, q, count, true), q, n, false);
  }

  /** Frames from `fs`, fresh in the pool, are mapped nowhere yet. */
  lemma FreshFramesAreNew(p: Pool, q: Pool, g: map<nat, nat>, v: nat, fs: seq<nat>)
    requires FramesHeld(p, g) && Fresh(p.used, fs) && |p.used| < FRAMES
    requires q.used == MarkAll(p.used, fs)
    requires forall k :: v <= k < v + |fs| ==> k !in g
    ensures PoolGrows(p, q) && Extends(g, MapAll(g, v, fs), v, |fs|)
    ensures NewFrames(q, g, MapAll(g, v, fs), v, |fs|)
  {
    FreshIs(p.used, fs);
    MarkAllIs(p.used, fs);
    MapAllFrames(g, v, fs);
    var r := MapAll(g, v, fs);
    forall k | v <= k < v + |fs|
      ensures FrameUsed(q, FrameOf(r[k])) && FrameOf(r[k]) != 0
    {
      assert FrameOf(r[k]) == fs[k - v] && fs[k - v] in fs;
    }
    forall k, w | v <= k < v + |fs| && w in g ensures FrameOf(r[k]) != FrameOf(g[w]) {
      assert FrameUsed(p, FrameOf(g[w])) && !p.used[fs[k - v]];
    }
  }

  lemma AllocOwned(m: Mem, count: nat)
    requires Owned(m)
    ensures Owned(Memory.Alloc(m, count).0)
  {
    var fs := AllocBacking(m, count);
    var (r, virt) := Memory.Alloc(m, count);
    ReserveFresh(m, count);
    if virt != 0 {
      FreshFramesAreNew(m.pool, r.pool, m.pages, virt / PAGE, fs);
      OwnedAfterMapping(m, r, virt / PAGE, count);
      BitsAfterMapping(m, r.space, r.pages, virt / PAGE, count);
    } else {
      AllocFailOwned(m, count);
    }
  }

  lemma AllocFailOwned(m: Mem, count: nat)
    requires Owned(m) && Memory.Alloc(m, count).1 == 0
    ensures Owned(Memory.Alloc(m, count).0)
  {
    var fs := AllocBacking(m, count);
    AllocFailing(m, count);
    ReserveFresh(m, count);
    var (s, start) := Reserve(m.space, count);
    if start != 0 {
      PartlyUndone(m.space.used, start / PAGE - s.base, count, CountFree(m.pool.used));
    }
    BitsKept(m.space, Memory.Alloc(m, count).0.space, m.pages);
  }

  /** Setting further bits keeps the ones mapped pages need. */
  lemma BitsKept(s: Space, t: Space, pages: map<nat, nat>)
    requires BitsHeld(s, pages) && SpaceOk(s) && t.base == s.base && |t.used| == |s.used|
    requires forall k :: 0 <= k < |s.used| ==> (s.used[k] ==> t.used[k])
    ensures BitsHeld(t, pages) && SpaceOk(t)
  {
  }

  // ---- vmm_alloc_contiguous and mmap ----

  /** `vmm_alloc_contiguous`: on success one run of virtual pages onto one run
      of frames that were free; on failure the page map and the pool's bits and
      counters are untouched, and a reservation already made is kept. */
  lemma ContiguousBacking(m: Mem, count: nat)
    requires Owned(m)
    ensures var (r, virt) := AllocContiguous(m, count);
      && r.space == Reserve(m.space, count).0
      && (virt == 0 ==> SamePool(m.pool, r.pool) && r.pages == m.pages)
      && (virt != 0 ==>
            var v, f := virt / PAGE, Frames.Alloc(m.pool, count).1 / PAGE;
            && virt == v * PAGE && m.space.base <= v && count > 0
            && FreeRun(m.space.used, v - m.space.base, count)
            && r.space.used == SetRange(m.space.used, v - m.space.base, count, true)
            && f > 0 && FreeRun(m.pool.used, f, count)
            && PoolInv(r.pool) && r.pool.used == SetRange(m.pool.used, f, count, true)
            && r.pages == MapRange(m.pages, v, f, RW, count))
  {
    ReserveFresh(m, count);
    AllocGivesRun(m.pool, count);
  }

  lemma MapRangeFrames(g: map<nat, nat>, v: nat, f: nat, flags: nat, count: nat)
    requires f + count <= FRAMES
    ensures var r := MapRange(g, v, f, flags, count);
      && (forall k :: k in r <==> k in g || v <= k < v + count)
      && (forall k :: k in g && !(v <= k < v + count) ==> r[k] == g[k])
      && (forall k :: v <= k < v + count ==> FrameOf(r[k]) == f + (k - v))
  {
    MapRangeIs(g, v, f, flags, count);
    forall k | v <= k < v + count ensures FrameOf(MapRange(g, v, f, flags, count)[k]) == f + (k - v) {
      MapRangeAt(g, v, f, flags, count, k);
      PteFrame(f + (k - v), flags);
    }
  }

  /** Consecutive frames that the pool holds and nobody maps. */
  lemma RunOfFramesIsNew(p: Pool, g: map<nat, nat>, v: nat, f: nat, flags: nat, count: nat)
    requires f > 0 && f + count <= FRAMES
    requires forall k :: v <= k < v + count ==> k !in g
    requires forall i :: f <= i < f + count ==> FrameUsed(p, i)
    requires forall w :: w in g ==> !(f <= FrameOf(g[w]) < f + count)
    ensures Extends(g, MapRange(g, v, f, flags, count), v, count)
    ensures NewFrames(p, g, MapRange(g, v, f, flags, count), v, count)
  {
    MapRangeFrames(g, v, f, flags, count);
  }

  /** Nobody maps a free frame. */
  lemma FreeFramesUnmapped(m: Mem, f: nat, count: nat)
    requires FramesHeld(m.pool, m.pages) && FreeRun(m.pool.used, f, count)
    ensures forall w :: w in m.pages ==> !(f <= FrameOf(m.pages[w]) < f + count)
  {
    forall w | w in m.pages ensures !(f <= FrameOf(m.pages[w]) < f + count) {
      assert FrameUsed(m.pool, FrameOf(m.pages[w]));
    }
  }

  lemma AllocContiguousOwned(m: Mem, count: nat)
    requires Owned(m)
    ensures Owned(AllocContiguous(m, count).0)
  {
    ContiguousBacking(m, count);
    ReserveFresh(m, count);
    var (r, virt) := AllocContiguous(m, count);
    if virt != 0 {
      var v, f := virt / PAGE, Frames.Alloc(m.pool, count).1 / PAGE;
      FreeFramesUnmapped(m, f, count);
      RunOfFramesIsNew(r.pool, m.pages, v, f, RW, count);
      OwnedAfterMapping(m, r, v, count);
      BitsAfterMapping(m, r.space, r.pages, v, count);
    } else {
      BitsKept(m.space, r.space, m.pages);
    }
  }

  /** What `mmap` is limited to: frames that are used, not 0, and mapped nowhere. */
  ghost predicate MayMap(m: Mem, phys: nat, count: nat)
  {
    var f := phys / PAGE;
    && f > 0 && f + count <= FRAMES
    && (forall i :: f <= i < f + count ==> FrameUsed(m.pool, i))
    && (forall w :: w in m.pages ==> !(f <= FrameOf(m.pages[w]) < f + count))
  }

  lemma MmapOwned(m: Mem, phys: nat, length: Word, flags: nat)
    requires Owned(m) && MayMap(m, phys, PageCount(length))
    ensures Owned(Mmap(m, phys, length, flags).0)
  {
    var count := PageCount(length);
    ReserveFresh(m, count);
    var (r, virt) := Mmap(m, phys, length, flags);
    if virt != 0 {
      RunOfFramesIsNew(m.pool, m.pages, virt / PAGE, phys / PAGE, flags, count);
      OwnedAfterMapping(m, r, virt / PAGE, count);
      BitsAfterMapping(m, r.space, r.pages, virt / PAGE, count);
    } else {
      BitsKept(m.space, r.space, m.pages);
    }
  }

  // ---- vmm_free and munmap ----

  /** After the unmapping there is nothing left to look up: `vmm_free` never
      returns a frame to the pool, whatever it is given. */
  lemma {:induction false} NoBackingLeft(pool: Pool, pages: map<nat, nat>, virt: nat, n: nat, count: nat)
    requires n <= count
    ensures FreeBacking(pool, UnmapRange(pages, virt / PAGE, count), virt, n) == pool
    decreases n
  {
    if n > 0 {
      NoBackingLeft(pool, pages, virt, n - 1, count);
      UnmapRangeIs(pages, virt / PAGE, count);
      AddPages(virt, n - 1);
    }
  }

  lemma FreeKeepsFrames(m: Mem, virt: nat, count: nat)
    ensures Memory.Free(m, virt, count).pool == m.pool
  {
    NoBackingLeft(m.pool, m.pages, virt, count, count);
  }

  /** What `vmm_unreserve` leaves: the bits of all pages it does not cover. */
  lemma UnreserveShape(s: Space, virt: nat, count: nat)
    ensures var t := Unreserve(s, virt, count);
      && t.base == s.base && |t.used| == |s.used|
      && forall k: nat :: InRange(s, k) && !Covers(virt / PAGE, count, k) && s.used[k - s.base] ==> t.used[k - s.base]
  {
  }

  /** Page 0 of a VMM that starts at address 0 cannot be given back by a range
      that does not wrap: its address is NULL. */
  lemma UnreserveSpaceOk(s: Space, virt: nat, count: nat)
    requires SpaceOk(s) && virt / PAGE + count <= WINDOW
    ensures SpaceOk(Unreserve(s, virt, count))
    ensures forall k: nat :: InRange(s, k) && !(virt / PAGE <= k < virt / PAGE + count) && s.used[k - s.base] ==>
      Unreserve(s, virt, count).used[k - s.base]
  {
    if Accepts(s, virt, count) { UnreservePlain(s, virt, count); }
  }

  /** The reserved pages `vmm_unreserve` gives up include no mapped page, and not
      page 0 of a range at address 0. */
  ghost predicate GivesUpUnmapped(m: Mem, virt: nat, count: nat)
  {
    Accepts(m.space, virt, count) ==>
      && (forall v :: v in m.pages && InRange(m.space, v) ==> !Covers(virt / PAGE, count, v))
      && (m.space.base == 0 ==> !Covers(virt / PAGE, count, 0))
  }

  /** `vmm_unreserve` keeps ownership if and only if the pages it covers, counted
      round the end of the address space, are not mapped. */
  lemma UnreserveOwnedIff(m: Mem, virt: nat, count: nat)
    requires Owned(m)
    ensures Owned(m.(space := Unreserve(m.space, virt, count))) <==> GivesUpUnmapped(m, virt, count)
  {
    var t := Unreserve(m.space, virt, count);
    if Accepts(m.space, virt, count) {
      if GivesUpUnmapped(m, virt, count) {
        forall v | v in m.pages && InRange(t, v) ensures t.used[v - t.base] { assert m.space.used[v - t.base]; }
      } else if v :| v in m.pages && InRange(m.space, v) && Covers(virt / PAGE, count, v) {
        assert InRange(t, v) && !t.used[v - t.base];
      } else {
        assert !t.used[0];
      }
    }
  }

  /** `vmm_free` of a range below the window keeps ownership, reserved or not. */
  lemma FreeOwned(m: Mem, virt: nat, count: nat)
    requires Owned(m) && virt / PAGE + count <= WINDOW
    ensures Owned(Memory.Free(m, virt, count))
  {
    FreeKeepsFrames(m, virt, count);
    UnreserveShape(m.space, virt, count);
    UnreserveSpaceOk(m.space, virt, count);
    OwnedAfterUnmapping(m, Unreserve(m.space, virt, count), virt / PAGE, count);
  }

  /** `munmap` likewise. */
  lemma MunmapOwned(m: Mem, virt: nat, length: Word)
    requires Owned(m) && virt / PAGE + PageCount(length) <= WINDOW
    ensures Owned(Munmap(m, virt, length))
  {
    if virt != 0 {
      UnreserveShape(m.space, virt, PageCount(length));
      UnreserveSpaceOk(m.space, virt, PageCount(length));
      OwnedAfterUnmapping(m, Unreserve(m.space, virt, PageCount(length)), virt / PAGE, PageCount(length));
    }
  }

  // ---- vmm_destroy ----

  /** Frame `f` free as well. */
  function WithFree(used: seq<bool>, f: nat): (r: seq<bool>)
  {
    if f < |used| then used[f := false] else used
  }

  /** A mapped page releases its frame and its entry, and nothing else. */
  lemma ReleaseOwned(m: Mem, v: nat)
    requires Owned(m)
    ensures var r := Release(m, v);
      && Owned(r) && r.space == m.space && r.pages == m.pages - {v}
      && r.pool.used == if v in m.pages then WithFree(m.pool.used, FrameOf(m.pages[v])) else m.pool.used
  {
    assert v * PAGE / PAGE == v && v * PAGE % PAGE == 0;
    if v in m.pages {
      var f := FrameOf(m.pages[v]);
      assert FrameUsed(m.pool, f) && f != 0;
      assert f * PAGE / PAGE == f;
      FreeOneInv(m.pool, f * PAGE);
      UnmapRangeIs(m.pages, v, 1);
      assert UnmapRange(m.pages, v, 1) == m.pages - {v};
      ReleasedHeld(m.pool, Frames.Free(m.pool, f * PAGE, 1), m.pages, v);
    } else {
      assert m.pages - {v} == m.pages;
    }
  }

  lemma ReleasedHeld(p: Pool, q: Pool, pages: map<nat, nat>, v: nat)
    requires FramesHeld(p, pages) && OneOwner(pages) && v in pages
    requires q.used == WithFree(p.used, FrameOf(pages[v]))
    ensures FramesHeld(q, pages - {v}) && OneOwner(pages - {v})
  {
    forall w | w in pages - {v} ensures FrameUsed(q, FrameOf(pages[w])) && FrameOf(pages[w]) != 0 {
      assert FrameOf(pages[w]) != FrameOf(pages[v]);
    }
  }

  /** `r` is `m` without the pages from index `k` of the range on: they are
      neither reserved nor mapped. */
  ghost predicate Emptied(m: Mem, r: Mem, k: nat)
  {
    && r.space == m.space.(used := r.space.used) && |r.space.used| == |m.space.used|
    && (forall j :: 0 <= j < |r.space.used| ==> r.space.used[j] == (j < k && m.space.used[j]))
    && (forall v :: v in r.pages <==> v in m.pages && !(m.space.base + k <= v < m.space.base + |m.space.used|))
    && (forall v :: v in r.pages ==> r.pages[v] == m.pages[v])
  }

  /** Some page mapped in `m` and not in `r` had frame `f`. */
  ghost predicate Unmapped(m: Mem, r: Mem, f: nat)
  {
    exists v :: v in m.pages && v !in r.pages && FrameOf(m.pages[v]) == f
  }

  /** The frames free in `r` are those free in `m` and those of pages unmapped. */
  ghost predicate Returned(m: Mem, r: Mem)
  {
    && |r.pool.used| == |m.pool.used|
    && forall f :: 0 <= f < |m.pool.used| ==> (!r.pool.used[f] <==> !m.pool.used[f] || Unmapped(m, r, f))
  }

  /** `vmm_destroy` of a VMM whose range does not start at address 0: afterwards
      no page of the range is reserved or mapped, pages elsewhere keep their
      entries, and the pool has back exactly the frames the range mapped. */
  lemma {:induction false} DestroyOutcome(m: Mem, k: nat)
    requires Owned(m) && m.space.base > 0 && k <= |m.space.used|
    ensures Owned(Destroy(m, k)) && Emptied(m, Destroy(m, k), k) && Returned(m, Destroy(m, k))
    decreases |m.space.used| - k
  {
    if k < |m.space.used| {
      var b := m.space.base;
      var n := DestroyOne(m, k);
      DestroyOneOwned(m, k);
      DestroyOutcome(n, k + 1);
      assert Destroy(m, k) == Destroy(n, k + 1);
      ReturnedFrames(m, n, Destroy(n, k + 1), b + k);
      EmptiedFrom(m, n, Destroy(n, k + 1), k);
    } else {
      assert Emptied(m, m, k) && Returned(m, m);
    }
  }

  lemma EmptiedFrom(m: Mem, n: Mem, r: Mem, k: nat)
    requires k < |m.space.used| && n.space == m.space.(used := m.space.used[k := false])
    requires n.pages == m.pages - {m.space.base + k} && Emptied(n, r, k + 1)
    ensures Emptied(m, r, k)
  {
  }

  lemma DestroyOneOwned(m: Mem, k: nat)
    requires Owned(m) && m.space.base > 0 && k < |m.space.used|
    ensures var n := DestroyOne(m, k);
      && Owned(n) && n.space == m.space.(used := m.space.used[k := false]) && n.pages == m.pages - {m.space.base + k}
      && n.pool.used == if m.space.base + k in m.pages
                        then WithFree(m.pool.used, FrameOf(m.pages[m.space.base + k])) else m.pool.used
  {
    var v := m.space.base + k;
    if !m.space.used[k] {
      assert v !in m.pages by { assert InRange(m.space, v); }
      assert m.pages - {v} == m.pages && m.space.used[k := false] == m.space.used;
    } else {
      ReleaseOwned(m, v);
      var r := Release(m, v);
      BitReleased(r, k);
      assert DestroyOne(m, k) == r.(space := r.space.(used := r.space.used[k := false]));
    }
  }

  /** The bit of a page that is not mapped may be cleared. */
  lemma BitReleased(m: Mem, k: nat)
    requires Owned(m) && m.space.base > 0 && k < |m.space.used| && m.space.base + k !in m.pages
    ensures Owned(m.(space := m.space.(used := m.space.used[k := false])))
  {
  }

  /** The frames freed are that of `v` and those freed later. */
  lemma ReturnedFrames(m: Mem, n: Mem, r: Mem, v: nat)
    requires n.pages == m.pages - {v} && v !in r.pages && Returned(n, r)
    requires n.pool.used == if v in m.pages then WithFree(m.pool.used, FrameOf(m.pages[v])) else m.pool.used
    ensures Returned(m, r)
  {
    forall f | 0 <= f < |m.pool.used| ensures !r.pool.used[f] <==> !m.pool.used[f] || Unmapped(m, r, f) {
      if Unmapped(n, r, f) {
        var w :| w in n.pages && w !in r.pages && FrameOf(n.pages[w]) == f;
        assert w in m.pages && FrameOf(m.pages[w]) == f;
      }
      if Unmapped(m, r, f) {
        var w :| w in m.pages && w !in r.pages && FrameOf(m.pages[w]) == f;
        if w != v { assert w in n.pages && FrameOf(n.pages[w]) == f; }
      }
    }
  }
}

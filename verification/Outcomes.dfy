/** What each call of the virtual page allocator (vmm.c, mman.c) does, in terms of
    reservation bits, counters, frames and translations alone: when it fails, which
    range it takes, and where every address leads afterwards. */
module Outcomes {
  import opened Words
  import opened Runs
  import opened Bitmap
  import opened Frames
  import opened PageWalk
  import opened Memory
  import opened Backing
  import opened Ownership

  // ---- reservations ----

  /** Nothing can be reserved: nothing or too much is asked for, or no run of clear
      bits is long enough. */
  ghost predicate Unavailable(s: Space, count: nat)
  {
    count == 0 || count > s.free || forall q: nat :: !FreeRun(s.used, q, count)
  }

  /** The lowest run of `count` clear bits starts at `q`. */
  ghost predicate Lowest(used: seq<bool>, q: nat, count: nat)
  {
    FreeRun(used, q, count) && forall p: nat :: p < q ==> !FreeRun(used, p, count)
  }

  /** Bitmap and counters are the same, `largest_run` apart. */
  ghost predicate SameSpace(s: Space, t: Space)
  {
    s.base == t.base && s.used == t.used && s.free == t.free && s.usedCount == t.usedCount
  }

  /** `t` is `s` with the lowest run of `count` pages reserved, from `q` on. */
  ghost predicate Reserved(s: Space, t: Space, q: nat, count: nat)
  {
    && t.base == s.base && |t.used| == |s.used| && count > 0 && Lowest(s.used, q, count)
    && (forall k :: 0 <= k < |s.used| ==> t.used[k] == (s.used[k] || q <= k < q + count))
    && t.free == s.free - count && t.usedCount == (s.usedCount + count) % WORD && t.largest == count
  }

  /** `vmm_reserve`: the lowest run that is long enough, and failure exactly when there
      is none; a failed search reports the longest run that a used page ends. */
  lemma ReserveIsFirstFit(m: Mem, count: nat)
    requires Owned(m) && m.space.free < WORD
    ensures var (t, virt) := Reserve(m.space, count);
      && (virt == 0 <==> Unavailable(m.space, count))
      && (virt == 0 ==> SameSpace(m.space, t))
      && (virt == 0 && 0 < count <= m.space.free ==> LongestClosed(m.space.used, t.largest))
      && (virt != 0 ==>
            var q := virt / PAGE - m.space.base;
            q >= 0 && virt == (m.space.base + q) * PAGE && Reserved(m.space, t, q, count))
  {
    ReserveFresh(m, count);
    SearchOutcome(m.space, count);
  }

  lemma SearchOutcome(s: Space, count: nat)
    requires SpaceOk(s) && s.free < WORD
    ensures var (t, virt) := Reserve(s, count);
      && (virt == 0 <==> Unavailable(s, count))
      && (virt == 0 ==> SameSpace(s, t))
      && (virt == 0 && 0 < count <= s.free ==> LongestClosed(s.used, t.largest))
      && (virt != 0 ==>
            var q := virt / PAGE - s.base;
            q >= 0 && virt == (s.base + q) * PAGE && Reserved(s, t, q, count))
  {
    if 0 < count <= s.free {
      match FirstFit(s.used, count, 0)
      case None => BestClosedIs(s.used, |s.used|);
      case Some(q) =>
        assert FreeRun(s.used, q, count);
        assert s.base + q > 0;
        assert (s.base + q) * PAGE / PAGE == s.base + q;
        SmallMinus(s.free, count);
    }
  }

  // ---- backed allocations ----

  /** The page map `r` is `g` with the pages from `v` on mapped, for writing, to frames
      that were free in `p`, each to one of its own. */
  ghost predicate FreshlyBacked(p: Pool, g: map<nat, nat>, r: map<nat, nat>, v: nat, count: nat)
  {
    && (forall k :: k in r <==> k in g || v <= k < v + count)
    && (forall k :: k in g ==> k in r && r[k] == g[k])
    && (forall k :: v <= k < v + count ==> FrameOf(r[k]) < |p.used| && !p.used[FrameOf(r[k])] && FlagsOf(r[k], RW))
    && (forall k, l :: v <= k < l < v + count ==> FrameOf(r[k]) != FrameOf(r[l]))
  }

  /** The pool `q` is `p` with exactly the frames of these pages used as well. */
  ghost predicate Charged(p: Pool, q: Pool, r: map<nat, nat>, v: nat, count: nat)
    requires forall k :: v <= k < v + count ==> k in r
  {
    && |q.used| == |p.used| && q.free == p.free - count
    && forall f :: 0 <= f < |p.used| ==>
         (q.used[f] <==> p.used[f] || exists k :: v <= k < v + count && FrameOf(r[k]) == f)
  }

  /** `vmm_alloc` fails if and only if nothing can be reserved or too few frames are
      free. Then pool and page map are untouched, whatever had been backed. */
  lemma AllocFailure(m: Mem, count: nat)
    requires Owned(m) && m.space.free < WORD
    ensures var (r, virt) := Memory.Alloc(m, count);
      && (virt == 0 <==> Unavailable(m.space, count) || m.pool.free < count)
      && (virt == 0 ==> SamePool(m.pool, r.pool) && r.pages == m.pages)
      && (Unavailable(m.space, count) ==> SameSpace(m.space, r.space))
  {
    ReserveIsFirstFit(m, count);
    AllocFailing(m, count);
    var fs := AllocBacking(m, count);
  }

  /** When frames run out, of the lowest run only the pages that had not been backed
      yet stay reserved; the counters keep the whole of it. */
  lemma AllocLeftovers(m: Mem, count: nat) returns (q: nat)
    requires Owned(m) && m.space.free < WORD && !Unavailable(m.space, count) && m.pool.free < count
    ensures var s := Memory.Alloc(m, count).0.space;
      && Lowest(m.space.used, q, count)
      && s.base == m.space.base && |s.used| == |m.space.used|
      && (forall k :: 0 <= k < |s.used| ==> s.used[k] == (m.space.used[k] || q + m.pool.free <= k < q + count))
      && s.free == m.space.free - count && s.usedCount == (m.space.usedCount + count) % WORD
  {
    ReserveIsFirstFit(m, count);
    AllocFailing(m, count);
    var (t, start) := Reserve(m.space, count);
    q := start / PAGE - m.space.base;
    var s := Memory.Alloc(m, count).0.space;
    forall k | 0 <= k < |s.used|
      ensures s.used[k] == (m.space.used[k] || q + m.pool.free <= k < q + count)
    {
      assert q <= k < q + count ==> !m.space.used[k];
    }
  }

  /** `vmm_alloc` that succeeds: the lowest run of pages, each on a frame of its own
      that was free. */
  lemma AllocOutcome(m: Mem, count: nat)
    requires Owned(m) && m.space.free < WORD && Memory.Alloc(m, count).1 != 0
    ensures var (r, virt) := Memory.Alloc(m, count);
      var v := virt / PAGE;
      && virt == v * PAGE && v >= m.space.base && Reserved(m.space, r.space, v - m.space.base, count)
      && FreshlyBacked(m.pool, m.pages, r.pages, v, count)
      && Charged(m.pool, r.pool, r.pages, v, count)
  {
    ReserveIsFirstFit(m, count);
    var fs := AllocBacking(m, count);
    ReserveFresh(m, count);
    var (r, virt) := Memory.Alloc(m, count);
    BackedFresh(m.pool, m.pages, virt / PAGE, fs);
    BackedCharged(m.pool, r.pool, m.pages, virt / PAGE, fs);
  }

  lemma BackedFresh(p: Pool, g: map<nat, nat>, v: nat, fs: seq<nat>)
    requires Fresh(p.used, fs) && |p.used| < FRAMES && forall k :: v <= k < v + |fs| ==> k !in g
    ensures FreshlyBacked(p, g, MapAll(g, v, fs), v, |fs|)
  {
    FreshIs(p.used, fs);
    MapAllFrames(g, v, fs);
    var r := MapAll(g, v, fs);
    forall k | v <= k < v + |fs| ensures FrameOf(r[k]) < |p.used| && !p.used[FrameOf(r[k])] && FlagsOf(r[k], RW) {
      MapAllAt(g, v, fs, k - v);
      PteFrame(fs[k - v], RW);
      PteFlags(fs[k - v], RW);
    }
    forall k, l | v <= k < l < v + |fs| ensures FrameOf(r[k]) != FrameOf(r[l]) {
      MapAllAt(g, v, fs, k - v);
      MapAllAt(g, v, fs, l - v);
      PteFrame(fs[k - v], RW);
      PteFrame(fs[l - v], RW);
    }
  }

  lemma BackedCharged(p: Pool, q: Pool, g: map<nat, nat>, v: nat, fs: seq<nat>)
    requires PoolInv(p) && PoolInv(q) && Fresh(p.used, fs) && q.used == MarkAll(p.used, fs)
    requires forall k :: v <= k < v + |fs| ==> k in MapAll(g, v, fs)
    ensures Charged(p, q, MapAll(g, v, fs), v, |fs|)
  {
    FreshIs(p.used, fs);
    MarkAllIs(p.used, fs);
    CountMarked(p.used, fs);
    MapAllFrames(g, v, fs);
    var r := MapAll(g, v, fs);
    forall f | 0 <= f < |p.used|
      ensures q.used[f] <==> p.used[f] || exists k :: v <= k < v + |fs| && FrameOf(r[k]) == f
    {
      if f in fs {
        var i :| 0 <= i < |fs| && fs[i] == f;
        assert FrameOf(r[v + i]) == f;
      }
    }
  }

  /** `vmm_alloc_contiguous`: it fails if and only if nothing can be reserved or no
      run of frames is long enough, and then a reservation already made is all that
      changes; its success maps the lowest run of pages, in order, onto one run of
      frames that were free. */
  lemma ContiguousOutcome(m: Mem, count: nat)
    requires Owned(m) && m.space.free < WORD
    ensures var (r, virt) := AllocContiguous(m, count);
      && (virt == 0 <==> Unavailable(m.space, count) || forall f: nat :: !FreeRun(m.pool.used, f, count))
      && (virt == 0 ==> SamePool(m.pool, r.pool) && r.pages == m.pages)
      && (Unavailable(m.space, count) ==> SameSpace(m.space, r.space))
      && (!Unavailable(m.space, count) ==> exists q: nat :: Reserved(m.space, r.space, q, count))
  {
    ReserveIsFirstFit(m, count);
    ContiguousBacking(m, count);
    if count > 0 { PoolFailure(m.pool, count); }
  }

  lemma PoolFailure(p: Pool, count: nat)
    requires PoolInv(p) && count > 0
    ensures Frames.Alloc(p, count).1 == 0 <==> forall f: nat :: !FreeRun(p.used, f, count)
  {
    if count > 1 {
      AllocRunIsFirstFit(p, count);
    } else {
      AllocOneIsCyclicScan(p);
      if k :| 0 <= k < |p.used| && !p.used[k] { assert FreeRun(p.used, k, 1); }
      if f: nat :| FreeRun(p.used, f, 1) { assert !p.used[f]; }
    }
  }

  lemma ContiguousSuccess(m: Mem, count: nat) returns (f: nat)
    requires Owned(m) && m.space.free < WORD && AllocContiguous(m, count).1 != 0
    ensures var (r, virt) := AllocContiguous(m, count);
      && FreeRun(m.pool.used, f, count) && f > 0
      && r.pool.used == SetRange(m.pool.used, f, count, true) && r.pool.free == m.pool.free - count
      && virt % PAGE == 0 && Reserved(m.space, r.space, virt / PAGE - m.space.base, count)
      && (forall k :: virt / PAGE <= k < virt / PAGE + count ==> k in r.pages && FlagsOf(r.pages[k], RW))
      && forall va: nat :: Virt2Phys(r.pages, va) == OnRun(m.pages, virt, count, f, va)
  {
    ReserveIsFirstFit(m, count);
    ContiguousBacking(m, count);
    AllocGivesRun(m.pool, count);
    var (r, virt) := AllocContiguous(m, count);
    f := Frames.Alloc(m.pool, count).1 / PAGE;
    RangeFlags(m.pages, virt / PAGE, f, RW, count);
    RangeLeads(m.pages, virt, f, count);
  }

  /** Where `va` leads once the pages at `virt` lie on the run of frames from `f` on. */
  function OnRun(g: map<nat, nat>, virt: nat, count: nat, f: nat, va: nat): Option<nat>
  {
    if virt <= va < virt + count * PAGE then Some(f * PAGE + (va - virt)) else Virt2Phys(g, va)
  }

  lemma RangeFlags(g: map<nat, nat>, v: nat, f: nat, flags: nat, count: nat)
    ensures var r := MapRange(g, v, f, flags, count);
      forall k :: v <= k < v + count ==> k in r && FlagsOf(r[k], flags)
  {
    var r := MapRange(g, v, f, flags, count);
    forall k | v <= k < v + count ensures k in r && FlagsOf(r[k], flags) {
      MapRangeAt(g, v, f, flags, count, k);
      PteFlags(f + (k - v), flags);
    }
  }

  lemma RangeLeads(g: map<nat, nat>, virt: nat, f: nat, count: nat)
    requires virt % PAGE == 0 && f + count <= FRAMES
    ensures forall va: nat :: Virt2Phys(MapRange(g, virt / PAGE, f, RW, count), va) == OnRun(g, virt, count, f, va)
  {
    forall va: nat
      ensures Virt2Phys(MapRange(g, virt / PAGE, f, RW, count), va) == OnRun(g, virt, count, f, va)
    {
      MapTranslates(g, virt / PAGE, f, RW, count, va);
      InPages(virt, count, va);
      if virt <= va < virt + count * PAGE { BelowTop(f, count, va - virt); }
    }
  }

  /** An address lies in a run of whole pages as its page does. */
  lemma InPages(virt: nat, count: nat, va: nat)
    requires virt % PAGE == 0
    ensures virt <= va < virt + count * PAGE <==> virt / PAGE <= va / PAGE < virt / PAGE + count
  {
    AddPages(virt, count);
  }

  lemma BelowTop(f: nat, count: nat, o: nat)
    requires f + count <= FRAMES && o < count * PAGE
    ensures (f * PAGE + o) % WORD == f * PAGE + o
  {
    assert (f + count) * PAGE <= WORD;
  }

  // ---- giving reservations back ----

  /** `vmm_unreserve` of an accepted range clears exactly the bits it covers, counted
      round the end of the address space; of NULL, of nothing, of an address outside
      the range or inside a page it changes nothing. */
  lemma UnreserveOutcome(s: Space, virt: nat, count: nat)
    requires SpaceOk(s)
    ensures var t := Unreserve(s, virt, count);
      if virt == 0 || count == 0 || virt < s.base * PAGE || virt >= (s.base + |s.used|) * PAGE || virt % PAGE != 0
      then t == s
      else
        && t.base == s.base && |t.used| == |s.used| && t.largest == s.largest
        && (forall k :: 0 <= k < |s.used| ==>
              (t.used[k] <==> s.used[k] && !Reaches(virt / PAGE, count, s.base + k)))
        && t.free == (s.free + count) % WORD && (t.usedCount + count) % WORD == s.usedCount % WORD
  {
    if Accepts(s, virt, count) {
      forall p: nat | s.base <= p < s.base + |s.used|
        ensures Covers(virt / PAGE, count, p) <==> Reaches(virt / PAGE, count, p)
      {
        CoversReaches(virt / PAGE, count, p);
      }
    }
  }

  /** The page `i` pages after `v`, round the end of the address space. */
  function Onward(v: nat, i: nat): nat
  {
    (v + i) % FRAMES
  }

  /** Page `p` is one of the `count` pages from `v` on. */
  ghost predicate Reaches(v: nat, count: nat, p: nat)
  {
    exists i: nat :: i < count && Onward(v, i) == p
  }

  lemma CoversReaches(v: nat, count: nat, p: nat)
    requires v < FRAMES && p < FRAMES
    ensures Covers(v, count, p) <==> Reaches(v, count, p)
  {
    var d := if p >= v then p - v else p + FRAMES - v;
    WrapPage(v + d);
    assert Onward(v, d) == p;
    if Reaches(v, count, p) {
      var i: nat :| i < count && Onward(v, i) == p;
      if i < d { WrapPage(v + i); }
    }
  }

  /** Reserving pages and giving them back. */
  lemma ReserveUndone(m: Mem, count: nat)
    requires Owned(m) && m.space.free < WORD && m.space.usedCount < WORD && Reserve(m.space, count).1 != 0
    ensures var (s, virt) := Reserve(m.space, count); SameSpace(Unreserve(s, virt, count), m.space)
  {
    ReserveFresh(m, count);
    var (s, virt) := Reserve(m.space, count);
    var q := virt / PAGE - s.base;
    var t := Unreserve(s, virt, count);
    UnreservePlain(s, virt, count);
    RangeUndone(m.space.used, q, count);
    CountersBack(m.space.free, m.space.usedCount, count);
  }

  lemma RangeUndone(used: seq<bool>, q: nat, count: nat)
    requires FreeRun(used, q, count)
    ensures SetRange(SetRange(used, q, count, true), q, count, false) == used
  {
  }

  lemma CountersBack(x: nat, y: nat, c: nat)
    requires c <= x < WORD && y < WORD
    ensures (Minus(x, c) + c) % WORD == x && Minus((y + c) % WORD, c) == y
  {
  }

  // ---- mmap and munmap ----

  /** `count` is the number of pages for `length` bytes. */
  predicate WholeLength(length: nat, count: nat)
  {
    count * PAGE >= length && (count > 0 ==> (count - 1) * PAGE < length)
  }

  /** Rounding up wraps to 0 for lengths in the last page below 2^32. */
  lemma PageCountIs(length: Word, count: nat)
    requires WholeLength(length, count)
    ensures PageCount(length) == if length <= 0xFFFF_F000 then count else 0
  {
    if length <= 0xFFFF_F000 {
      assert (length + (PAGE - 1)) % WORD == length + (PAGE - 1);
    } else {
      assert (length + (PAGE - 1)) % WORD == length + (PAGE - 1) - WORD;
    }
  }

  /** `mmap` of `length` bytes, in `count` pages: it fails exactly when they cannot be
      reserved, and then nothing changes; else the lowest run of pages leads, byte for
      byte, to the memory at `phys`, with the flags asked for, and no other address
      leads anywhere else than before. */
  lemma MmapOutcome(m: Mem, phys: nat, length: Word, flags: nat, count: nat)
    requires Owned(m) && m.space.free < WORD && length <= 0xFFFF_F000 && WholeLength(length, count)
    ensures var (r, virt) := Mmap(m, phys, length, flags);
      && r.pool == m.pool
      && (virt == 0 <==> Unavailable(m.space, count))
      && (virt == 0 ==> SameSpace(m.space, r.space) && r.pages == m.pages)
      && (virt != 0 ==>
            && virt % PAGE == 0 && virt >= m.space.base * PAGE
            && Reserved(m.space, r.space, virt / PAGE - m.space.base, count)
            && (forall va: nat :: Virt2Phys(r.pages, va) == Mapped(m.pages, virt, count, phys, va))
            && (forall k :: virt / PAGE <= k < virt / PAGE + count ==> k in r.pages && FlagsOf(r.pages[k], flags)))
  {
    PageCountIs(length, count);
    ReserveIsFirstFit(m, count);
    var (r, virt) := Mmap(m, phys, length, flags);
    if virt != 0 {
      forall va: nat ensures Virt2Phys(r.pages, va) == Mapped(m.pages, virt, count, phys, va) {
        MapTranslates(m.pages, virt / PAGE, phys / PAGE, flags, count, va);
        InPages(virt, count, va);
      }
      assert r.pages == MapRange(m.pages, virt / PAGE, phys / PAGE, flags, count);
      RangeFlags(m.pages, virt / PAGE, phys / PAGE, flags, count);
    }
  }

  /** Where `va` leads once the pages at `virt` are mapped to the memory at `phys`. */
  function Mapped(g: map<nat, nat>, virt: nat, count: nat, phys: nat, va: nat): Option<nat>
  {
    if virt <= va < virt + count * PAGE then Some((phys / PAGE * PAGE + (va - virt)) % WORD) else Virt2Phys(g, va)
  }

  /** `munmap` of what `mmap` gave restores page map, bits and counters. */
  lemma MunmapUndoesMmap(m: Mem, phys: nat, length: Word, flags: nat)
    requires Owned(m) && m.space.free < WORD && m.space.usedCount < WORD && Mmap(m, phys, length, flags).1 != 0
    ensures var (r, virt) := Mmap(m, phys, length, flags);
      var u := Munmap(r, virt, length);
      u.pages == m.pages && u.pool == m.pool && SameSpace(u.space, m.space)
  {
    var count, virt := PageCount(length), Mmap(m, phys, length, flags).1;
    ReserveFresh(m, count);
    ReserveUndone(m, count);
    UnmapUndoesMap(m.pages, virt / PAGE, phys / PAGE, flags, count);
  }

  /** `munmap`: afterwards no address of the range leads anywhere, every other one
      where it did, and the reservation is given back; NULL is ignored. */
  lemma MunmapOutcome(m: Mem, virt: nat, length: Word, count: nat)
    requires length <= 0xFFFF_F000 && WholeLength(length, count)
    ensures var u := Munmap(m, virt, length);
      if virt == 0 then u == m
      else
        && u.pool == m.pool && u.space == Unreserve(m.space, virt, count)
        && forall va: nat :: Virt2Phys(u.pages, va) == Dropped(m.pages, virt, count, va)
  {
    PageCountIs(length, count);
    UnmappedLeads(m.pages, virt, count);
  }

  lemma UnmappedLeads(g: map<nat, nat>, virt: nat, count: nat)
    ensures forall va: nat :: Virt2Phys(UnmapRange(g, virt / PAGE, count), va) == Dropped(g, virt, count, va)
  {
    var r := UnmapRange(g, virt / PAGE, count);
    UnmapRangeIs(g, virt / PAGE, count);
    forall va: nat ensures Virt2Phys(r, va) == Dropped(g, virt, count, va) {
      var k := va / PAGE;
      assert k in r <==> k in g && !(virt / PAGE <= k < virt / PAGE + count);
      if k in r { assert r[k] == g[k]; }
    }
  }

  /** Where `va` leads once `count` pages from the page of `virt` on are unmapped. */
  function Dropped(g: map<nat, nat>, virt: nat, count: nat, va: nat): Option<nat>
  {
    if virt / PAGE <= va / PAGE < virt / PAGE + count then None else Virt2Phys(g, va)
  }

  /** `vmm_free` does the same to page map and reservation, and nothing to the pool. */
  lemma FreeOutcome(m: Mem, virt: nat, count: nat)
    ensures var u := Memory.Free(m, virt, count);
      && u.pool == m.pool && u.space == Unreserve(m.space, virt, count)
      && forall va: nat :: Virt2Phys(u.pages, va) == Dropped(m.pages, virt, count, va)
  {
    FreeKeepsFrames(m, virt, count);
    UnmappedLeads(m.pages, virt, count);
  }

  // ---- a new space ----

  /** `vmm_init`: every page free and counted, but page 0 of a range at address 0. */
  lemma InitOutcome(base: nat, total: nat)
    requires 0 < total < WORD
    ensures var s := Memory.Init(base, total);
      && s.base == base && |s.used| == total && s.largest == 0
      && (forall k :: 0 <= k < total ==> (s.used[k] <==> base == 0 && k == 0))
      && s.usedCount == (if base == 0 then 1 else 0) && s.free == total - s.usedCount
  {
    if base == 0 {
      var s := Space(0, seq(total, _ => false), total, 0, 0);
      assert MarkUsed(s, 0, 1) == MarkUsed(MarkUsedOne(s, 0), 1, 1) == MarkUsedOne(s, 0);
    }
  }
}

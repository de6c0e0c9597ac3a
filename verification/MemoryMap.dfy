/** The boot memory map: which pages `pmm_init` (pmm.c) frees, and when the pages
    it counts usable agree with them. */
module MemoryMap {
  import opened Words
  import opened Runs
  import opened Frames

  // ---- the pages freed ----

  /** Region `r` frees page `p`: rounded outwards, and only when it starts below the
      end of memory. */
  predicate Freed(r: PhysRegion, e: nat, p: nat)
  {
    r.Ram() && r.address <= e && Outward(r.address, r.size).0 <= p < Outward(r.address, r.size).1
  }

  /** One of the first `n` regions frees page `p`. */
  predicate FreedBy(regions: seq<PhysRegion>, e: nat, n: nat, p: nat)
    requires n <= |regions|
  {
    n > 0 && (Freed(regions[n - 1], e, p) || FreedBy(regions, e, n - 1, p))
  }

  lemma {:induction false} CountNone(used: seq<bool>)
    requires forall k :: 0 <= k < |used| ==> used[k]
    ensures CountFree(used) == 0
  {
    if used != [] { CountNone(used[..|used| - 1]); }
  }

  lemma {:induction false} MarkRamCounted(p: Pool, regions: seq<PhysRegion>, e: nat, n: nat)
    requires Counted(p) && n <= |regions|
    ensures var q := MarkRam(p, regions, e, n);
      && Counted(q) && |q.used| == |p.used| && q.usable == p.usable
      && forall k :: 0 <= k < |p.used| ==> q.used[k] == (p.used[k] && !FreedBy(regions, e, n, k))
  {
    if n > 0 {
      MarkRamCounted(p, regions, e, n - 1);
      var q, r := MarkRam(p, regions, e, n - 1), regions[n - 1];
      MarkPagesRange(q, Outward(r.address, r.size).0, Outward(r.address, r.size).1, false);
    }
  }

  /** Whatever the memory map, `pmm_init` starts with exact counters, and exactly
      the pages some RAM region touches are free, page 0 excepted. */
  lemma InitInv(regions: seq<PhysRegion>)
    ensures var p := Frames.Init(regions);
      && PoolInv(p) && |p.used| == TotalPages(regions) && p.usable == UsablePages(regions)
      && forall k :: 0 <= k < |p.used| ==> p.used[k] == (k == 0 || !FreedBy(regions, MemoryEnd(regions), |regions|, k))
  {
    var all := Pool(seq(TotalPages(regions), _ => true), UsablePages(regions), 0, UsablePages(regions), 0, 0);
    CountNone(all.used);
    UsableBound(regions);
    MarkRamCounted(all, regions, MemoryEnd(regions), |regions|);
    ZeroPageUsed(MarkRam(all, regions, MemoryEnd(regions), |regions|), MemoryEnd(regions));
  }

  lemma ZeroPageUsed(p: Pool, e: nat)
    requires Counted(p)
    ensures var q := Mark(p, e, 0, 0x1000, true);
      && PoolInv(q) && |q.used| == |p.used| && q.usable == p.usable
      && forall k :: 0 <= k < |p.used| ==> q.used[k] == (k == 0 || p.used[k])
  {
    assert Outward(0, 0x1000) == (0, 1);
    MarkPagesRange(p, 0, 1, true);
  }

  /** A memory map of one unaligned page frees two pages but counts none. */
  lemma UnalignedMap()
    ensures var p := Frames.Init([PhysRegion(0x1800, 0x1000, 3)]); p.usable == 0 && p.free == 2
  {
    var r := PhysRegion(0x1800, 0x1000, 3);
    var regions := [r];
    assert regions[..0] == [] && regions[0] == r;
    assert r.Ram() && r.End() == 0x2800 && r.UsablePages() == 0;
    assert MemoryEnd(regions) == 0x2800 && UsablePages(regions) == 0 && TotalPages(regions) == 3;
    assert Outward(0x1800, 0x1000) == (1, 3) && Outward(0, 0x1000) == (0, 1);
    var all := Pool(seq(3, _ => true), 0, 0, 0, 0, 0);
    var one := MarkOne(all, 1, false);
    var two := MarkOne(one, 2, false);
    assert MarkPages(all, 1, 3, false) == two;
    assert MarkRam(all, regions, 0x2800, 1) == two;
    assert two.used[0] && two.free == 2;
    assert MarkPages(two, 0, 1, true) == two;
  }

  lemma UsableBound(regions: seq<PhysRegion>)
    ensures UsablePages(regions) < WORD
  {
  }

  lemma OutwardPages(first: nat, count: nat)
    requires first + count < 0x10_0000
    ensures Outward(first * PAGE, count * PAGE) == (first, first + count)
  {
    assert first * PAGE / PAGE == first;
    assert (first + count) * PAGE == first * PAGE + count * PAGE;
    assert ((first + count) * PAGE + (PAGE - 1)) / PAGE == first + count;
  }

  // ---- what the memory map means ----

  /** A region counts when its VALID bit is set and its two type bits say RAM; a
      reserved or invalid one does not. */
  lemma RamFlags(r: PhysRegion)
    ensures r.Ram() <==> And(r.flags, 1) != 0 && And(r.flags, 6) == 2
  {
    MaskOne(r.flags);
    MaskSix(r.flags);
  }

  lemma MaskOne(x: nat)
    ensures And(x, 1) == x % 2
  {
    if x > 0 { AndZero(x / 2); assert And(x, 1) == x % 2 + 2 * And(x / 2, 0); }
  }

  lemma MaskSix(x: nat)
    ensures And(x, 6) == 2 * (x / 2 % 4)
  {
    if x > 0 {
      var y := x / 2;
      MaskOne(y / 2);
      assert And(x, 6) == 2 * And(y, 3);
      if y > 0 { assert And(y, 3) == y % 2 + 2 * And(y / 2, 1); }
      assert y % 4 == y % 2 + 2 * (y / 2 % 2);
    }
  }

  /** The end of memory is the end of some RAM region, and of none before another. */
  lemma {:induction false} EndReached(regions: seq<PhysRegion>)
    ensures forall i :: 0 <= i < |regions| && regions[i].Ram() ==> regions[i].End() <= MemoryEnd(regions)
    ensures MemoryEnd(regions) > 0 ==>
      exists i :: 0 <= i < |regions| && regions[i].Ram() && regions[i].End() == MemoryEnd(regions)
  {
    if regions != [] {
      var rest := regions[..|regions| - 1];
      EndReached(rest);
      forall i | 0 <= i < |regions| && regions[i].Ram() ensures regions[i].End() <= MemoryEnd(regions) {
        assert regions[i] in regions;
      }
      if MemoryEnd(regions) == MemoryEnd(rest) > 0 {
        var i :| 0 <= i < |rest| && rest[i].Ram() && rest[i].End() == MemoryEnd(rest);
        assert regions[i] == rest[i];
      }
    }
  }

  /** The pages counted usable are those that lie in the region as a whole. */
  lemma UsableWhole(r: PhysRegion, p: nat)
    requires r.address <= 0xFFFF_F000
    ensures r.UsablePages() > 0 ==>
      var first := AlignPage(r.address) / PAGE;
      (first <= p < first + r.UsablePages() <==> r.address <= p * PAGE && (p + 1) * PAGE <= r.End())
    ensures r.UsablePages() == 0 ==> !(r.address <= p * PAGE && (p + 1) * PAGE <= r.End())
  {
    var first, last := AlignPage(r.address) / PAGE, PageFloor(r.End()) / PAGE;
    assert AlignPage(r.address) == first * PAGE && PageFloor(r.End()) == last * PAGE;
    assert r.address <= p * PAGE <==> first <= p;
    assert (p + 1) * PAGE <= r.End() <==> p + 1 <= last;
    assert last > first ==> (last * PAGE - first * PAGE) / PAGE == last - first;
  }

  /** For RAM that does not run over 2^32: page `p` is free after `pmm_init` if and only
      if it is managed, not page 0, and some RAM region reaches into it. */
  lemma FreeAfterInit(regions: seq<PhysRegion>, p: nat)
    requires forall i :: 0 <= i < |regions| && regions[i].Ram() ==> regions[i].address + regions[i].size <= 0xFFFF_F000
    requires p < |Frames.Init(regions).used|
    ensures !Frames.Init(regions).used[p] <==>
      p > 0 && exists i :: 0 <= i < |regions| && regions[i].Ram() && ReachesInto(regions[i], p)
  {
    InitInv(regions);
    FreedByIs(regions, |regions|, p);
  }

  predicate ReachesInto(r: PhysRegion, p: nat)
  {
    r.address / PAGE <= p && p * PAGE < r.address + r.size
  }

  lemma {:induction false} FreedByIs(regions: seq<PhysRegion>, n: nat, p: nat)
    requires forall i :: 0 <= i < |regions| && regions[i].Ram() ==> regions[i].address + regions[i].size <= 0xFFFF_F000
    requires n <= |regions|
    ensures FreedBy(regions, MemoryEnd(regions), n, p) <==>
      exists i :: 0 <= i < n && regions[i].Ram() && ReachesInto(regions[i], p)
  {
    if n > 0 {
      FreedByIs(regions, n - 1, p);
      var r := regions[n - 1];
      if r.Ram() {
        assert r in regions;
        FreedIs(r, MemoryEnd(regions), p);
      }
    }
  }

  lemma FreedIs(r: PhysRegion, e: nat, p: nat)
    requires r.Ram() && r.address + r.size <= 0xFFFF_F000 && r.End() <= e
    ensures Freed(r, e, p) <==> ReachesInto(r, p)
  {
    var x := r.address + r.size;
    assert (x + (PAGE - 1)) % WORD == x + (PAGE - 1);
    assert p < (x + (PAGE - 1)) / PAGE <==> p * PAGE < x;
  }

  // ---- exactness of used_pages ----

  /** Pages of the map below `n` that end up free: touched by RAM, and not page 0. */
  function FreedBelow(regions: seq<PhysRegion>, n: nat): nat
  {
    if n == 0 then 0 else
    FreedBelow(regions, n - 1) + if n > 1 && FreedBy(regions, MemoryEnd(regions), |regions|, n - 1) then 1 else 0
  }

  lemma {:induction false} FreedCounted(regions: seq<PhysRegion>, used: seq<bool>)
    requires forall k :: 0 <= k < |used| ==> used[k] == (k == 0 || !FreedBy(regions, MemoryEnd(regions), |regions|, k))
    ensures CountFree(used) == FreedBelow(regions, |used|)
  {
    if used != [] { FreedCounted(regions, used[..|used| - 1]); }
  }

  /** After `pmm_init` `used_pages` is the exact rest of `usable_pages`, and not only
      modulo 2^32, if and only if the RAM regions touch no more pages, page 0 apart,
      than they contain whole ones. */
  lemma InitExactIff(regions: seq<PhysRegion>)
    ensures var p := Frames.Init(regions);
      p.free + p.usedCount == UsablePages(regions) <==> FreedBelow(regions, TotalPages(regions)) <= UsablePages(regions)
  {
    var p := Frames.Init(regions);
    InitInv(regions);
    UsableBound(regions);
    FreedCounted(regions, p.used);
    SumWraps(p.free, p.usedCount, p.usable);
  }

  /** What a well-formed map looks like: RAM in whole pages, below 2^32, disjoint. */
  predicate WholePages(r: PhysRegion)
  {
    r.address % PAGE == 0 && r.size % PAGE == 0 && r.address + r.size < WORD
  }

  predicate Disjoint(r: PhysRegion, q: PhysRegion)
  {
    r.address + r.size <= q.address || q.address + q.size <= r.address
  }

  ghost predicate AlignedMap(regions: seq<PhysRegion>)
  {
    && (forall i :: 0 <= i < |regions| && regions[i].Ram() ==> WholePages(regions[i]))
    && (forall i, k :: 0 <= i < k < |regions| && regions[i].Ram() && regions[k].Ram() ==>
      Disjoint(regions[i], regions[k]))
  }

  /** A region of whole pages: rounding either way gives the same pages. */
  lemma WholeRegion(r: PhysRegion)
    requires WholePages(r)
    ensures var first, count := r.address / PAGE, r.size / PAGE;
      && r.address == first * PAGE && r.size == count * PAGE && (first + count) * PAGE < WORD
      && r.End() == (first + count) * PAGE
      && Outward(r.address, r.size) == (first, first + count)
      && r.UsablePages() == count
  {
    var first, count := r.address / PAGE, r.size / PAGE;
    assert r.address == first * PAGE && r.size == count * PAGE;
    assert first + count < 0x10_0000;
    OutwardPages(first, count);
    WholeUsable(r, first, count);
  }

  lemma WholeUsable(r: PhysRegion, first: nat, count: nat)
    requires r.address == first * PAGE && r.size == count * PAGE && first + count < 0x10_0000
    ensures r.End() == (first + count) * PAGE && r.UsablePages() == count
  {
    assert (first + count) * PAGE % PAGE == 0 && first * PAGE % PAGE == 0;
    assert AlignPage(r.address) == r.address && PageFloor(r.End()) == r.End();
  }

  /** The end of memory of such a map, in whole pages. */
  lemma {:induction false} AlignedEnd(regions: seq<PhysRegion>)
    requires forall i :: 0 <= i < |regions| && regions[i].Ram() ==> WholePages(regions[i])
    ensures MemoryEnd(regions) % PAGE == 0 && TotalPages(regions) == MemoryEnd(regions) / PAGE
  {
    if regions != [] {
      var rest, r := regions[..|regions| - 1], regions[|regions| - 1];
      AlignedEnd(rest);
      if r.Ram() { WholeRegion(r); }
    }
    EndPages(MemoryEnd(regions));
  }

  lemma EndPages(e: Word)
    ensures e % PAGE == 0 ==> (e + (PAGE - 1)) % WORD / PAGE == e / PAGE
  {
  }

  /** Regions before `n` free no page of region `n`. */
  lemma {:induction false} NotFreedBefore(regions: seq<PhysRegion>, e: nat, k: nat, n: nat, p: nat)
    requires AlignedMap(regions) && k <= n < |regions| && regions[n].Ram()
    requires regions[n].address / PAGE <= p < regions[n].address / PAGE + regions[n].size / PAGE
    ensures !FreedBy(regions, e, k, p)
  {
    if k > 0 {
      NotFreedBefore(regions, e, k - 1, n, p);
      if regions[k - 1].Ram() {
        assert Disjoint(regions[k - 1], regions[n]);
        WholeRegion(regions[k - 1]);
        WholeRegion(regions[n]);
      }
    }
  }

  /** The pages freed by the first `n` regions are the pages they contain. */
  lemma {:induction false} AlignedCount(p: Pool, regions: seq<PhysRegion>, n: nat)
    requires AlignedMap(regions) && n <= |regions| && |p.used| == TotalPages(regions)
    requires Counted(p) && forall k :: 0 <= k < |p.used| ==> p.used[k]
    ensures CountFree(MarkRam(p, regions, MemoryEnd(regions), n).used) == UsablePages(regions[..n])
  {
    var e := MemoryEnd(regions);
    if n == 0 {
      CountNone(p.used);
    } else {
      var q, r := MarkRam(p, regions, e, n - 1), regions[n - 1];
      AlignedCount(p, regions, n - 1);
      MarkRamCounted(p, regions, e, n - 1);
      SurveyStep(regions, n - 1);
      if r.Ram() {
        AlignedStep(q, regions, n - 1);
        AddWhole(UsablePages(regions[..n - 1]), r);
      }
    }
  }

  lemma AlignedStep(q: Pool, regions: seq<PhysRegion>, n: nat)
    requires AlignedMap(regions) && n < |regions| && regions[n].Ram() && |q.used| == TotalPages(regions)
    requires Counted(q)
    requires forall k :: 0 <= k < |q.used| ==> q.used[k] == !FreedBy(regions, MemoryEnd(regions), n, k)
    ensures var r := regions[n];
      CountFree(Mark(q, MemoryEnd(regions), r.address, r.size, false).used) == CountFree(q.used) + r.size / PAGE < WORD
  {
    var r := regions[n];
    RegionManaged(regions, n);
    StillUsed(q, regions, n);
    FreeRegion(q, r, MemoryEnd(regions));
  }

  lemma StillUsed(q: Pool, regions: seq<PhysRegion>, n: nat)
    requires AlignedMap(regions) && n < |regions| && regions[n].Ram() && |q.used| == TotalPages(regions)
    requires forall k :: 0 <= k < |q.used| ==> q.used[k] == !FreedBy(regions, MemoryEnd(regions), n, k)
    ensures var first, count := regions[n].address / PAGE, regions[n].size / PAGE;
      forall k :: first <= k < first + count && k < |q.used| ==> q.used[k]
  {
    var first, count := regions[n].address / PAGE, regions[n].size / PAGE;
    forall k | first <= k < first + count && k < |q.used| ensures q.used[k] {
      NotFreedBefore(regions, MemoryEnd(regions), n, n, k);
    }
  }

  lemma FreeRegion(q: Pool, r: PhysRegion, e: nat)
    requires WholePages(r) && r.address <= e && Counted(q) && r.address / PAGE + r.size / PAGE <= |q.used|
    requires forall k :: r.address / PAGE <= k < r.address / PAGE + r.size / PAGE ==> q.used[k]
    ensures CountFree(Mark(q, e, r.address, r.size, false).used) == CountFree(q.used) + r.size / PAGE < WORD
  {
    MarkRegion(q, r, e);
    FreeWhole(q, r.address / PAGE, r.size / PAGE);
  }

  lemma MarkRegion(q: Pool, r: PhysRegion, e: nat)
    requires WholePages(r) && r.address <= e
    ensures Mark(q, e, r.address, r.size, false) ==
      MarkPages(q, r.address / PAGE, r.address / PAGE + r.size / PAGE, false)
  {
    WholeRegion(r);
  }

  lemma AddWhole(pages: nat, r: PhysRegion)
    requires WholePages(r) && r.Ram() && pages + r.size / PAGE < WORD
    ensures AddUsable(pages, r) == pages + r.size / PAGE
  {
    WholeRegion(r);
  }

  /** A region of such a map lies below the end of memory. */
  lemma RegionManaged(regions: seq<PhysRegion>, n: nat)
    requires AlignedMap(regions) && n < |regions| && regions[n].Ram()
    ensures var r := regions[n];
      r.address <= MemoryEnd(regions) && r.address / PAGE + r.size / PAGE <= TotalPages(regions)
  {
    var r := regions[n];
    WholeRegion(r);
    AlignedEnd(regions);
    assert r in regions && r.End() <= MemoryEnd(regions);
  }

  /** Freeing whole pages that are all used. */
  lemma FreeWhole(q: Pool, first: nat, count: nat)
    requires Counted(q) && first + count <= |q.used|
    requires forall k :: first <= k < first + count ==> q.used[k]
    ensures var t := MarkPages(q, first, first + count, false);
      CountFree(t.used) == CountFree(q.used) + count < MAX_PAGES
  {
    MarkPagesRange(q, first, first + count, false);
    var t := MarkPages(q, first, first + count, false);
    assert t.used == SetRange(q.used, first, count, false);
    CountFreeRange(q.used, first, count, false);
  }

  /** With RAM in whole pages and disjoint regions `used_pages` is exact. */
  lemma AlignedExact(regions: seq<PhysRegion>)
    requires AlignedMap(regions)
    ensures Frames.Init(regions).free + Frames.Init(regions).usedCount == UsablePages(regions)
  {
    var p := Frames.Init(regions);
    AlignedFree(regions);
    UsableBound(regions);
    InitInv(regions);
    SumWraps(p.free, p.usedCount, p.usable);
  }

  lemma AlignedFree(regions: seq<PhysRegion>)
    requires AlignedMap(regions)
    ensures CountFree(Frames.Init(regions).used) <= UsablePages(regions)
  {
    var e := MemoryEnd(regions);
    var all := Pool(seq(TotalPages(regions), _ => true), UsablePages(regions), 0, UsablePages(regions), 0, 0);
    CountNone(all.used);
    UsableBound(regions);
    AlignedCount(all, regions, |regions|);
    assert regions[..|regions|] == regions;
    MarkRamCounted(all, regions, e, |regions|);
    var q := MarkRam(all, regions, e, |regions|);
    ZeroPageUsed(q, e);
    FewerFree(q.used, Frames.Init(regions).used);
  }

  lemma {:induction false} FewerFree(used: seq<bool>, more: seq<bool>)
    requires |used| == |more| && forall k :: 0 <= k < |used| && used[k] ==> more[k]
    ensures CountFree(more) <= CountFree(used)
  {
    if used != [] { FewerFree(used[..|used| - 1], more[..|more| - 1]); }
  }

  // ---- marking whole pages used ----

  /** `q` is `p` with the managed pages of `[first, end)` used as well. */
  ghost predicate Marked(p: Pool, q: Pool, first: nat, end: nat)
  {
    && Counted(q) && |q.used| == |p.used| && q.usable == p.usable
    && forall k :: 0 <= k < |p.used| ==> q.used[k] == (p.used[k] || first <= k < end)
  }

  /** Marking whole pages: exactly the managed ones among them are set, also when
      the range starts past the end of memory. */
  lemma MarkWholePages(regions: seq<PhysRegion>, p: Pool, first: nat, count: nat)
    requires Counted(p) && |p.used| == TotalPages(regions) && first + count < 0x10_0000
    ensures Marked(p, Mark(p, MemoryEnd(regions), first * PAGE, count * PAGE, true), first, first + count)
  {
    OutwardPages(first, count);
    if first * PAGE > MemoryEnd(regions) {
      PastEnd(MemoryEnd(regions), first);
    } else {
      MarkPagesRange(p, first, first + count, true);
    }
  }

  lemma PastEnd(e: Word, first: nat)
    requires first * PAGE > e
    ensures (e + (PAGE - 1)) % WORD / PAGE <= first
  {
    assert (e + (PAGE - 1)) % WORD <= e + (PAGE - 1);
  }

  lemma MarkedTwice(p: Pool, q: Pool, r: Pool, a: nat, b: nat, c: nat)
    requires a <= b <= c && Marked(p, q, a, b) && Marked(q, r, b, c)
    ensures Marked(p, r, a, c)
  {
  }

  /** `pmm_mark_used` of the pages `first` to `end`. */
  function MarkUpTo(p: Pool, e: nat, first: nat, end: nat): Pool
    requires first <= end < 0x10_0000
  {
    Mark(p, e, first * PAGE, (end - first) * PAGE, true)
  }

  /** Three adjoining ranges from page 0 on. */
  function MarkThree(p: Pool, e: nat, a: nat, b: nat, c: nat): Pool
    requires a <= b <= c < 0x10_0000
  {
    MarkUpTo(MarkUpTo(MarkUpTo(p, e, 0, a), e, a, b), e, b, c)
  }

  lemma MarkThreeIs(regions: seq<PhysRegion>, p: Pool, a: nat, b: nat, c: nat)
    requires Counted(p) && |p.used| == TotalPages(regions) && a <= b <= c < 0x10_0000
    ensures Marked(p, MarkThree(p, MemoryEnd(regions), a, b, c), 0, c)
  {
    var e := MemoryEnd(regions);
    var one := MarkUpTo(p, e, 0, a);
    MarkWholePages(regions, p, 0, a);
    var two := MarkUpTo(one, e, a, b);
    MarkNext(regions, p, one, 0, a, b);
    MarkNext(regions, p, two, 0, b, c);
  }

  /** One more adjoining range. */
  lemma MarkNext(regions: seq<PhysRegion>, p: Pool, q: Pool, a: nat, b: nat, c: nat)
    requires |p.used| == TotalPages(regions) && a <= b <= c < 0x10_0000 && Marked(p, q, a, b)
    ensures Marked(p, MarkUpTo(q, MemoryEnd(regions), b, c), a, c)
  {
    MarkWholePages(regions, q, b, c - b);
    MarkedTwice(p, q, MarkUpTo(q, MemoryEnd(regions), b, c), a, b, c);
  }

  /** Marking pages used keeps `used_pages` exact. */
  lemma MarkedExact(p: Pool, q: Pool, first: nat, end: nat)
    requires Counted(p) && Marked(p, q, first, end) && p.usable < WORD && p.free + p.usedCount == p.usable
    ensures q.free + q.usedCount == q.usable
  {
    FewerFree(p.used, q.used);
    SumWraps(q.free, q.usedCount, q.usable);
  }
}

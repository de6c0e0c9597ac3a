/** The physical page allocator (pmm.c) as a state machine on `Pool`: its state
    with the bitmap read as one flag per page. */
module Frames {
  import opened Words
  import opened Runs
  import opened Bitmap

  datatype Pool = Pool(used: seq<bool>, usable: nat, free: nat, usedCount: nat, hint: nat, largest: nat)

  const MAX_PAGES: nat := 0x10_0000

  /** The counters are exact: `free` is the number of clear bits, and
      `free + used` stays `usable` modulo 2^32. */
  ghost predicate Counted(p: Pool)
  {
    && |p.used| < MAX_PAGES
    && p.free == CountFree(p.used)
    && p.usedCount < WORD
    && (p.free + p.usedCount) % WORD == p.usable % WORD
  }

  /** Exact counters, and page 0 never free: 0 is the failure result. */
  ghost predicate PoolInv(p: Pool)
  {
    Counted(p) && (|p.used| > 0 ==> p.used[0])
  }

  // ---- reference behaviour ----

  /** First free page at or after `h`, else the first free page at all. */
  function Cyclic(used: seq<bool>, h: nat): (r: Option<nat>)
    ensures r.Some? ==> r.value < |used| && !used[r.value]
    ensures r.Some? && r.value < h ==> forall k :: h <= k < |used| ==> used[k]
    ensures r.Some? && r.value >= h ==> forall k :: h <= k < r.value ==> used[k]
    ensures r.Some? && r.value < h ==> forall k :: 0 <= k < r.value ==> used[k]
    ensures r.None? <==> forall k :: 0 <= k < |used| ==> used[k]
  {
    match NextFree(used, h)
    case Some(p) => Some(p)
    case None => NextFree(used, 0)
  }

  function Start(p: Pool): nat
  {
    if p.hint >= |p.used| then 0 else p.hint
  }

  /** One page marked used. */
  function TakePage(p: Pool, page: nat): Pool
    requires page < |p.used|
  {
    p.(used := p.used[page := true], free := Minus(p.free, 1), usedCount := (p.usedCount + 1) % WORD,
       hint := if page + 1 >= |p.used| then 0 else page + 1)
  }

  function AllocOne(p: Pool): (Pool, nat)
  {
    if p.free == 0 then (p, 0) else
    match Cyclic(p.used, Start(p))
    case None => (p.(hint := Start(p)), 0)
    case Some(page) => (TakePage(p, page), page * PAGE)
  }

  function AllocRun(p: Pool, count: nat): (Pool, nat)
    requires count > 0
  {
    match FirstFit(p.used, count, 0)
    case None => (p.(largest := BestClosed(p.used, |p.used|)), 0)
    case Some(page) =>
      if page == 0 then (p.(largest := count), 0) else
      (p.(used := SetRange(p.used, page, count, true), free := Minus(p.free, count),
          usedCount := (p.usedCount + count) % WORD, largest := count), page * PAGE)
  }

  /** `pmm_alloc`: the new state and the address, 0 on failure. */
  function Alloc(p: Pool, count: nat): (Pool, nat)
  {
    if count == 0 || count > p.free then (p, 0)
    else if count == 1 then AllocOne(p)
    else AllocRun(p, count)
  }

  /** `pmm_free` as written: whatever `count` is, only the first page is cleared. */
  function Free(p: Pool, phys: nat, count: nat): Pool
  {
    var page := phys / PAGE;
    if count == 0 || phys % PAGE != 0 || page >= |p.used| || count > |p.used| - page then p else
    p.(used := p.used[page := false], free := (p.free + count) % WORD, usedCount := Minus(p.usedCount, count))
  }

  function MarkOne(p: Pool, page: nat, b: bool): Pool
  {
    if page >= |p.used| || p.used[page] == b then p
    else if b then p.(used := p.used[page := true], free := Minus(p.free, 1), usedCount := (p.usedCount + 1) % WORD)
    else p.(used := p.used[page := false], free := (p.free + 1) % WORD, usedCount := Minus(p.usedCount, 1))
  }

  function MarkPages(p: Pool, from: nat, end: nat, b: bool): Pool
    decreases end - from
  {
    if from >= end then p else MarkPages(MarkOne(p, from, b), from + 1, end, b)
  }

  /** First and one-past-last page of `[phys, phys + size)` rounded outwards. */
  function Outward(phys: Word, size: Word): (nat, nat)
  {
    (phys / PAGE, (phys + size + (PAGE - 1)) % WORD / PAGE)
  }

  /** `pmm_mark_used` and `pmm_mark_free`. */
  function Mark(p: Pool, memoryEnd: nat, phys: Word, size: Word, b: bool): Pool
  {
    if phys > memoryEnd then p else MarkPages(p, Outward(phys, size).0, Outward(phys, size).1, b)
  }

  // ---- properties ----

  /** `pmm_alloc(1)`: the first free page at or after the hint, else the first
      free page before it; it fails only when nothing is free. */
  lemma AllocOneIsCyclicScan(p: Pool)
    requires PoolInv(p)
    ensures var (q, phys) := Alloc(p, 1);
      && PoolInv(q)
      && (phys == 0 <==> forall k :: 0 <= k < |p.used| ==> p.used[k])
      && (phys == 0 ==> q.used == p.used && q.free == p.free && q.usedCount == p.usedCount)
      && q.largest == p.largest && q.usable == p.usable
      && (phys != 0 ==>
            var page := phys / PAGE;
            && phys == page * PAGE && page < |p.used| && !p.used[page]
            && q.used == p.used[page := true] && q.free == p.free - 1
            && q.hint == (if page + 1 < |p.used| then page + 1 else 0)
            && (page >= Start(p) ==> forall k :: Start(p) <= k < page ==> p.used[k])
            && (page < Start(p) ==> forall k :: 0 <= k < page || Start(p) <= k < |p.used| ==> p.used[k]))
  {
    CountFreePositive(p.used);
    var c := Cyclic(p.used, Start(p));
    if p.free > 0 && c.Some? {
      TakePageInv(p, c.value);
      assert c.value * PAGE / PAGE == c.value;
    }
  }

  lemma TakePageInv(p: Pool, page: nat)
    requires PoolInv(p) && page < |p.used| && !p.used[page]
    ensures PoolInv(TakePage(p, page)) && TakePage(p, page).free == p.free - 1
  {
    CountFreeUpdate(p.used, page, true);
    MoveDown(p.free, p.usedCount, p.usable, 1);
  }

  /** A run of two pages or more: first fit, and failure only when there is none. */
  lemma AllocRunIsFirstFit(p: Pool, count: nat)
    requires PoolInv(p) && count > 1
    ensures var (q, phys) := Alloc(p, count);
      && PoolInv(q)
      && q.hint == p.hint && q.usable == p.usable
      && (phys == 0 <==> forall s: nat :: !FreeRun(p.used, s, count))
      && (phys == 0 ==> q.used == p.used && q.free == p.free && q.usedCount == p.usedCount)
      && (phys == 0 && count <= p.free ==> LongestClosed(p.used, q.largest))
      && (phys != 0 ==>
            var page := phys / PAGE;
            && phys == page * PAGE && FreeRun(p.used, page, count)
            && (forall s: nat :: s < page ==> !FreeRun(p.used, s, count))
            && q.used == SetRange(p.used, page, count, true) && q.free == p.free - count && q.largest == count)
  {
    if count > p.free {
      forall s: nat ensures !FreeRun(p.used, s, count) {
        if FreeRun(p.used, s, count) { FreeRunCounted(p.used, s, count); }
      }
    } else {
      RunOutcome(p, count);
    }
  }

  lemma RunOutcome(p: Pool, count: nat)
    requires PoolInv(p) && 1 < count <= p.free
    ensures var (q, phys) := AllocRun(p, count);
      && PoolInv(q)
      && (phys == 0 <==> FirstFit(p.used, count, 0).None?)
      && (phys == 0 ==> q == p.(largest := q.largest) && LongestClosed(p.used, q.largest))
      && (phys != 0 ==>
            && phys == FirstFit(p.used, count, 0).value * PAGE && phys / PAGE == FirstFit(p.used, count, 0).value
            && q.used == SetRange(p.used, phys / PAGE, count, true) && q.free == p.free - count && q.largest == count)
  {
    match FirstFit(p.used, count, 0)
    case None => BestClosedIs(p.used, |p.used|);
    case Some(start) =>
      assert start > 0;
      TakeRunInv(p, start, count);
      assert start * PAGE / PAGE == start;
  }

  lemma TakeRunInv(p: Pool, start: nat, count: nat)
    requires PoolInv(p) && FreeRun(p.used, start, count) && count <= p.free
    ensures PoolInv(p.(used := SetRange(p.used, start, count, true), free := Minus(p.free, count),
                       usedCount := (p.usedCount + count) % WORD, largest := count))
    ensures Minus(p.free, count) == p.free - count
  {
    CountFreeRange(p.used, start, count, true);
    MoveDown(p.free, p.usedCount, p.usable, count);
  }

  /** Any number of pages: success gives a free run, now all used; failure
      changes neither bits nor counters. */
  lemma AllocGivesRun(p: Pool, count: nat)
    requires PoolInv(p)
    ensures var (q, phys) := Alloc(p, count);
      && PoolInv(q) && q.usable == p.usable
      && (phys == 0 ==> q.used == p.used && q.free == p.free && q.usedCount == p.usedCount)
      && (phys != 0 ==>
            var page := phys / PAGE;
            && phys == page * PAGE && page > 0 && count > 0 && FreeRun(p.used, page, count)
            && q.used == SetRange(p.used, page, count, true) && q.free == p.free - count)
  {
    if count == 1 {
      AllocOneIsCyclicScan(p);
      var page := Alloc(p, 1).1 / PAGE;
      if Alloc(p, 1).1 != 0 {
        assert SetRange(p.used, page, 1, true) == p.used[page := true];
      }
    } else if count > 1 {
      AllocRunIsFirstFit(p, count);
    }
  }

  /** `pmm_free` of one page: a page-aligned address of a managed page frees exactly
      that page and counts it; any other address changes nothing. */
  lemma FreeOutcome(p: Pool, phys: nat)
    requires p.free < WORD - 1 && p.usedCount < WORD
    ensures var q := Free(p, phys, 1);
      if phys % PAGE != 0 || phys >= |p.used| * PAGE then q == p
      else
        && |q.used| == |p.used| && q.usable == p.usable && q.hint == p.hint && q.largest == p.largest
        && (forall k :: 0 <= k < |p.used| ==> (q.used[k] <==> p.used[k] && phys != k * PAGE))
        && q.free == p.free + 1 && (q.usedCount + 1) % WORD == p.usedCount
  {
    assert phys % PAGE == 0 ==> phys == phys / PAGE * PAGE;
  }

  /** Freeing one used page other than page 0 keeps the counters exact. */
  lemma FreeOneInv(p: Pool, phys: nat)
    requires PoolInv(p) && phys > 0
    requires phys % PAGE == 0 && phys / PAGE < |p.used| ==> p.used[phys / PAGE]
    ensures PoolInv(Free(p, phys, 1))
  {
    if phys % PAGE == 0 && phys / PAGE < |p.used| {
      CountFreeUpdate(p.used, phys / PAGE, false);
      MoveUp(p.free, p.usedCount, p.usable, 1);
    }
  }

  /** Freeing an allocated run leaves the counters exact if and only if the run
      is a single page: `pmm_free` counts `count` pages but clears one. */
  lemma FreeExactIff(p: Pool, phys: nat, count: nat)
    requires PoolInv(p) && count > 0 && phys % PAGE == 0 && phys > 0
    requires phys / PAGE + count <= |p.used|
    requires forall k :: phys / PAGE <= k < phys / PAGE + count ==> p.used[k]
    ensures PoolInv(Free(p, phys, count)) <==> count == 1
    ensures forall k :: phys / PAGE < k < phys / PAGE + count ==> Free(p, phys, count).used[k]
  {
    CountFreeUpdate(p.used, phys / PAGE, false);
    MoveUp(p.free, p.usedCount, p.usable, count);
  }

  /** Two counters that add up modulo 2^32 do so exactly, or wrap once. */
  lemma SumWraps(x: nat, y: nat, sum: nat)
    requires x < WORD && y < WORD && sum < WORD && (x + y) % WORD == sum % WORD
    ensures x + y == sum || x + y == sum + WORD
  {
    assert (x + y) % WORD == if x + y < WORD then x + y else x + y - WORD;
  }

  /** Marking one page keeps the counters exact. */
  lemma MarkOneCounted(p: Pool, page: nat, b: bool)
    requires Counted(p)
    ensures Counted(MarkOne(p, page, b))
  {
    if page < |p.used| && p.used[page] != b {
      CountFreeUpdate(p.used, page, b);
      if b {
        MoveDown(p.free, p.usedCount, p.usable, 1);
      } else {
        MoveUp(p.free, p.usedCount, p.usable, 1);
      }
    }
  }

  /** Marking a range sets exactly its managed pages and keeps the counters exact. */
  lemma {:induction false} MarkPagesRange(p: Pool, from: nat, end: nat, b: bool)
    requires Counted(p)
    ensures var q := MarkPages(p, from, end, b);
      && Counted(q) && q.usable == p.usable && q.hint == p.hint && q.largest == p.largest
      && |q.used| == |p.used|
      && (forall k :: 0 <= k < |p.used| ==> q.used[k] == (if from <= k < end then b else p.used[k]))
    decreases end - from
  {
    if from < end {
      MarkOneCounted(p, from, b);
      MarkPagesRange(MarkOne(p, from, b), from + 1, end, b);
    }
  }

  // ---- initialisation from the boot memory map ----

  /** One entry of the boot memory map. */
  datatype PhysRegion = PhysRegion(address: Word, size: Word, flags: Word)
  {
    /** `KPHYSREGION_VALID` set and type `KPHYSREGION_TYPE_RAM`. */
    predicate Ram() { flags % 2 == 1 && flags / 2 % 4 == 1 }

    function End(): Word { (address + size) % WORD }

    /** Whole pages inside the region. */
    function UsablePages(): nat
    {
      var first, last := AlignPage(address), PageFloor(End());
      if last > first then (last - first) / PAGE else 0
    }
  }

  function MemoryEnd(regions: seq<PhysRegion>): (e: Word)
    ensures forall r :: r in regions && r.Ram() ==> r.End() <= e
  {
    if regions == [] then 0 else
    var e, r := MemoryEnd(regions[..|regions| - 1]), regions[|regions| - 1];
    assert forall q :: q in regions ==> q == r || q in regions[..|regions| - 1];
    if r.Ram() && r.End() > e then r.End() else e
  }

  function UsablePages(regions: seq<PhysRegion>): nat
  {
    if regions == [] then 0 else
    AddUsable(UsablePages(regions[..|regions| - 1]), regions[|regions| - 1])
  }

  function AddUsable(pages: nat, r: PhysRegion): nat
  {
    if r.Ram() then (pages + r.UsablePages()) % WORD else pages
  }

  /** One more region of the memory map. */
  lemma SurveyStep(regions: seq<PhysRegion>, i: nat)
    requires i < |regions|
    ensures var r, e := regions[i], MemoryEnd(regions[..i]);
      && MemoryEnd(regions[..i + 1]) == (if r.Ram() && r.End() > e then r.End() else e)
      && UsablePages(regions[..i + 1]) == AddUsable(UsablePages(regions[..i]), r)
  {
    assert regions[..i + 1][..i] == regions[..i];
  }

  function TotalPages(regions: seq<PhysRegion>): nat
  {
    (MemoryEnd(regions) + (PAGE - 1)) % WORD / PAGE
  }

  function MarkRam(p: Pool, regions: seq<PhysRegion>, memoryEnd: nat, n: nat): Pool
    requires n <= |regions|
  {
    if n == 0 then p else
    var q, r := MarkRam(p, regions, memoryEnd, n - 1), regions[n - 1];
    if r.Ram() then Mark(q, memoryEnd, r.address, r.size, false) else q
  }

  /** The state `pmm_init` leaves. */
  function Init(regions: seq<PhysRegion>): Pool
  {
    var all := Pool(seq(TotalPages(regions), _ => true), UsablePages(regions), 0, UsablePages(regions), 0, 0);
    Mark(MarkRam(all, regions, MemoryEnd(regions), |regions|), MemoryEnd(regions), 0, 0x1000, true)
  }
}

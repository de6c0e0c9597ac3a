/** The virtual page allocator (vmm.c, mman.c) as a state machine over the
    frame pool, its own bitmap of virtual pages, and the page map. */
module Memory {
  import opened Words
  import opened Runs
  import opened Bitmap
  import opened Frames
  import opened PageWalk

  /** A VMM: virtual pages `base` to `base + |used|`. */
  datatype Space = Space(base: nat, used: seq<bool>, free: nat, usedCount: nat, largest: nat)

  datatype Mem = Mem(pool: Pool, space: Space, pages: map<nat, nat>)

  // ---- the operations as written ----

  /** `vmm_reserve`: the new state and the address, 0 on failure. */
  function Reserve(s: Space, count: nat): (Space, nat)
  {
    if count == 0 || count > s.free then (s, 0) else
    match FirstFit(s.used, count, 0)
    case None => (s.(largest := BestClosed(s.used, |s.used|)), 0)
    case Some(q) =>
      if s.base + q == 0 then (s.(largest := count), 0) else
      (s.(used := SetRange(s.used, q, count, true), free := Minus(s.free, count),
          usedCount := (s.usedCount + count) % WORD, largest := count), (s.base + q) * PAGE)
  }

  /** `vmm_clear` */
  function ClearPage(s: Space, v: nat): Space
  {
    if s.base <= v < s.base + |s.used| then s.(used := s.used[v - s.base := false]) else s
  }

  /** Page `v` unmapped and its frame freed, if it has one. */
  function Release(m: Mem, v: nat): Mem
  {
    match Virt2Phys(m.pages, v * PAGE)
    case None => m
    case Some(phys) =>
      if phys == 0 then m
      else m.(pages := UnmapRange(m.pages, v, 1), pool := Frames.Free(m.pool, phys, 1))
  }

  /** One iteration of `rollback_allocations`. */
  function RollbackOne(m: Mem, v: nat): Mem
  {
    var r := Release(m, v);
    r.(space := ClearPage(r.space, v))
  }

  /** `rollback_allocations`, from iteration `i` on. */
  function Rollback(m: Mem, v: nat, count: nat, i: nat): Mem
    decreases count - i
  {
    if i >= count then m else Rollback(RollbackOne(m, v + i), v, count, i + 1)
  }

  /** One successful iteration of the backing loop of `vmm_alloc`. */
  function BackOne(m: Mem, v: nat): Mem
  {
    var (pool, phys) := Frames.Alloc(m.pool, 1);
    m.(pool := pool, pages := MapRange(m.pages, v, phys / PAGE, RW, 1))
  }

  /** The backing loop of `vmm_alloc`, from iteration `i` on. */
  function Back(m: Mem, v: nat, count: nat, i: nat): (Mem, bool)
    decreases count - i
  {
    if i >= count then (m, true) else
    var (pool, phys) := Frames.Alloc(m.pool, 1);
    if phys == 0 then (Rollback(m.(pool := pool), v, i, 0), false)
    else Back(BackOne(m, v + i), v, count, i + 1)
  }

  lemma BackUnfold(m: Mem, v: nat, count: nat, i: nat)
    requires i < count && Frames.Alloc(m.pool, 1).1 != 0
    ensures Back(m, v, count, i) == Back(BackOne(m, v + i), v, count, i + 1)
  {
  }

  /** `vmm_alloc` */
  function Alloc(m: Mem, count: nat): (Mem, nat)
  {
    var (space, virt) := Reserve(m.space, count);
    if virt == 0 then (m.(space := space), 0) else
    var (r, ok) := Back(m.(space := space), virt / PAGE, count, 0);
    (r, if ok then virt else 0)
  }

  /** `vmm_alloc_contiguous`, which keeps the reservation when frames run out. */
  function AllocContiguous(m: Mem, count: nat): (Mem, nat)
  {
    var (space, virt) := Reserve(m.space, count);
    if virt == 0 then (m.(space := space), 0) else
    var (pool, phys) := Frames.Alloc(m.pool, count);
    if phys == 0 then (m.(space := space, pool := pool), 0)
    else (Mem(pool, space, MapRange(m.pages, virt / PAGE, phys / PAGE, RW, count)), virt)
  }

  /** Page `p` is one of the `count` pages from `v` on, with addresses modulo 2^32:
      a range that is too long continues at address 0. */
  predicate Covers(v: nat, count: nat, p: nat)
  {
    (if p >= v then p - v else p + FRAMES - v) < count
  }

  /** The bits of a space after `vmm_clear` of `count` pages from `v` on. */
  function Cleared(s: Space, v: nat, count: nat): (r: seq<bool>)
    ensures |r| == |s.used|
    ensures forall k :: 0 <= k < |r| ==> r[k] == (s.used[k] && !Covers(v, count, s.base + k))
  {
    seq(|s.used|, k requires 0 <= k < |s.used| => s.used[k] && !Covers(v, count, s.base + k))
  }

  /** The guards of `vmm_unreserve`, which look only at the start of the range. */
  predicate Accepts(s: Space, virt: nat, count: nat)
  {
    virt != 0 && count != 0 && s.base * PAGE <= virt < (s.base + |s.used|) * PAGE && virt % PAGE == 0
  }

  /** `vmm_unreserve` */
  function Unreserve(s: Space, virt: nat, count: nat): Space
  {
    if !Accepts(s, virt, count) then s
    else s.(used := Cleared(s, virt / PAGE, count), free := (s.free + count) % WORD,
            usedCount := Minus(s.usedCount, count))
  }

  /** Below 2^32 the range is the plain one. */
  lemma CoversPlain(v: nat, count: nat, p: nat)
    requires v + count <= FRAMES && p < FRAMES
    ensures Covers(v, count, p) <==> v <= p < v + count
  {
  }

  /** One more page. */
  lemma CoversStep(v: nat, i: nat, p: nat)
    requires v < FRAMES && p < FRAMES
    ensures Covers(v, i + 1, p) <==> Covers(v, i, p) || p == (v + i) % FRAMES
  {
    if i < FRAMES { WrapPage(v + i); }
  }

  lemma WrapPage(x: nat)
    requires x < 2 * FRAMES
    ensures x % FRAMES == if x < FRAMES then x else x - FRAMES
  {
  }

  /** Clearing one more page, where the address wraps to. */
  lemma ClearedStep(s: Space, v: nat, i: nat)
    requires v < FRAMES && s.base + |s.used| <= FRAMES
    ensures s.(used := Cleared(s, v, i + 1)) == ClearPage(s.(used := Cleared(s, v, i)), (v + i) % FRAMES)
  {
    var t := ClearPage(s.(used := Cleared(s, v, i)), (v + i) % FRAMES);
    forall k | 0 <= k < |s.used| ensures t.used[k] == Cleared(s, v, i + 1)[k] {
      CoversStep(v, i, s.base + k);
    }
  }

  lemma UnreservePlain(s: Space, virt: nat, count: nat)
    requires Accepts(s, virt, count) && virt / PAGE + count <= FRAMES && s.base + |s.used| <= FRAMES
    ensures Unreserve(s, virt, count).used == SetRange(s.used, virt / PAGE - s.base, count, false)
  {
  }

  /** The last loop of `vmm_free`: look each page up, free what it finds. */
  function FreeBacking(pool: Pool, pages: map<nat, nat>, virt: nat, count: nat): Pool
  {
    if count == 0 then pool else
    var p := FreeBacking(pool, pages, virt, count - 1);
    match Virt2Phys(pages, virt + (count - 1) * PAGE)
    case None => p
    case Some(phys) => if phys == 0 then p else Frames.Free(p, phys, 1)
  }

  /** `vmm_free`: unreserve, unmap, and only then look the frames up. */
  function Free(m: Mem, virt: nat, count: nat): Mem
  {
    var pages := UnmapRange(m.pages, virt / PAGE, count);
    Mem(FreeBacking(m.pool, pages, virt, count), Unreserve(m.space, virt, count), pages)
  }

  /** One iteration of `vmm_destroy`. */
  function DestroyOne(m: Mem, k: nat): (r: Mem)
    requires k < |m.space.used|
    ensures |r.space.used| == |m.space.used|
  {
    if !m.space.used[k] then m else
    var r := Release(m, m.space.base + k);
    r.(space := r.space.(used := r.space.used[k := false]))
  }

  /** `vmm_destroy`, from page `k` on; the bitmap itself is given back by the caller. */
  function Destroy(m: Mem, k: nat): Mem
    decreases |m.space.used| - k
  {
    if k >= |m.space.used| then m else Destroy(DestroyOne(m, k), k + 1)
  }

  /** What `vmm_init` leaves of a range of `total` pages from `base` on. */
  function Init(base: nat, total: nat): Space
  {
    var s := Space(base, seq(total, _ => false), total, 0, 0);
    if base == 0 then MarkUsed(s, 0, 1) else s
  }

  /** One page marked used, as `vmm_mark_used` does it. */
  function MarkUsedOne(s: Space, v: nat): Space
  {
    if s.base <= v < s.base + |s.used| && !s.used[v - s.base]
    then s.(used := s.used[v - s.base := true], free := Minus(s.free, 1), usedCount := (s.usedCount + 1) % WORD)
    else s
  }

  /** `vmm_mark_used` on pages `from` to `end`. */
  function MarkUsed(s: Space, from: nat, end: nat): Space
    decreases end - from
  {
    if from >= end then s else MarkUsed(MarkUsedOne(s, from), from + 1, end)
  }

  function PageCount(length: Word): nat
  {
    (length + (PAGE - 1)) % WORD / PAGE
  }

  /** `mmap` */
  function Mmap(m: Mem, phys: nat, length: Word, flags: nat): (Mem, nat)
  {
    var count := PageCount(length);
    var (space, virt) := Reserve(m.space, count);
    if virt == 0 then (m.(space := space), 0)
    else (m.(space := space, pages := MapRange(m.pages, virt / PAGE, phys / PAGE, flags, count)), virt)
  }

  /** `munmap` */
  function Munmap(m: Mem, virt: nat, length: Word): Mem
  {
    var count := PageCount(length);
    if virt == 0 then m
    else m.(pages := UnmapRange(m.pages, virt / PAGE, count), space := Unreserve(m.space, virt, count))
  }

  // ---- ownership of frames ----

  ghost predicate InRange(s: Space, v: nat)
  {
    s.base <= v < s.base + |s.used|
  }

  /** Frames past the pool are never handed out. */
  ghost predicate FrameUsed(p: Pool, f: nat)
  {
    f >= |p.used| || p.used[f]
  }

  ghost predicate SpaceOk(s: Space)
  {
    s.base + |s.used| <= WINDOW && (s.base == 0 && |s.used| > 0 ==> s.used[0])
  }

  /** A mapped page has its VMM bit set. */
  ghost predicate BitsHeld(s: Space, pages: map<nat, nat>)
  {
    forall v :: v in pages && InRange(s, v) ==> s.used[v - s.base]
  }

  /** The frame of a mapped page is used in the pool, and it is not frame 0. */
  ghost predicate FramesHeld(p: Pool, pages: map<nat, nat>)
  {
    forall v :: v in pages ==> FrameUsed(p, FrameOf(pages[v])) && FrameOf(pages[v]) != 0
  }

  /** No frame backs two pages. */
  ghost predicate OneOwner(pages: map<nat, nat>)
  {
    forall v, w :: v in pages && w in pages && v != w ==> FrameOf(pages[v]) != FrameOf(pages[w])
  }

  ghost predicate Owned(m: Mem)
  {
    && PoolInv(m.pool) && SpaceOk(m.space)
    && BitsHeld(m.space, m.pages) && FramesHeld(m.pool, m.pages) && OneOwner(m.pages)
  }

  /** What a reservation gives: the lowest run of clear bits, none of it mapped. */
  lemma ReserveFresh(m: Mem, count: nat)
    requires Owned(m)
    ensures var (s, virt) := Reserve(m.space, count);
      && SpaceOk(s) && s.base == m.space.base && |s.used| == |m.space.used|
      && (virt == 0 ==> s.used == m.space.used && s.free == m.space.free && s.usedCount == m.space.usedCount)
      && (virt != 0 ==>
            var v := virt / PAGE;
            && virt == v * PAGE && m.space.base <= v && v + count <= m.space.base + |m.space.used|
            && count > 0 && count <= m.space.free
            && FreeRun(m.space.used, v - m.space.base, count)
            && s == m.space.(used := SetRange(m.space.used, v - m.space.base, count, true),
                             free := Minus(m.space.free, count),
                             usedCount := (m.space.usedCount + count) % WORD, largest := count)
            && (forall k :: v <= k < v + count ==> k !in m.pages))
  {
    var (s, virt) := Reserve(m.space, count);
    if virt != 0 {
      var v := virt / PAGE;
      forall k | v <= k < v + count ensures k !in m.pages {
        assert !m.space.used[k - m.space.base];
      }
    }
  }
}

/** The virtual page allocator (vmm.c) and its callers `mmap` and `munmap`
    (mman.c) on the bitmap words, the frame pool and the page tables: every
    method is the state machine step of the same name in `Memory`. */
module Vmm {
  import opened Words
  import opened Runs
  import opened Bitmap
  import opened Frames
  import opened PageWalk
  import opened Memory
  import Pmm
  import Paging

  class Manager {
    const pool: Pmm.Manager
    const tables: Paging.PageTables
    /** First page of the range. */
    const base: nat
    const total: nat
    const bitmap: array<Word>
    var free: nat
    var usedCount: nat
    var largest: nat

    ghost function Repr(): set<object>
    {
      {this, bitmap, pool, pool.bitmap, tables, tables.words}
    }

    ghost predicate Valid()
      reads Repr()
    {
      && pool.Valid() && tables.Valid()
      && bitmap != pool.bitmap && bitmap != tables.words && pool.bitmap != tables.words
      && bitmap.Length == WordsFor(total) && base + total <= WINDOW
    }

    ghost function Space(): Memory.Space
      requires Valid()
      reads Repr()
    {
      Memory.Space(base, Flags(bitmap[..], total), free, usedCount, largest)
    }

    ghost function State(): Mem
      requires Valid()
      reads Repr()
    {
      Mem(pool.State(), Space(), tables.Map())
    }

    /** `vmm_init`; the words of the bitmap come from the caller's allocator. */
    constructor (pool: Pmm.Manager, tables: Paging.PageTables, base: nat, end: nat)
      requires pool.Valid() && tables.Valid() && pool.bitmap != tables.words
      requires base < end <= WINDOW
      ensures Valid() && fresh(bitmap)
      ensures this.pool == pool && this.tables == tables && this.base == base && this.total == end - base
      ensures State() == Mem(old(pool.State()), Memory.Init(base, end - base), old(tables.Map()))
    {
      this.pool, this.tables, this.base, this.total := pool, tables, base, end - base;
      bitmap := new Word[WordsFor(end - base)](_ => 0);
      free, usedCount, largest := end - base, 0, 0;
      new;
      forall j: nat | j < 32 ensures !Bit(0, j) { ZeroBit(j); }
      assert Flags(bitmap[..], total) == seq(total, _ => false);
      if base == 0 {
        MarkUsed(0, 1);
      }
    }

    /** `vmm_mark_used` on the pages `from` to `end` of the range. */
    method MarkUsed(from: nat, end: nat)
      requires Valid() && base <= from && end <= base + total
      modifies this, bitmap
      ensures Valid()
      ensures State() == old(State()).(space := Memory.MarkUsed(old(State()).space, from, end))
    {
      ghost var target := Memory.MarkUsed(Space(), from, end);
      var v := from;
      while v < end
        invariant base <= v && Valid()
        invariant State() == old(State()).(space := Space())
        invariant Memory.MarkUsed(Space(), v, end) == target
        decreases end - v
      {
        MarkPage(v);
        v := v + 1;
      }
    }

    method MarkPage(v: nat)
      requires Valid() && base <= v < base + total
      modifies this, bitmap
      ensures Valid()
      ensures State() == old(State()).(space := MarkUsedOne(old(Space()), v))
    {
      var used := TestPage(bitmap, v - base);
      if !used {
        SetPage(bitmap, v - base);
        free := Minus(free, 1);
        usedCount := (usedCount + 1) % WORD;
      }
    }

    /** `vmm_reserve` */
    method Reserve(count: nat) returns (virt: nat)
      requires Valid()
      modifies this, bitmap
      ensures Valid()
      ensures (Space(), virt) == Memory.Reserve(old(Space()), count)
      ensures State() == old(State()).(space := Space())
    {
      if count == 0 {
        return 0;
      }
      if count > free {
        return 0;
      }
      var found, start, run := FindRun(bitmap, total, count);
      largest := run;
      if !found || base + start == 0 {
        return 0;
      }
      SetRun(bitmap, total, start, count);
      free := Minus(free, count);
      usedCount := (usedCount + count) % WORD;
      virt := (base + start) * PAGE;
    }

    /** `vmm_clear`: an address outside the bitmap is ignored. */
    method Clear(v: nat)
      requires Valid()
      modifies bitmap
      ensures Valid()
      ensures State() == old(State()).(space := Memory.ClearPage(old(Space()), v))
    {
      if v < base || (v - base) / 32 >= bitmap.Length {
        return;
      }
      ghost var was := Flags(bitmap[..], total);
      Bitmap.ClearPage(bitmap, v - base);
      if v - base >= total {
        assert Flags(bitmap[..], total) == was;
      }
    }

    /** The page's frame given back and its entry removed, if it has one. */
    method ReleasePage(v: nat)
      requires Valid() && v < WINDOW
      modifies Repr()
      ensures Valid()
      ensures State() == Release(old(State()), v)
      ensures bitmap[..] == old(bitmap[..])
      ensures free == old(free) && usedCount == old(usedCount) && largest == old(largest)
    {
      assert v * PAGE / PAGE == v;
      var phys := tables.VirtToPhys(v * PAGE);
      if phys != 0 {
        tables.UnmapPages(v * PAGE, 1);
        pool.Free(phys, 1);
      }
    }

    /** `rollback_allocations` */
    method Rollback(v: nat, count: nat)
      requires Valid() && v + count <= WINDOW
      modifies Repr()
      ensures Valid()
      ensures State() == Memory.Rollback(old(State()), v, count, 0)
    {
      ghost var now := State();
      ghost var target := Memory.Rollback(now, v, count, 0);
      for i := 0 to count
        invariant Valid() && State() == now
        invariant Memory.Rollback(now, v, count, i) == target
      {
        now := RollbackPage(v, count, i, now);
      }
    }

    /** One iteration of the rollback. */
    method RollbackPage(v: nat, count: nat, i: nat, ghost m: Mem) returns (ghost next: Mem)
      requires Valid() && State() == m && i < count && v + count <= WINDOW
      modifies Repr()
      ensures Valid() && State() == next
      ensures Memory.Rollback(next, v, count, i + 1) == Memory.Rollback(m, v, count, i)
    {
      next := RollbackOne(m, v + i);
      ReleasePage(v + i);
      Clear(v + i);
    }

    /** One iteration of the backing loop. */
    method BackPage(v: nat, count: nat, i: nat, ghost m: Mem) returns (ok: bool, ghost next: Mem)
      requires Valid() && State() == m && i < count && v + count <= WINDOW
      modifies Repr()
      ensures Valid()
      ensures State() == next
      ensures Back(m, v, count, i) ==
        if ok then Back(next, v, count, i + 1) else (Memory.Rollback(next, v, i, 0), false)
    {
      var phys := pool.Alloc(1);
      if phys == 0 {
        return false, State();
      }
      assert (v + i) * PAGE / PAGE == v + i;
      tables.MapPages((v + i) * PAGE, phys, RW, 1);
      BackUnfold(m, v, count, i);
      return true, State();
    }

    /** The backing loop of `vmm_alloc`, with its rollback. */
    method BackAll(v: nat, count: nat) returns (ok: bool)
      requires Valid() && v + count <= WINDOW
      modifies Repr()
      ensures Valid()
      ensures (State(), ok) == Back(old(State()), v, count, 0)
    {
      ghost var now := State();
      ghost var target := Back(now, v, count, 0);
      for i := 0 to count
        invariant Valid() && State() == now
        invariant Back(now, v, count, i) == target
      {
        ghost var next;
        ok, next := BackPage(v, count, i, now);
        if !ok {
          Rollback(v, i);
          return;
        }
        now := next;
      }
      ok := true;
    }

    /** `vmm_alloc` */
    method Alloc(count: nat) returns (virt: nat)
      requires Valid()
      modifies Repr()
      ensures Valid()
      ensures (State(), virt) == Memory.Alloc(old(State()), count)
    {
      var start := Reserve(count);
      if start == 0 {
        return 0;
      }
      var ok := BackAll(start / PAGE, count);
      virt := if ok then start else 0;
    }

    /** `vmm_alloc_contiguous` */
    method AllocContiguous(count: nat) returns (virt: nat)
      requires Valid()
      modifies Repr()
      ensures Valid()
      ensures (State(), virt) == Memory.AllocContiguous(old(State()), count)
    {
      virt := Reserve(count);
      if virt == 0 {
        return 0;
      }
      var phys := pool.Alloc(count);
      if phys == 0 {
        return 0;
      }
      tables.MapPages(virt, phys, RW, count);
    }

    /** `vmm_unreserve` */
    method Unreserve(virt: Word, count: nat)
      requires Valid()
      modifies this, bitmap
      ensures Valid()
      ensures State() == old(State()).(space := Memory.Unreserve(old(Space()), virt, count))
    {
      if virt == 0 {
        return;
      }
      if count == 0 {
        return;
      }
      if virt < base * PAGE || virt >= (base + total) * PAGE {
        return;
      }
      if virt % PAGE != 0 {
        return;
      }
      var v := virt / PAGE;
      ghost var was := Space();
      assert Cleared(was, v, 0) == was.used;
      for i := 0 to count
        invariant Valid()
        invariant State() == old(State()).(space := was.(used := Cleared(was, v, i)))
      {
        ClearedStep(was, v, i);
        Clear((v + i) % FRAMES);
      }
      free := (free + count) % WORD;
      usedCount := Minus(usedCount, count);
    }

    /** `vmm_free` */
    method Free(virt: nat, count: nat)
      requires Valid() && virt / PAGE + count <= WINDOW
      modifies Repr()
      ensures Valid()
      ensures State() == Memory.Free(old(State()), virt, count)
    {
      Unreserve(virt, count);
      tables.UnmapPages(virt, count);
      FreeFrames(virt, count);
    }

    /** The last loop of `vmm_free`. */
    method FreeFrames(virt: nat, count: nat)
      requires Valid() && virt / PAGE + count <= WINDOW
      modifies pool, pool.bitmap
      ensures Valid()
      ensures pool.State() == FreeBacking(old(pool.State()), tables.Map(), virt, count)
    {
      for i := 0 to count
        invariant Valid()
        invariant pool.State() == FreeBacking(old(pool.State()), tables.Map(), virt, i)
      {
        FreeFrame(virt, i, old(pool.State()));
      }
    }

    method FreeFrame(virt: nat, i: nat, ghost p: Pool)
      requires Valid() && virt / PAGE + i < WINDOW
      requires pool.State() == FreeBacking(p, tables.Map(), virt, i)
      modifies pool, pool.bitmap
      ensures Valid()
      ensures pool.State() == FreeBacking(p, tables.Map(), virt, i + 1)
    {
      AddPages(virt, i);
      var phys := tables.VirtToPhys(virt + i * PAGE);
      if phys != 0 {
        pool.Free(phys, 1);
      }
    }

    /** `mmap` on this VMM. */
    method Mmap(phys: Word, length: Word, flags: nat) returns (virt: nat)
      requires Valid()
      modifies Repr()
      ensures Valid()
      ensures (State(), virt) == Memory.Mmap(old(State()), phys, length, flags)
    {
      var count := PageCount(length);
      virt := Reserve(count);
      if virt == 0 {
        return 0;
      }
      tables.MapPages(virt, phys, flags, count);
    }

    /** `munmap` on this VMM. */
    method Munmap(virt: nat, length: Word)
      requires Valid() && virt / PAGE + PageCount(length) <= WINDOW
      modifies Repr()
      ensures Valid()
      ensures State() == Memory.Munmap(old(State()), virt, length)
    {
      if virt == 0 {
        return;
      }
      var count := PageCount(length);
      tables.UnmapPages(virt, count);
      Unreserve(virt, count);
    }

    /** `vmm_destroy` */
    method DestroyAll()
      requires Valid()
      modifies Repr()
      ensures Valid()
      ensures State() == Memory.Destroy(old(State()), 0)
    {
      var dword := 0;
      ghost var now := State();
      ghost var k, target := 0, Memory.Destroy(now, 0);
      while dword < bitmap.Length
        invariant Valid() && dword <= bitmap.Length && State() == now
        invariant k == Within(32 * dword, total) && Memory.Destroy(now, k) == target
      {
        now := DestroyWord(dword, now);
        dword, k := dword + 1, Within(32 * dword + 32, total);
      }
    }

    /** The inner loop of `vmm_destroy`, over a copy of the word. */
    method DestroyWord(dword: nat, ghost m: Mem) returns (ghost next: Mem)
      requires Valid() && dword < bitmap.Length && State() == m
      modifies Repr()
      ensures Valid() && State() == next
      ensures Memory.Destroy(next, Within(32 * dword + 32, total)) == Memory.Destroy(m, 32 * dword)
    {
      var bits, bit, page := bitmap[dword], 0, 32 * dword;
      ghost var target := Memory.Destroy(m, page);
      next := m;
      while bit < 32
        invariant Valid() && bit <= 32 && page == 32 * dword + bit <= total && State() == next
        invariant AgreeFrom(bits, bitmap[dword], bit)
        invariant Memory.Destroy(next, page) == target
      {
        if page >= total {
          break;
        }
        next := DestroyBit(bits, dword, bit, page, next);
        bit, page := bit + 1, page + 1;
      }
      assert page == Within(32 * dword + 32, total);
    }

    /** One iteration, on bit `bit` of the copy. */
    method DestroyBit(bits: Word, dword: nat, bit: nat, page: nat, ghost m: Mem) returns (ghost next: Mem)
      requires Valid() && State() == m
      requires dword < bitmap.Length && bit < 32 && page == 32 * dword + bit < total
      requires AgreeFrom(bits, bitmap[dword], bit)
      modifies Repr()
      ensures Valid() && State() == next && AgreeFrom(bits, bitmap[dword], bit + 1)
      ensures Memory.Destroy(next, page + 1) == Memory.Destroy(m, page)
    {
      var taken := TestWord(bits, bit);
      ghost var word := bitmap[dword];
      next := DestroyPage(dword, bit, page, taken, m);
      AgreeStep(bits, word, bitmap[dword], bit);
    }

    method DestroyPage(dword: nat, bit: nat, page: nat, taken: bool, ghost m: Mem) returns (ghost next: Mem)
      requires Valid() && State() == m
      requires dword < bitmap.Length && bit < 32 && page == 32 * dword + bit < total && taken == Bit(bitmap[dword], bit)
      modifies Repr()
      ensures Valid()
      ensures State() == next && |next.space.used| == total
      ensures Memory.Destroy(next, page + 1) == Memory.Destroy(m, page)
      ensures AgreeBut(bitmap[dword], old(bitmap[dword]), bit)
    {
      WordFlags(bitmap[..], total, dword, bit);
      next := DestroyOne(m, page);
      if taken {
        ReleasePage(base + page);
        ghost var was := bitmap[..];
        Bitmap.ClearPage(bitmap, page);
        OtherBits(was, bitmap[..], dword, bit);
      }
    }
  }

  /** Clearing one page leaves the other bits of its word. */
  lemma OtherBits(was: seq<Word>, now: seq<Word>, dword: nat, bit: nat)
    requires |now| == |was| && dword < |was| && bit < 32
    requires forall q: nat :: q < 32 * |was| ==> UsedPage(now, q) == (UsedPage(was, q) && q != 32 * dword + bit)
    ensures AgreeBut(now[dword], was[dword], bit)
  {
    forall b: nat | b < 32 && b != bit ensures Bit(now[dword], b) == Bit(was[dword], b) {
      var q := 32 * dword + b;
      assert q / 32 == dword && q % 32 == b;
      assert UsedPage(now, q) == UsedPage(was, q);
    }
  }

  /** `n`, or the size of the range. */
  function Within(n: nat, total: nat): nat
  {
    if n <= total then n else total
  }

  /** The words have the same bits from `bit` on. */
  ghost predicate AgreeFrom(w: Word, v: Word, bit: nat)
  {
    forall b: nat :: bit <= b < 32 ==> Bit(w, b) == Bit(v, b)
  }

  ghost predicate AgreeBut(w: Word, v: Word, bit: nat)
  {
    forall b: nat :: b < 32 && b != bit ==> Bit(w, b) == Bit(v, b)
  }

  lemma AgreeStep(bits: Word, w: Word, v: Word, bit: nat)
    requires AgreeFrom(bits, w, bit) && AgreeBut(v, w, bit)
    ensures AgreeFrom(bits, v, bit + 1)
  {
  }
}

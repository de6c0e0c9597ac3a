/** The physical page allocator (pmm.c) on its bitmap of 32-bit words: every
    method is the state machine step of the same name in `Frames`. */
module Pmm {
  import opened Words
  import opened Runs
  import opened Bitmap
  import opened Frames

  class Manager {
    const bitmap: array<Word>
    const total: nat
    const memoryEnd: nat
    var usable: nat
    var free: nat
    var usedCount: nat
    var hint: nat
    var largest: nat

    /** The bitmap covers `total` pages, and the bits past them stay set. */
    ghost predicate Valid()
      reads this, bitmap
    {
      && bitmap.Length == WordsFor(total) && total < MAX_PAGES
      && (free > 0 ==> total > 0)
      && forall q: nat :: total <= q < 32 * bitmap.Length ==> UsedPage(bitmap[..], q)
    }

    ghost function State(): Pool
      requires Valid()
      reads this, bitmap
    {
      Pool(Flags(bitmap[..], total), usable, free, usedCount, hint, largest)
    }

    /** The first pass over the memory map. */
    static method Survey(regions: seq<PhysRegion>) returns (end: Word, pages: nat)
      ensures end == MemoryEnd(regions) && pages == UsablePages(regions)
    {
      end, pages := 0, 0;
      for i := 0 to |regions|
        invariant end == MemoryEnd(regions[..i]) && pages == UsablePages(regions[..i])
      {
        SurveyStep(regions, i);
        var r := regions[i];
        if r.Ram() {
          if r.End() > end {
            end := r.End();
          }
          pages := (pages + r.UsablePages()) % WORD;
        }
      }
      assert regions[..|regions|] == regions;
    }

    /** `pmm_init`; the words of the bitmap come from the boot allocator. */
    constructor (regions: seq<PhysRegion>)
      ensures Valid() && State() == Init(regions)
      ensures fresh(bitmap) && total == TotalPages(regions) && memoryEnd == MemoryEnd(regions)
    {
      var end, pages := Survey(regions);
      memoryEnd := end;
      usable, usedCount := pages, pages;
      total := (end + (PAGE - 1)) % WORD / PAGE;
      free, hint, largest := 0, 0, 0;
      bitmap := new Word[WordsFor((end + (PAGE - 1)) % WORD / PAGE)](_ => ONES);
      new;
      forall j: nat | j < 32 ensures Bit(ONES, j) { OnesBit(j); }
      assert Flags(bitmap[..], total) == seq(total, _ => true);
      ghost var all := State();
      for i := 0 to |regions|
        invariant Valid() && State() == MarkRam(all, regions, memoryEnd, i)
      {
        if regions[i].Ram() {
          MarkRange(regions[i].address, regions[i].size, false);
        }
      }
      MarkRange(0, 0x1000, true);
    }

    /** The first loop of the search: from the hint's word to the end, pages
        before the hint hidden. A clear bit is always below `total`, since the
        bits past it stay set. */
    method FindFrom(from: nat) returns (r: Option<nat>)
      requires Valid() && from < total
      ensures r == NextFree(Flags(bitmap[..], total), from)
    {
      ghost var used := Flags(bitmap[..], total);
      var first := from / 32;
      var dword := first;
      while dword < bitmap.Length
        invariant first <= dword <= bitmap.Length
        invariant forall k :: from <= k < total && k < 32 * dword ==> used[k]
      {
        var bits := bitmap[dword];
        if dword == first {
          bits := OrWord(bits, Mask(from % 32) - 1);
        }
        ghost var low := if dword == first then from % 32 else 0;
        forall j: nat | j < 32 ensures Bit(bits, j) == (Bit(bitmap[dword], j) || j < low) {
          HideBelow(bitmap[dword], from % 32, j);
        }
        if bits == ONES {
          forall j: nat | j < 32 ensures Bit(bits, j) { OnesBit(j); }
          WordUsed(bitmap[..], total, dword, low, 32);
        } else {
          var b := LowestClear(bits);
          WordUsed(bitmap[..], total, dword, low, b);
          var page := 32 * dword + b;
          ClearIsManaged(bitmap[..], total, dword, b);
          NextFreeIs(used, from, page);
          return Some(page);
        }
        dword := dword + 1;
      }
      return None;
    }

    /** The second loop: from the start up to the hint's word, pages at and
        after the hint hidden. */
    method FindBefore(from: nat) returns (r: Option<nat>)
      requires Valid() && from < total
      requires NextFree(Flags(bitmap[..], total), from).None?
      ensures r == NextFree(Flags(bitmap[..], total), 0)
    {
      ghost var used := Flags(bitmap[..], total);
      var last := from / 32;
      var dword := 0;
      while dword <= last
        invariant 0 <= dword <= last + 1
        invariant forall k :: 0 <= k < total && k < 32 * dword ==> used[k]
      {
        var bits := bitmap[dword];
        if dword == last {
          bits := OrWord(bits, Not(Mask(from % 32) - 1));
        }
        ghost var high := if dword == last then from % 32 else 32;
        forall j: nat | j < 32 ensures Bit(bits, j) == (Bit(bitmap[dword], j) || high <= j) {
          HideFrom(bitmap[dword], from % 32, j);
        }
        if bits == ONES {
          forall j: nat | j < 32 ensures Bit(bits, j) { OnesBit(j); }
          WordUsed(bitmap[..], total, dword, 0, high);
        } else {
          var b := LowestClear(bits);
          WordUsed(bitmap[..], total, dword, 0, b);
          var page := 32 * dword + b;
          ClearIsManaged(bitmap[..], total, dword, b);
          NextFreeIs(used, 0, page);
          return Some(page);
        }
        dword := dword + 1;
      }
      return None;
    }

    method AllocOne() returns (phys: nat)
      requires Valid()
      modifies this, bitmap
      ensures Valid()
      ensures (State(), phys) == Frames.AllocOne(old(State()))
    {
      if free == 0 {
        return 0;
      }
      if hint >= total {
        hint := 0;
      }
      var found := FindFrom(hint);
      if found.None? {
        found := FindBefore(hint);
        if found.None? {
          return 0;
        }
      }
      var page := found.value;
      SetPage(bitmap, page);
      free := Minus(free, 1);
      usedCount := (usedCount + 1) % WORD;
      hint := page + 1;
      if hint >= total {
        hint := 0;
      }
      phys := page * PAGE;
    }

    method Alloc(count: nat) returns (phys: nat)
      requires Valid()
      modifies this, bitmap
      ensures Valid()
      ensures (State(), phys) == Frames.Alloc(old(State()), count)
    {
      if count == 0 {
        return 0;
      }
      if count > free {
        return 0;
      }
      if count == 1 {
        phys := AllocOne();
        return;
      }
      var found, start, run := FindRun(bitmap, total, count);
      largest := run;
      if !found || start == 0 {
        return 0;
      }
      SetRun(bitmap, total, start, count);
      free := Minus(free, count);
      usedCount := (usedCount + count) % WORD;
      phys := start * PAGE;
    }

    /** The loop clears `phys + (i >> 12)`, which stays in the first page. */
    method Free(phys: nat, count: nat)
      requires Valid()
      modifies this, bitmap
      ensures Valid()
      ensures State() == Frames.Free(old(State()), phys, count)
    {
      if count == 0 {
        return;
      }
      if phys % PAGE != 0 {
        return;
      }
      var page := phys / PAGE;
      if page >= total || count > total - page {
        return;
      }
      ghost var was := State();
      for i := 0 to count
        invariant Valid() && State() == if i == 0 then was else was.(used := was.used[page := false])
      {
        assert (phys + i / PAGE) / PAGE == page;
        ClearPage(bitmap, (phys + i / PAGE) / PAGE);
      }
      free := (free + count) % WORD;
      usedCount := Minus(usedCount, count);
    }

    method MarkPage(page: nat, b: bool)
      requires Valid() && page < total
      modifies this, bitmap
      ensures Valid()
      ensures State() == MarkOne(old(State()), page, b)
    {
      var used := TestPage(bitmap, page);
      if used != b {
        if b {
          SetPage(bitmap, page);
          free := Minus(free, 1);
          usedCount := (usedCount + 1) % WORD;
        } else {
          ClearPage(bitmap, page);
          free := (free + 1) % WORD;
          usedCount := Minus(usedCount, 1);
        }
      }
    }

    /** `pmm_mark_used` (`b`) and `pmm_mark_free` (`!b`). */
    method MarkRange(phys: Word, size: Word, b: bool)
      requires Valid()
      modifies this, bitmap
      ensures Valid()
      ensures State() == Mark(old(State()), memoryEnd, phys, size, b)
    {
      if phys > memoryEnd {
        return;
      }
      var start, end := PageFloor(phys), PageFloor((phys + size + (PAGE - 1)) % WORD);
      FloorPage(phys);
      FloorPage((phys + size + (PAGE - 1)) % WORD);
      MarkBetween(start, end, phys / PAGE, (phys + size + (PAGE - 1)) % WORD / PAGE, b);
    }

    /** The loop of the mark functions, from page `first` to page `last`. */
    method MarkBetween(start: nat, end: nat, ghost first: nat, ghost last: nat, b: bool)
      requires Valid() && start == first * PAGE && end == last * PAGE
      modifies this, bitmap
      ensures Valid()
      ensures State() == MarkPages(old(State()), first, last, b)
    {
      var p := start;
      ghost var k, target := first, MarkPages(State(), first, last, b);
      while p < end
        invariant Valid() && p == k * PAGE
        invariant MarkPages(State(), k, last, b) == target
        decreases end - p
      {
        MarkNext(p, k, last, b);
        p, k := p + PAGE, k + 1;
      }
    }

    /** One page of the range. */
    method MarkNext(p: nat, ghost k: nat, ghost last: nat, b: bool)
      requires Valid() && p == k * PAGE && k < last
      modifies this, bitmap
      ensures Valid()
      ensures MarkPages(State(), k + 1, last, b) == MarkPages(old(State()), k, last, b)
    {
      assert p / PAGE == k;
      var page := p / PAGE;
      if page < total {
        MarkPage(page, b);
      }
    }
  }

  lemma FloorPage(x: nat)
    ensures PageFloor(x) == x / PAGE * PAGE
  {
  }

  /** Bits `low` to `high` of word `dword` set: those pages are used. */
  lemma WordUsed(words: seq<Word>, total: nat, dword: nat, low: nat, high: nat)
    requires total <= 32 * |words| && dword < |words| && high <= 32
    requires forall j: nat :: low <= j < high ==> Bit(words[dword], j)
    ensures forall k :: 32 * dword + low <= k < 32 * dword + high && k < total ==> Flags(words, total)[k]
  {
    forall k | 32 * dword + low <= k < 32 * dword + high && k < total ensures Flags(words, total)[k] {
      WordFlags(words, total, dword, k - 32 * dword);
    }
  }


  /** With the bits past `total` set, a clear bit is a managed free page. */
  lemma ClearIsManaged(words: seq<Word>, total: nat, dword: nat, b: nat)
    requires total <= 32 * |words| && dword < |words| && b < 32 && !Bit(words[dword], b)
    requires forall q: nat :: total <= q < 32 * |words| ==> UsedPage(words, q)
    ensures 32 * dword + b < total && !Flags(words, total)[32 * dword + b]
  {
    var p := 32 * dword + b;
    assert p / 32 == dword && p % 32 == b;
    assert !UsedPage(words, p);
  }
}

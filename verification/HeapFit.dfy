/** Which block `heap_alloc` (kheap.c) takes and what becomes of it: first fit over
    the regions of the requested kind, and only without a fit a new region. */
module HeapFit {
  import opened Words
  import opened PageWalk
  import opened Memory
  import opened Layout
  import opened KernelHeap

  /** Block `j` of region `i` is free, large enough and of the requested kind. */
  predicate Fits(h: seq<Region>, n: nat, contiguous: bool, i: nat, j: nat)
  {
    && i < |h| && h[i].contiguous == contiguous
    && j < |h[i].blocks| && !h[i].blocks[j].used && h[i].blocks[j].size >= n
  }

  /** It is the first such block, regions and blocks in list order. */
  ghost predicate FirstFits(h: seq<Region>, n: nat, contiguous: bool, i: nat, j: nat)
  {
    && Fits(h, n, contiguous, i, j)
    && (forall k: nat, l: nat :: k < i ==> !Fits(h, n, contiguous, k, l))
    && (forall l: nat :: l < j ==> !Fits(h, n, contiguous, i, l))
  }

  ghost predicate NoneFits(h: seq<Region>, n: nat, contiguous: bool)
  {
    forall i: nat, j: nat :: !Fits(h, n, contiguous, i, j)
  }

  lemma {:induction false} SearchFrom(h: seq<Region>, n: nat, contiguous: bool, i: nat)
    ensures match FindFree(h, n, contiguous, i)
      case Some((k, l)) =>
        && i <= k && Fits(h, n, contiguous, k, l)
        && (forall a: nat, b: nat :: i <= a < k ==> !Fits(h, n, contiguous, a, b))
        && (forall b: nat :: b < l ==> !Fits(h, n, contiguous, k, b))
      case None => forall a: nat, b: nat :: i <= a ==> !Fits(h, n, contiguous, a, b)
    decreases |h| - i
  {
    if i < |h| {
      SearchFrom(h, n, contiguous, i + 1);
    }
  }

  /** `block_find_free` finds the first fitting block, or there is none. */
  lemma FindFreeIs(h: seq<Region>, n: nat, contiguous: bool)
    ensures match FindFree(h, n, contiguous, 0)
      case Some((i, j)) => FirstFits(h, n, contiguous, i, j)
      case None => NoneFits(h, n, contiguous)
  {
    SearchFrom(h, n, contiguous, 0);
  }

  lemma FirstFitsUnique(h: seq<Region>, n: nat, contiguous: bool, i: nat, j: nat, k: nat, l: nat)
    requires FirstFits(h, n, contiguous, i, j) && FirstFits(h, n, contiguous, k, l)
    ensures i == k && j == l
  {
  }

  /** `bs` with block `j` handed out for `n` bytes: cut down to `n` bytes when a header
      and 16 bytes remain behind it, else whole. */
  predicate Carved(bs: seq<Block>, cs: seq<Block>, j: nat, n: nat)
    requires j < |bs|
  {
    var b := bs[j];
    if b.size >= n + 32 then
      && |cs| == |bs| + 1 && cs[..j] == bs[..j] && cs[j + 2..] == bs[j + 1..]
      && cs[j] == Block(b.addr, n, true) && cs[j + 1] == Block(b.addr + 16 + n, b.size - 16 - n, false)
    else
      |cs| == |bs| && cs[..j] == bs[..j] && cs[j + 1..] == bs[j + 1..] && cs[j] == Block(b.addr, b.size, true)
  }

  lemma TakeCarves(bs: seq<Block>, j: nat, n: nat)
    requires j < |bs| && !bs[j].used && n <= bs[j].size
    ensures Carved(bs, Take(bs, j, n), j, n)
  {
  }

  /** With a fitting block: nothing is asked of the VMM, the result is the memory of
      the first fitting block, and only that block changes. */
  lemma AllocFits(s: Sys, size: Word, contiguous: bool, i: nat, j: nat)
    requires size > 0 && FirstFits(s.heap, Align16(size), contiguous, i, j)
    ensures var (t, ptr) := HeapAlloc(s, size, contiguous);
      && t.mem == s.mem && ptr == s.heap[i].blocks[j].addr + 16
      && |t.heap| == |s.heap| && (forall k :: 0 <= k < |s.heap| && k != i ==> t.heap[k] == s.heap[k])
      && t.heap[i] == s.heap[i].(blocks := t.heap[i].blocks)
      && Carved(s.heap[i].blocks, t.heap[i].blocks, j, Align16(size))
  {
    var n := Align16(size);
    FindFreeIs(s.heap, n, contiguous);
    assert FindFree(s.heap, n, contiguous, 0).Some? by { assert Fits(s.heap, n, contiguous, i, j); }
    var (k, l) := FindFree(s.heap, n, contiguous, 0).value;
    FirstFitsUnique(s.heap, n, contiguous, i, j, k, l);
    TakeCarves(s.heap[i].blocks, j, n);
  }

  /** The fewest pages, but at least 16, that hold `n` bytes and the two headers. */
  predicate RegionPages(pages: nat, n: nat)
  {
    pages >= 16 && pages * PAGE >= n + 48 && (pages > 16 ==> (pages - 1) * PAGE < n + 48)
  }

  lemma GrowPagesIs(pages: nat, n: nat)
    requires RegionPages(pages, n) && n + 48 + PAGE <= WORD
    ensures GrowPages(n) == pages
  {
    var q := (n + 48 + (PAGE - 1)) / PAGE;
    assert (n + 48 + (PAGE - 1)) % WORD == n + 48 + (PAGE - 1);
    if pages > 16 { assert q == pages; }
  }

  /** The region at the end of the list after `n` bytes were cut from it. */
  predicate Grown(r: Region, base: nat, pages: nat, n: nat, contiguous: bool)
  {
    && r.base == base && r.size == pages * PAGE && r.contiguous == contiguous
    && pages * PAGE >= n + 48
    && Carved([Block(base + 32, pages * PAGE - 48, false)], r.blocks, 0, n)
  }

  /** Without a fitting block: the VMM is asked once, for the fewest pages that will
      do; its failure leaves the regions alone, its success puts one new region at the
      end of the list and hands out its first bytes. */
  lemma AllocGrows(s: Sys, size: Word, contiguous: bool, pages: nat)
    requires 0 < size <= MAX_REQUEST && NoneFits(s.heap, Align16(size), contiguous)
    requires RegionPages(pages, Align16(size))
    ensures var (t, ptr) := HeapAlloc(s, size, contiguous);
      var (m, base) := if contiguous then AllocContiguous(s.mem, pages) else Memory.Alloc(s.mem, pages);
      && t.mem == m
      && (base == 0 ==> ptr == 0 && t.heap == s.heap)
      && (base != 0 ==>
            && ptr == base + 48 && |t.heap| == |s.heap| + 1 && t.heap[..|s.heap|] == s.heap
            && Grown(t.heap[|s.heap|], base, pages, Align16(size), contiguous))
  {
    var n := Align16(size);
    FindFreeIs(s.heap, n, contiguous);
    GrowFits(size);
    GrowPagesIs(pages, n);
    var (m, base) := Obtain(s.mem, pages, contiguous);
    if base != 0 {
      TakeCarves(NewRegion(base, pages, contiguous).blocks, 0, n);
    }
  }

  /** `heap_alloc` asks the VMM for pages if and only if nothing fits. */
  lemma AllocGrowsIff(s: Sys, size: Word, contiguous: bool)
    requires SysInv(s) && 0 < size <= MAX_REQUEST && HeapAlloc(s, size, contiguous).1 != 0
    ensures |HeapAlloc(s, size, contiguous).0.heap| > |s.heap| <==> NoneFits(s.heap, Align16(size), contiguous)
  {
    FindFreeIs(s.heap, Align16(size), contiguous);
    if NoneFits(s.heap, Align16(size), contiguous) {
      GrowFits(size);
      SizedPages(size);
      AllocGrows(s, size, contiguous, GrowPages(Align16(size)));
    }
  }

  lemma SizedPages(size: Word)
    requires 0 < size <= MAX_REQUEST
    ensures RegionPages(GrowPages(Align16(size)), Align16(size))
  {
    var x := Align16(size) + 48 + (PAGE - 1);
    assert x < WORD;
    assert x / PAGE * PAGE <= x < x / PAGE * PAGE + PAGE;
  }
}

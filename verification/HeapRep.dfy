/** When the headers in memory represent a list of regions, and that an edit
    inside one region leaves the others represented. */
module HeapRep {
  import opened Links
  import opened Memory
  import opened Layout
  import opened KernelHeap
  import opened HeapNodes

  const CONTIGUOUS: nat := 2

  /** The region headers. */
  datatype Regions = Regions(links: Fields, size: Field, flags: Field, head: Field, tail: Field)
  {
    function EndsOf(region: nat): Ends { Ends(Get(head, region), Get(tail, region)) }
  }

  function Bases(h: seq<Region>): (s: seq<nat>)
    ensures |s| == |h| && forall i :: 0 <= i < |h| ==> s[i] == h[i].base
  {
    seq(|h|, i requires 0 <= i < |h| => h[i].base)
  }

  ghost predicate RegionRep(rm: Regions, bm: Blocks, r: Region)
  {
    && Get(rm.size, r.base) == r.size
    && Get(rm.flags, r.base) == (if r.contiguous then CONTIGUOUS else 0)
    && BlocksRep(bm, rm.EndsOf(r.base), r.blocks)
  }

  /** Every region of `h` up to index `n` is represented. */
  ghost predicate RegionsRep(rm: Regions, bm: Blocks, h: seq<Region>, n: nat)
    requires n <= |h|
  {
    n == 0 || (RegionRep(rm, bm, h[n - 1]) && RegionsRep(rm, bm, h, n - 1))
  }

  ghost predicate HeapRep(rm: Regions, bm: Blocks, e: Ends, h: seq<Region>)
  {
    Linked(rm.links, e, Bases(h)) && RegionsRep(rm, bm, h, |h|)
  }

  lemma {:induction false} RegionAt(rm: Regions, bm: Blocks, h: seq<Region>, n: nat, i: nat)
    requires n <= |h| && RegionsRep(rm, bm, h, n) && i < n
    ensures RegionRep(rm, bm, h[i])
  {
    if i < n - 1 { RegionAt(rm, bm, h, n - 1, i); }
  }

  lemma {:induction false} RegionsIntro(rm: Regions, bm: Blocks, h: seq<Region>, n: nat)
    requires n <= |h| && forall i :: 0 <= i < n ==> RegionRep(rm, bm, h[i])
    ensures RegionsRep(rm, bm, h, n)
  {
    if n > 0 { RegionsIntro(rm, bm, h, n - 1); }
  }

  /** The regions are apart, and the blocks of each tile it. */
  ghost predicate Tiled(h: seq<Region>)
  {
    && (forall i :: 0 <= i < |h| ==> h[i].base > 0 && Tiles(h[i].blocks, h[i].base + REGION, h[i].base + h[i].size))
    && (forall i :: 0 <= i < |h| ==> h[i].blocks != [])
    && AllApart(h)
  }

  lemma OkTiled(m: Mem, h: seq<Region>)
    requires HeapOk(m, h)
    ensures Tiled(h)
  {
    forall i | 0 <= i < |h|
      ensures h[i].base > 0 && Tiles(h[i].blocks, h[i].base + REGION, h[i].base + h[i].size) && h[i].blocks != []
    {
      assert RegionOk(h[i]);
    }
  }

  ghost predicate SameRegionHeader(rm: Regions, rm': Regions, a: nat)
  {
    && Get(rm.size, a) == Get(rm'.size, a) && Get(rm.flags, a) == Get(rm'.flags, a)
    && rm.EndsOf(a) == rm'.EndsOf(a)
  }

  /** No region header but that at `region` changes. */
  ghost predicate OthersSame(rm: Regions, rm': Regions, region: nat)
  {
    rm'.links == rm.links && forall a :: a != region ==> SameRegionHeader(rm, rm', a)
  }

  /** Nothing but the header and the links of `region` changes. */
  ghost predicate OnlyRegion(rm: Regions, rm': Regions, region: nat)
  {
    forall a :: a != region ==>
      SameRegionHeader(rm, rm', a) && rm.links.Next(a) == rm'.links.Next(a) && rm.links.Prev(a) == rm'.links.Prev(a)
  }

  lemma OthersSameTwice(r0: Regions, r1: Regions, r2: Regions, region: nat)
    requires OthersSame(r0, r1, region) && OthersSame(r1, r2, region)
    ensures OthersSame(r0, r2, region)
  {
    forall a | a != region ensures SameRegionHeader(r0, r2, a) {
      assert SameRegionHeader(r0, r1, a) && SameRegionHeader(r1, r2, a);
    }
  }

  /** Block headers change at most inside `[from, end)`. */
  ghost predicate BlocksSameOutside(bm: Blocks, bm': Blocks, from: nat, end: nat)
  {
    forall a: nat :: !(from <= a < end) ==> SameHeader(bm, bm', a)
  }

  lemma RegionRepFrame(rm: Regions, rm': Regions, bm: Blocks, bm': Blocks, r: Region, from: nat, end: nat)
    requires RegionRep(rm, bm, r) && SameRegionHeader(rm, rm', r.base) && BlocksSameOutside(bm, bm', from, end)
    requires Tiles(r.blocks, r.base + REGION, r.base + r.size) && (end <= r.base || r.base + r.size <= from)
    ensures RegionRep(rm', bm', r)
  {
    forall i | 0 <= i < |r.blocks| ensures SameHeader(bm, bm', r.blocks[i].addr) {
      TilesAt(r.blocks, r.base + REGION, r.base + r.size, i);
    }
    BlocksRepFrame(bm, bm', rm.EndsOf(r.base), r.blocks);
  }

  /** Region `i` edited: the heap is represented if the new region is. */
  lemma EditRegion(rm: Regions, rm': Regions, bm: Blocks, bm': Blocks, e: Ends, h: seq<Region>, i: nat, r: Region)
    requires HeapRep(rm, bm, e, h) && Tiled(h) && i < |h| && r.base == h[i].base
    requires RegionRep(rm', bm', r) && OthersSame(rm, rm', r.base)
    requires BlocksSameOutside(bm, bm', h[i].base, h[i].base + h[i].size)
    ensures HeapRep(rm', bm', e, h[i := r])
  {
    var g := h[i := r];
    assert Bases(g) == Bases(h);
    forall k | 0 <= k < |g| ensures RegionRep(rm', bm', g[k]) {
      if k != i {
        RegionAt(rm, bm, h, |h|, k);
        KeptRegion(rm, rm', bm, bm', h, i, k);
      }
    }
    RegionsIntro(rm', bm', g, |g|);
  }

  lemma KeptRegion(rm: Regions, rm': Regions, bm: Blocks, bm': Blocks, h: seq<Region>, i: nat, k: nat)
    requires Tiled(h) && i < |h| && k < |h| && i != k && RegionRep(rm, bm, h[k])
    requires forall a :: a != h[i].base ==> SameRegionHeader(rm, rm', a)
    requires BlocksSameOutside(bm, bm', h[i].base, h[i].base + h[i].size)
    ensures RegionRep(rm', bm', h[k])
  {
    BasesDistinct(h, i, k);
    RegionRepFrame(rm, rm', bm, bm', h[k], h[i].base, h[i].base + h[i].size);
  }

  lemma BasesDistinct(h: seq<Region>, i: nat, k: nat)
    requires Tiled(h) && i < |h| && k < |h| && i != k
    ensures h[i].base != h[k].base && Apart(h[i], h[k])
  {
    TilesAt(h[i].blocks, h[i].base + REGION, h[i].base + h[i].size, 0);
    TilesAt(h[k].blocks, h[k].base + REGION, h[k].base + h[k].size, 0);
    if i < k { assert Apart(h[i], h[k]); } else { assert Apart(h[k], h[i]); }
  }

  /** Headers written inside a fresh region leave the heap represented. */
  lemma FreshRegion(rm: Regions, rm': Regions, bm: Blocks, bm': Blocks, e: Ends, h: seq<Region>, r: Region)
    requires HeapRep(rm, bm, e, h) && Tiled(h + [r])
    requires OnlyRegion(rm, rm', r.base)
    requires BlocksSameOutside(bm, bm', r.base, r.base + r.size)
    ensures HeapRep(rm', bm', e, h) && r.base !in Bases(h)
  {
    var g := h + [r];
    forall k | 0 <= k < |h| ensures RegionRep(rm', bm', h[k]) && h[k].base != r.base {
      assert g[k] == h[k] && g[|h|] == r;
      RegionAt(rm, bm, h, |h|, k);
      KeptRegion(rm, rm', bm, bm', g, |h|, k);
      BasesDistinct(g, |h|, k);
    }
    RegionsIntro(rm', bm', h, |h|);
    forall a | a in Bases(h) ensures a != r.base {
      var k :| 0 <= k < |h| && Bases(h)[k] == a;
    }
    assert SameOn(rm.links, rm'.links, Bases(h));
    LinkedFrame(rm.links, rm'.links, e, Bases(h));
  }

  lemma AppendRep(rm: Regions, bm: Blocks, e: Ends, h: seq<Region>, r: Region)
    requires HeapRep(rm, bm, e, h) && RegionRep(rm, bm, r) && r.base != 0 && r.base !in Bases(h)
    ensures var (f, d) := Append(rm.links, e, r.base); HeapRep(rm.(links := f), bm, d, h + [r])
  {
    var g := h + [r];
    var (f, d) := Append(rm.links, e, r.base);
    AppendLinked(rm.links, e, Bases(h), r.base);
    assert Bases(g) == Bases(h) + [r.base];
    forall k | 0 <= k < |g| ensures RegionRep(rm.(links := f), bm, g[k]) {
      if k < |h| { RegionAt(rm, bm, h, |h|, k); }
    }
    RegionsIntro(rm.(links := f), bm, g, |g|);
  }

  lemma RemoveRep(rm: Regions, bm: Blocks, e: Ends, h: seq<Region>, i: nat)
    requires HeapRep(rm, bm, e, h) && i < |h|
    ensures var (f, d) := Remove(rm.links, e, h[i].base); HeapRep(rm.(links := f), bm, d, h[..i] + h[i + 1..])
  {
    var g := h[..i] + h[i + 1..];
    var (f, d) := Remove(rm.links, e, h[i].base);
    RemoveLinked(rm.links, e, Bases(h), i);
    assert Bases(g) == Bases(h)[..i] + Bases(h)[i + 1..];
    forall k | 0 <= k < |g| ensures RegionRep(rm.(links := f), bm, g[k]) {
      RegionAt(rm, bm, h, |h|, if k < i then k else k + 1);
    }
    RegionsIntro(rm.(links := f), bm, g, |g|);
  }

  /** Where a walk along the regions stands. */
  function BaseAt(h: seq<Region>, i: nat): nat
  {
    if i < |h| then h[i].base else 0
  }

  lemma RegionCursor(f: Fields, e: Ends, h: seq<Region>, i: nat)
    requires Linked(f, e, Bases(h)) && i <= |h|
    ensures e.head == BaseAt(h, 0)
    ensures BaseAt(h, i) == 0 <==> i == |h|
    ensures i < |h| ==> f.Next(h[i].base) == BaseAt(h, i + 1)
  {
    LinkedIs(f, e, Bases(h));
    if i < |h| {
      assert Bases(h)[i] in Bases(h);
      if i + 1 < |h| { assert After(Bases(h), i) == h[i + 1].base; }
    }
  }
}

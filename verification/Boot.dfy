/** The memory the kernel starts with (entry.asm, mminit.c): what is mapped and
    what is marked used when the heap comes up. */
module Boot {
  import opened Words
  import opened Bitmap
  import opened Frames
  import opened PageWalk
  import opened Memory
  import opened Kinit
  import opened MemoryMap

  /** Pages of the kernel's range, 0xC0000000 to 0xFFC00000. */
  const KPAGES: nat := 0x3_FC00

  /** Page of the kernel image, at 1 MB: the number of pages below it. */
  const KPHYS: nat := 256

  // ---- the page map at entry ----

  datatype Section = Section(first: nat, count: nat)
  {
    function End(): nat { first + count }
  }

  /** The image in physical pages: the boot section, which runs at its physical
      address, then the sections of the kernel proper. */
  datatype Image = Image(boot: Section, text: Section, rodata: Section, data: Section, bss: Section, end: nat)

  /** The sections follow each other, and 1 MB for the boot allocator fits. */
  predicate ImageOk(i: Image)
  {
    && i.boot.first == KPHYS && i.boot.End() <= i.text.first && i.text.End() <= i.rodata.first
    && i.rodata.End() <= i.data.first && i.data.End() <= i.bss.first && i.bss.End() <= i.end
    && i.end + 256 <= KPAGES
  }

  /** The directory and the page tables are part of the kernel's data. */
  predicate TablesInside(i: Image, root: nat)
  {
    i.bss.first <= root && root + 1025 <= i.bss.End()
  }

  function MapKernel(pages: map<nat, nat>, s: Section, flags: nat): map<nat, nat>
  {
    MapRange(pages, KV + s.first, s.first, flags, s.count)
  }

  /** The read-only part of the upper half, above the first megabyte without page 0. */
  function CodePages(i: Image): map<nat, nat>
  {
    MapKernel(MapKernel(MapKernel(map[], Section(1, KPHYS - 1), RW), i.text, 0), i.rodata, 0)
  }

  /** The mappings of entry.asm: that, the data sections, and the boot section
      where it is. */
  function EntryPages(i: Image): map<nat, nat>
  {
    MapRange(MapKernel(MapKernel(CodePages(i), i.data, RW), i.bss, RW), i.boot.first, i.boot.first, 0, i.boot.count)
  }

  /** Physical page of virtual page `v` under the kernel's fixed offset. */
  function Direct(v: nat): nat
  {
    if v >= KV then v - KV else v
  }

  /** Page `v` has its direct frame, one of the first `n` and not 0; pages below
      the upper half belong to the boot section, whose frames are not mapped above. */
  ghost predicate DirectPage(v: nat, frame: nat, boot: Section, n: nat)
  {
    && frame == Direct(v) && 0 < frame < n
    && (v < KV <==> boot.first <= frame < boot.End())
  }

  ghost predicate DirectMap(pages: map<nat, nat>, boot: Section, n: nat)
  {
    && boot.End() <= n <= KPAGES
    && forall v :: v in pages ==> DirectPage(v, FrameOf(pages[v]), boot, n)
  }

  lemma DirectEntry(v: nat, k: nat, flags: nat)
    requires v <= k && Direct(k) == Direct(v) + (k - v) && Direct(k) < FRAMES
    ensures FrameOf(Pte(Direct(v) + (k - v), flags)) == Direct(k)
  {
    assert Direct(k) % FRAMES == Direct(k);
  }

  lemma DirectRange(pages: map<nat, nat>, boot: Section, n: nat, v: nat, count: nat, flags: nat, n': nat)
    requires DirectMap(pages, boot, n) && n <= n' <= KPAGES
    requires v < KV ==> v + count <= KV
    requires forall k: nat :: v <= k < v + count ==> DirectPage(k, Direct(k), boot, n')
    ensures DirectMap(MapRange(pages, v, Direct(v), flags, count), boot, n')
  {
    MapRangeIs(pages, v, Direct(v), flags, count);
    var r := MapRange(pages, v, Direct(v), flags, count);
    forall k | k in r ensures DirectPage(k, FrameOf(r[k]), boot, n') {
      if v <= k < v + count {
        assert DirectPage(k, Direct(k), boot, n');
        DirectEntry(v, k, flags);
        MapRangeAt(pages, v, Direct(v), flags, count, k);
      } else {
        assert k in pages && r[k] == pages[k];
        assert DirectPage(k, FrameOf(pages[k]), boot, n);
      }
    }
  }

  lemma DirectKernel(pages: map<nat, nat>, boot: Section, n: nat, s: Section, flags: nat)
    requires DirectMap(pages, boot, n) && s.End() <= n && s.first > 0 &&
      (s.End() <= boot.first || boot.End() <= s.first)
    ensures DirectMap(MapKernel(pages, s, flags), boot, n)
  {
    DirectRange(pages, boot, n, KV + s.first, s.count, flags, n);
  }

  lemma EntryDirect(i: Image)
    requires ImageOk(i)
    ensures DirectMap(EntryPages(i), i.boot, i.end)
  {
    var n := i.end;
    DirectKernel(map[], i.boot, n, Section(1, KPHYS - 1), RW);
    var low := MapKernel(map[], Section(1, KPHYS - 1), RW);
    DirectKernel(low, i.boot, n, i.text, 0);
    DirectKernel(MapKernel(low, i.text, 0), i.boot, n, i.rodata, 0);
    var code := CodePages(i);
    DirectKernel(code, i.boot, n, i.data, RW);
    DirectKernel(MapKernel(code, i.data, RW), i.boot, n, i.bss, RW);
    DirectRange(MapKernel(MapKernel(code, i.data, RW), i.bss, RW), i.boot, n, i.boot.first, i.boot.count, 0, n);
  }

  /** Virtual page `v` belongs to a section of the kernel, or to the first megabyte. */
  predicate InImage(i: Image, v: nat)
  {
    || Inside(Section(1, KPHYS - 1), KV, v) || Inside(i.text, KV, v) || Inside(i.rodata, KV, v)
    || Inside(i.data, KV, v) || Inside(i.bss, KV, v) || Inside(i.boot, 0, v)
  }

  predicate Inside(s: Section, offset: nat, v: nat)
  {
    offset + s.first <= v < offset + s.End()
  }

  /** Whether page `v` is mapped, and then for writing. */
  ghost predicate Shows(pages: map<nat, nat>, v: nat, mapped: bool, write: bool)
  {
    (v in pages <==> mapped) && (v in pages ==> (Writable(pages[v]) <==> write))
  }

  lemma SectionShows(pages: map<nat, nat>, offset: nat, s: Section, flags: nat, v: nat, mapped: bool, write: bool)
    requires flags == 0 || flags == RW
    requires Shows(pages, v, mapped, write)
    ensures var inside := Inside(s, offset, v);
      Shows(MapRange(pages, offset + s.first, s.first, flags, s.count), v,
            mapped || inside, if inside then flags == RW else write)
  {
    MapRangeIs(pages, offset + s.first, s.first, flags, s.count);
    if Inside(s, offset, v) {
      MapRangeAt(pages, offset + s.first, s.first, flags, s.count, v);
      PteWrite(s.first + (v - (offset + s.first)), flags);
    }
  }

  /** The read-only part: first megabyte, text and read-only data. */
  lemma CodeShows(i: Image, v: nat)
    requires ImageOk(i)
    ensures var low := Inside(Section(1, KPHYS - 1), KV, v);
      Shows(CodePages(i), v, low || Inside(i.text, KV, v) || Inside(i.rodata, KV, v), low)
  {
    var low := Section(1, KPHYS - 1);
    SectionShows(map[], KV, low, RW, v, false, false);
    var m1, in1 := MapKernel(map[], low, RW), Inside(low, KV, v);
    SectionShows(m1, KV, i.text, 0, v, in1, in1);
    var m2, in2 := MapKernel(m1, i.text, 0), in1 || Inside(i.text, KV, v);
    SectionShows(m2, KV, i.rodata, 0, v, in2, in1);
  }

  /** The entry code maps exactly the pages of the image, and for writing exactly the
      first megabyte, the data and the zeroed data. */
  lemma EntryExact(i: Image, v: nat)
    requires ImageOk(i)
    ensures Shows(EntryPages(i), v, InImage(i, v),
      Inside(Section(1, KPHYS - 1), KV, v) || Inside(i.data, KV, v) || Inside(i.bss, KV, v))
  {
    var low := Inside(Section(1, KPHYS - 1), KV, v);
    var in1 := low || Inside(i.text, KV, v) || Inside(i.rodata, KV, v);
    CodeShows(i, v);
    SectionShows(CodePages(i), KV, i.data, RW, v, in1, low);
    var m2, in2 := MapKernel(CodePages(i), i.data, RW), in1 || Inside(i.data, KV, v);
    SectionShows(m2, KV, i.bss, RW, v, in2, low || Inside(i.data, KV, v));
    var m3, in3 := MapKernel(m2, i.bss, RW), in2 || Inside(i.bss, KV, v);
    SectionShows(m3, 0, i.boot, 0, v, in3, low || Inside(i.data, KV, v) || Inside(i.bss, KV, v));
  }

  // ---- the boot allocator's share ----

  /** A bitmap of `total` bits in whole 32-bit words, in bytes. */
  function BitmapSize(total: nat): nat
  {
    WordsFor(total) * 4
  }

  function Arena(i: Image): Bump
    requires ImageOk(i)
  {
    Bump((KV + i.end) * PAGE, (KV + i.end) * PAGE, 0x10_0000, true)
  }

  /** The two bitmaps: where they lie and what is mapped then. */
  datatype Bitmaps = Bitmaps(pool: nat, space: nat, arena: Bump, pages: map<nat, nat>)

  lemma ArenaOk(i: Image)
    requires ImageOk(i)
    ensures BumpOk(Arena(i)) && Arena(i).next % 16 == 0
  {
    assert Arena(i).base == 16 * (256 * (KV + i.end));
  }

  lemma BitmapFits(regions: seq<PhysRegion>)
    ensures BitmapSize(TotalPages(regions)) <= 0x2_0000 && BitmapSize(TotalPages(regions)) % 4 == 0
    ensures BitmapSize(KPAGES) == 32640
  {
    TotalBound(regions);
    WordsBound(TotalPages(regions));
  }

  lemma TotalBound(regions: seq<PhysRegion>)
    ensures TotalPages(regions) < 0x10_0000
  {
  }

  lemma WordsBound(total: nat)
    requires total < 0x10_0000
    ensures WordsFor(total) <= 0x8000
  {
  }

  function TakeBitmaps(i: Image, regions: seq<PhysRegion>): (r: Bitmaps)
    requires ImageOk(i)
    ensures r.pool >= KV * PAGE && r.space >= KV * PAGE
    ensures BumpOk(r.arena) && r.arena.base == Arena(i).base
    ensures r.pool + BitmapSize(TotalPages(regions)) <= r.space && r.space + BitmapSize(KPAGES) == r.arena.next
    ensures Arena(i).base <= r.pool && r.pool % 16 == 0 && r.space % 16 == 0
    ensures r.pages ==
      MapTaken(MapTaken(EntryPages(i), r.pool, BitmapSize(TotalPages(regions))), r.space, BitmapSize(KPAGES))
  {
    ArenaOk(i); BitmapFits(regions);
    TakeOk(Arena(i), BitmapSize(TotalPages(regions)));
    var (b, p) := Take(Arena(i), BitmapSize(TotalPages(regions)));
    TakeOk(b, BitmapSize(KPAGES));
    var (c, q) := Take(b, BitmapSize(KPAGES));
    AlignBump(Arena(i).next); AlignBump(b.next);
    assert p != 0 && q != 0;
    Bitmaps(p, q, c,
      MapTaken(MapTaken(EntryPages(i), p, BitmapSize(TotalPages(regions))), q, BitmapSize(KPAGES)))
  }

  /** Pages of the boot allocator's allocations. */
  function ArenaPages(i: Image, regions: seq<PhysRegion>): (n: nat)
    requires ImageOk(i)
  {
    AlignPage(TakeBitmaps(i, regions).arena.next - Arena(i).base) / PAGE
  }

  /** The first physical page that is not the kernel's. */
  function KernelEnd(i: Image, regions: seq<PhysRegion>): nat
    requires ImageOk(i)
  {
    i.end + ArenaPages(i, regions)
  }

  lemma ArenaBound(i: Image, regions: seq<PhysRegion>)
    requires ImageOk(i)
    ensures ArenaPages(i, regions) <= 256 && KernelEnd(i, regions) <= KPAGES
    ensures (KV + KernelEnd(i, regions)) * PAGE >= TakeBitmaps(i, regions).arena.next
  {
    AlignedPages(TakeBitmaps(i, regions).arena.next - Arena(i).base);
  }

  lemma AlignedPages(x: nat)
    requires x <= 0x10_0000
    ensures AlignPage(x) / PAGE <= 256 && AlignPage(x) / PAGE * PAGE >= x
  {
  }

  // ---- mminit ----

  function BootPool(i: Image, regions: seq<PhysRegion>): Pool
    requires ImageOk(i)
  {
    ArenaBound(i, regions);
    MarkThree(Frames.Init(regions), MemoryEnd(regions), KPHYS, i.end, KernelEnd(i, regions))
  }

  function ArenaSize(i: Image, regions: seq<PhysRegion>): (n: Word)
    requires ImageOk(i)
    ensures n == ArenaPages(i, regions) * PAGE
  {
    AlignPage(TakeBitmaps(i, regions).arena.next - Arena(i).base)
  }

  function ImageSpace(i: Image): Space
  {
    MarkUsed(MarkUsed(Memory.Init(KV, KPAGES), KV, KV + KPHYS), KV + KPHYS, KV + i.end)
  }

  function BootSpace(i: Image, regions: seq<PhysRegion>): Space
    requires ImageOk(i)
  {
    MarkUsed(ImageSpace(i), KV + i.end, KV + KernelEnd(i, regions))
  }

  /** The state `mminit` leaves. */
  function MmInit(i: Image, regions: seq<PhysRegion>): Mem
    requires ImageOk(i)
  {
    Mem(BootPool(i, regions), BootSpace(i, regions), TakeBitmaps(i, regions).pages)
  }
}

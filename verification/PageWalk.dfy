/** Two-level paging as the 80386 performs it (section 5.2 of the Intel 80386
    Programmer's Reference Manual), on a page directory followed by all 1024
    page tables in one contiguous block of physical memory, and the recursive
    window at 0xFFC00000 through which the kernel edits that block. */
module PageWalk {
  import opened Words

  /** Words of the directory and the tables. */
  const TABLE_WORDS: nat := 1025 * 1024

  /** Pages below the window at 0xFFC00000. */
  const WINDOW: nat := 0xFFC00
  const FRAMES: nat := 0x10_0000

  const RW: nat := 2

  type Tables = t: seq<Word> | |t| == 1025 * 1024 witness seq(1025 * 1024, _ => 0)

  predicate Present(entry: nat)
  {
    entry % 2 == 1
  }

  /** The write-enable bit. */
  predicate Writable(entry: nat)
  {
    entry / 2 % 2 == 1
  }

  function FrameOf(entry: nat): nat
  {
    entry / PAGE
  }

  /** The word at entry `e` of frame `f`, when that frame holds the directory
      or a table. */
  function Slot(root: nat, f: nat, e: nat): (r: Option<nat>)
    requires e < 1024
    ensures r.Some? ==> r.value < TABLE_WORDS
  {
    if root <= f < root + 1025 then Some((f - root) * 1024 + e) else None
  }

  /** The processor's walk from a directory in frame `root`. */
  function Translate(t: Tables, root: nat, va: Word): Option<nat>
  {
    var pde := t[va / 0x40_0000];
    if !Present(pde) then None else
    var s := Slot(root, FrameOf(pde), va / PAGE % 1024);
    if s.None? || !Present(t[s.value]) then None
    else Some(FrameOf(t[s.value]) * PAGE + va % PAGE)
  }

  /** The word of the block that a kernel pointer reaches. */
  function Deref(t: Tables, root: nat, va: Word): (r: Option<nat>)
    ensures r.Some? ==> r.value < TABLE_WORDS
  {
    match Translate(t, root, va)
    case None => None
    case Some(pa) =>
      if root * PAGE <= pa < (root + 1025) * PAGE then Some((pa - root * PAGE) / 4) else None
  }

  /** `pg_loc_pde` */
  function LocPde(va: Word): Word
  {
    0xFFFF_F000 + va / 0x40_0000 * 4
  }

  /** `pg_loc_pte` */
  function LocPte(va: Word): Word
  {
    0xFFC0_0000 + PageFloor(va / 1024) + va / PAGE % 1024 * 4
  }

  /** The table entry of page `v`. */
  function Entry(t: Tables, v: nat): Word
    requires v < FRAMES
  {
    t[1024 + v]
  }

  /** The directory maps itself last, every other present entry leads to its
      own table, all of them writable, and a table behind an absent entry is empty. */
  ghost predicate TablesOk(t: Tables, root: nat)
  {
    && root + 1025 <= FRAMES
    && Present(t[1023]) && FrameOf(t[1023]) == root
    && (forall j :: 0 <= j < 1024 && Present(t[j]) ==> Writable(t[j]))
    && (forall j :: 0 <= j < 1023 && Present(t[j]) ==> FrameOf(t[j]) == root + 1 + j)
    && (forall v :: 0 <= v < WINDOW && Present(Entry(t, v)) ==> Present(t[v / 1024]))
  }

  /** The mapped pages below the window, each with its page-table entry. */
  function Pages(t: Tables): (m: map<nat, nat>)
    ensures forall v :: v in m <==> 0 <= v < WINDOW && Present(Entry(t, v))
    ensures forall v :: v in m ==> m[v] == Entry(t, v)
  {
    map v: nat | 0 <= v < WINDOW && Present(Entry(t, v)) :: Entry(t, v)
  }

  /** What `Pages` says a virtual address translates to. */
  function Virt2Phys(m: map<nat, nat>, va: nat): Option<nat>
  {
    if va / PAGE in m then Some(FrameOf(m[va / PAGE]) * PAGE + va % PAGE) else None
  }

  /** Below the window `Pages` is exactly the processor's translation. */
  lemma WalkIsPages(t: Tables, root: nat, va: Word)
    requires TablesOk(t, root) && va / PAGE < WINDOW
    ensures Translate(t, root, va) == Virt2Phys(Pages(t), va)
  {
    var v := va / PAGE;
    assert va / 0x40_0000 == v / 1024 && v / 1024 < 1023;
    assert (v / 1024 + 1) * 1024 + v % 1024 == 1024 + v;
  }

  /** A directory pointer reaches its directory entry, whatever the address. */
  lemma DirectoryWindow(t: Tables, root: nat, va: Word)
    requires TablesOk(t, root)
    ensures Deref(t, root, LocPde(va)) == Some(va / 0x40_0000)
  {
    var p, i := LocPde(va), va / 0x40_0000;
    assert p / 0x40_0000 == 1023 && p / PAGE % 1024 == 1023 && p % PAGE == i * 4;
    assert Slot(root, root, 1023) == Some(1023);
  }

  /** A table pointer below the window reaches the entry of its own page: slots
      are injective in the page number and never a directory entry. */
  lemma TableWindow(t: Tables, root: nat, va: Word)
    requires TablesOk(t, root) && va / PAGE < WINDOW && Present(t[va / 0x40_0000])
    ensures Deref(t, root, LocPte(va)) == Some(1024 + va / PAGE)
  {
    var p, d, e := LocPte(va), va / 0x40_0000, va / PAGE % 1024;
    WindowPointer(va);
    assert Slot(root, root, d) == Some(d);
    assert FrameOf(t[d]) == root + 1 + d;
    assert Translate(t, root, p) == Some((root + 1 + d) * PAGE + e * 4);
    TableIndex(va);
    assert ((root + 1 + d) * PAGE + e * 4 - root * PAGE) / 4 == (1 + d) * 1024 + e;
  }

  lemma TableIndex(va: Word)
    ensures va / 0x40_0000 * 1024 + va / PAGE % 1024 == va / PAGE
  {
  }

  lemma WindowPointer(va: Word)
    ensures var p := LocPte(va);
      p / 0x40_0000 == 1023 && p / PAGE % 1024 == va / 0x40_0000 && p % PAGE == va / PAGE % 1024 * 4
  {
    assert PageFloor(va / 1024) == va / 0x40_0000 * PAGE;
  }

  /** A table pointer reaches a directory entry exactly when the address lies
      in the window itself. */
  lemma PteSlotIsPdeIff(t: Tables, root: nat, va: Word)
    requires TablesOk(t, root) && Present(t[va / 0x40_0000])
    ensures Deref(t, root, LocPte(va)).Some?
    ensures Deref(t, root, LocPte(va)).value < 1024 <==> va >= 0xFFC0_0000
  {
    if va / PAGE < WINDOW { TableWindow(t, root, va); } else { WindowSlot(t, root, va); }
  }

  /** For an address in the window the table pointer reaches the directory entry of
      the table seen there. */
  lemma WindowSlot(t: Tables, root: nat, va: Word)
    requires TablesOk(t, root) && va / PAGE >= WINDOW
    ensures Deref(t, root, LocPte(va)) == Some(va / PAGE % 1024)
  {
    WindowPointer(va);
    assert va / 0x40_0000 == 1023;
    assert Slot(root, root, 1023) == Some(1023);
  }

  /** The processor's walk reads the entry that the table pointer reaches. */
  lemma WalkReadsPte(t: Tables, root: nat, va: Word)
    requires TablesOk(t, root) && Present(t[va / 0x40_0000])
    ensures var s := Deref(t, root, LocPte(va));
      s.Some? && Translate(t, root, va) ==
        if Present(t[s.value]) then Some(FrameOf(t[s.value]) * PAGE + va % PAGE) else None
  {
    var v := va / PAGE;
    assert va / 0x40_0000 == v / 1024;
    if v < WINDOW {
      TableWindow(t, root, va);
      assert (v / 1024 + 1) * 1024 + v % 1024 == 1024 + v;
    } else {
      WindowSlot(t, root, va);
    }
  }

  // ---- editing the page map ----

  /** The entry `_map_page` writes: frame, low twelve flag bits, present bit. */
  function Pte(frame: nat, flags: nat): (w: Word)
    ensures Present(w) && FrameOf(w) == frame % FRAMES
  {
    var f, bits := frame % FRAMES, flags % PAGE - flags % PAGE % 2 + 1;
    PteWord(f, bits);
    f * PAGE + bits
  }

  lemma PteFrame(f: nat, flags: nat)
    requires f < FRAMES
    ensures FrameOf(Pte(f, flags)) == f
  {
    assert f % FRAMES == f;
  }

  /** The flag bits of an entry are those asked for, and the present bit. */
  predicate FlagsOf(entry: nat, flags: nat)
  {
    entry % PAGE == Or(flags % PAGE, 1)
  }

  lemma PteFlags(frame: nat, flags: nat)
    ensures FlagsOf(Pte(frame, flags), flags)
  {
    var f, x := frame % FRAMES, flags % PAGE;
    OrOne(x);
    LowBits(f, x - x % 2 + 1);
  }

  lemma LowBits(f: nat, y: nat)
    requires y < PAGE
    ensures (f * PAGE + y) % PAGE == y
  {
  }

  lemma PteWrite(frame: nat, flags: nat)
    requires flags == 0 || flags == RW
    ensures Writable(Pte(frame, flags)) <==> flags == RW
  {
    var f := frame % FRAMES;
    assert f * PAGE + 1 == 2 * (2 * (1024 * f)) + 1 && f * PAGE + 3 == 2 * (2 * (1024 * f) + 1) + 1;
  }

  lemma OrOne(x: nat)
    ensures Or(x, 1) == x - x % 2 + 1
  {
    if x > 0 { OrZero(x / 2); assert Or(x, 1) == 1 + 2 * Or(x / 2, 0); }
  }

  lemma PteWord(f: nat, bits: nat)
    requires bits < PAGE && bits % 2 == 1
    ensures (f * PAGE + bits) / PAGE == f && (f * PAGE + bits) % 2 == 1
  {
    var half := 2048 * f + bits / 2;
    assert f * PAGE + bits == 2 * half + 1;
    assert (2 * half + 1) % 2 == 1;
  }

  /** `pg_map`: consecutive pages onto consecutive frames. */
  function MapRange(m: map<nat, nat>, v: nat, frame: nat, flags: nat, count: nat): map<nat, nat>
  {
    if count == 0 then m
    else MapRange(m, v, frame, flags, count - 1)[v + count - 1 := Pte(frame + count - 1, flags)]
  }

  /** `pg_unmap` */
  function UnmapRange(m: map<nat, nat>, v: nat, count: nat): map<nat, nat>
  {
    if count == 0 then m else UnmapRange(m, v, count - 1) - {v + count - 1}
  }

  lemma {:induction false} MapRangeIs(m: map<nat, nat>, v: nat, frame: nat, flags: nat, count: nat)
    ensures var r := MapRange(m, v, frame, flags, count);
      && (forall k :: k in r <==> k in m || v <= k < v + count)
      && (forall k :: v <= k < v + count ==> r[k] == Pte(frame + (k - v), flags))
      && (forall k :: k in m && !(v <= k < v + count) ==> r[k] == m[k])
  {
    if count > 0 { MapRangeIs(m, v, frame, flags, count - 1); }
  }

  /** The entry of one page of a mapped range. */
  lemma {:induction false} MapRangeAt(m: map<nat, nat>, v: nat, frame: nat, flags: nat, count: nat, k: nat)
    requires v <= k < v + count
    ensures k in MapRange(m, v, frame, flags, count)
    ensures MapRange(m, v, frame, flags, count)[k] == Pte(frame + (k - v), flags)
  {
    if k < v + count - 1 { MapRangeAt(m, v, frame, flags, count - 1, k); }
  }

  lemma {:induction false} UnmapRangeIs(m: map<nat, nat>, v: nat, count: nat)
    ensures var r := UnmapRange(m, v, count);
      && (forall k :: k in r <==> k in m && !(v <= k < v + count))
      && (forall k :: k in r ==> r[k] == m[k])
  {
    if count > 0 { UnmapRangeIs(m, v, count - 1); }
  }

  /** Every byte of a freshly mapped range translates to its frame plus offset,
      modulo 2^32, and no other page changes. */
  lemma MapTranslates(m: map<nat, nat>, v: nat, frame: nat, flags: nat, count: nat, va: nat)
    ensures var r := MapRange(m, v, frame, flags, count);
      if v <= va / PAGE < v + count
      then Virt2Phys(r, va) == Some((frame * PAGE + (va - v * PAGE)) % WORD)
      else Virt2Phys(r, va) == Virt2Phys(m, va)
  {
    MapRangeIs(m, v, frame, flags, count);
    if v <= va / PAGE < v + count {
      MapRangeAt(m, v, frame, flags, count, va / PAGE);
      WrapFrame(frame + (va / PAGE - v), va % PAGE);
      assert frame * PAGE + (va - v * PAGE) == (frame + (va / PAGE - v)) * PAGE + va % PAGE;
    }
  }

  lemma WrapFrame(f: nat, o: nat)
    requires o < PAGE
    ensures f % FRAMES * PAGE + o == (f * PAGE + o) % WORD
  {
    var q, r := f / FRAMES, f % FRAMES;
    assert f * PAGE + o == q * WORD + (r * PAGE + o);
    Remainder(f * PAGE + o, q, r * PAGE + o);
  }

  lemma Remainder(x: nat, q: nat, r: nat)
    requires x == q * WORD + r && r < WORD
    ensures x % WORD == r
  {
  }

  /** Unmapping a range that was free before undoes the mapping. */
  lemma UnmapUndoesMap(m: map<nat, nat>, v: nat, frame: nat, flags: nat, count: nat)
    requires forall k :: v <= k < v + count ==> k !in m
    ensures UnmapRange(MapRange(m, v, frame, flags, count), v, count) == m
  {
    MapRangeIs(m, v, frame, flags, count);
    UnmapRangeIs(MapRange(m, v, frame, flags, count), v, count);
  }

  /** The tables the boot code builds: directory entries 768 to 1022, the
      self-map, and nothing mapped yet. */
  lemma BootTables(t: Tables, root: nat)
    requires root + 1025 <= FRAMES
    requires forall k :: 768 <= k < 1023 ==> t[k] == (root + 1 + k) * PAGE + RW + 1
    requires t[1023] == root * PAGE + RW + 1
    requires forall k :: 0 <= k < TABLE_WORDS && !(768 <= k < 1024) ==> t[k] == 0
    ensures TablesOk(t, root) && Pages(t) == map[]
  {
    assert forall v :: 0 <= v < WINDOW ==> Entry(t, v) == 0;
    forall j | 0 <= j < 1023 && Present(t[j]) ensures FrameOf(t[j]) == root + 1 + j && Writable(t[j]) {
      EntryFrame(root + 1 + j);
    }
    EntryFrame(root);
  }

  lemma EntryFrame(f: nat)
    ensures var entry := f * PAGE + RW + 1; Present(entry) && Writable(entry) && FrameOf(entry) == f
  {
    assert f * PAGE + RW + 1 == 2 * (2 * (1024 * f) + 1) + 1;
  }

  // ---- one word of the block at a time ----

  /** The directory entry `_map_page` builds leads to the table of the address. */
  lemma NewDirectoryEntry(va: Word, root: nat)
    ensures var entry := PageFloor(va / 1024) + (root + 1) * PAGE + RW + 1;
      Present(entry) && Writable(entry) && FrameOf(entry) == root + 1 + va / 0x40_0000
  {
    assert PageFloor(va / 1024) == va / 0x40_0000 * PAGE;
    assert PageFloor(va / 1024) + (root + 1) * PAGE == (va / 0x40_0000 + root + 1) * PAGE;
    EntryFrame(va / 0x40_0000 + root + 1);
  }

  /** Building an absent directory entry adds no page. */
  lemma BuildDirectoryEntry(t: Tables, root: nat, d: nat, entry: Word)
    requires TablesOk(t, root) && d < 1023 && !Present(t[d])
    requires Present(entry) && Writable(entry) && FrameOf(entry) == root + 1 + d
    ensures TablesOk(t[d := entry], root) && Pages(t[d := entry]) == Pages(t)
  {
    var u: Tables := t[d := entry];
    assert forall v :: 0 <= v < FRAMES ==> Entry(u, v) == Entry(t, v);
  }

  /** Writing a table entry changes that page alone. */
  lemma WriteTableEntry(t: Tables, root: nat, v: nat, entry: Word)
    requires TablesOk(t, root) && v < WINDOW
    requires Present(entry) ==> Present(t[v / 1024])
    ensures TablesOk(t[1024 + v := entry], root)
    ensures Pages(t[1024 + v := entry]) == if Present(entry) then Pages(t)[v := entry] else UnmapRange(Pages(t), v, 1)
  {
    var u: Tables := t[1024 + v := entry];
    assert forall k :: 0 <= k < FRAMES ==> Entry(u, k) == if k == v then entry else Entry(t, k);
  }
}

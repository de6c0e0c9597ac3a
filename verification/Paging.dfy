/** The kernel page tables (paging.asm): every access goes through the window,
    translated by the tables themselves. */
module Paging {
  import opened Words
  import opened PageWalk

  class PageTables {
    /** Frame of the directory; the tables follow it. */
    const root: nat
    const words: array<Word>

    ghost predicate Valid()
      reads this, words
    {
      words.Length == TABLE_WORDS && TablesOk(words[..], root)
    }

    ghost function Map(): map<nat, nat>
      requires Valid()
      reads this, words
    {
      Pages(words[..])
    }

    /** The boot state: kernel directory entries built, no page mapped. */
    constructor (root: nat)
      requires root + 1025 <= FRAMES
      ensures Valid() && fresh(words) && this.root == root
      ensures Map() == map[]
    {
      this.root := root;
      words := new Word[TABLE_WORDS](_ => 0);
      new;
      for j := 768 to 1023
        invariant forall k :: 768 <= k < j ==> words[k] == (root + 1 + k) * PAGE + RW + 1
        invariant forall k :: 0 <= k < TABLE_WORDS && !(768 <= k < j) ==> words[k] == 0
      {
        words[j] := (root + 1 + j) * PAGE + RW + 1;
      }
      words[1023] := root * PAGE + RW + 1;
      BootTables(words[..], root);
    }

    /** `_map_page` */
    method MapPage(virt: Word, phys: nat, flags: nat)
      requires Valid() && virt / PAGE < WINDOW
      modifies words
      ensures Valid()
      ensures Map() == old(Map())[virt / PAGE := Pte(phys / PAGE, flags)]
    {
      DirectoryWindow(words[..], root, virt);
      var pde := Deref(words[..], root, LocPde(virt)).value;
      if !Present(words[pde]) {
        var entry: Word := PageFloor(virt / 1024) + (root + 1) * PAGE + RW + 1;
        NewDirectoryEntry(virt, root);
        BuildDirectoryEntry(words[..], root, pde, entry);
        ghost var t := words[..];
        words[pde] := entry;
        assert words[..] == t[pde := entry];
      }
      TableWindow(words[..], root, virt);
      var pte := Deref(words[..], root, LocPte(virt)).value;
      WriteTableEntry(words[..], root, virt / PAGE, Pte(phys / PAGE, flags));
      ghost var t := words[..];
      words[pte] := Pte(phys / PAGE, flags);
      assert words[..] == t[pte := Pte(phys / PAGE, flags)];
    }

    /** `_unmap_page` */
    method UnmapPage(virt: Word)
      requires Valid() && virt / PAGE < WINDOW
      modifies words
      ensures Valid()
      ensures Map() == UnmapRange(old(Map()), virt / PAGE, 1)
    {
      DirectoryWindow(words[..], root, virt);
      var pde := Deref(words[..], root, LocPde(virt)).value;
      if !Present(words[pde]) {
        return;
      }
      TableWindow(words[..], root, virt);
      var pte := Deref(words[..], root, LocPte(virt)).value;
      if !Present(words[pte]) {
        return;
      }
      WriteTableEntry(words[..], root, virt / PAGE, 0);
      ghost var t := words[..];
      words[pte] := 0;
      assert words[..] == t[pte := 0];
    }

    /** `pg_virt2phys`: the processor's own translation, 0 when there is none. */
    method VirtToPhys(virt: Word) returns (phys: nat)
      requires Valid()
      ensures phys == match Translate(words[..], root, virt) case Some(pa) => pa case None => 0
      ensures virt / PAGE < WINDOW ==> phys == match Virt2Phys(Map(), virt) case Some(pa) => pa case None => 0
    {
      if virt / PAGE < WINDOW { WalkIsPages(words[..], root, virt); }
      DirectoryWindow(words[..], root, virt);
      var pde := Deref(words[..], root, LocPde(virt)).value;
      if !Present(words[pde]) {
        return 0;
      }
      WalkReadsPte(words[..], root, virt);
      var pte := Deref(words[..], root, LocPte(virt)).value;
      if !Present(words[pte]) {
        return 0;
      }
      phys := PageFloor(words[pte]) + virt % PAGE;
    }

    /** `pg_map` */
    method MapPages(virt: Word, phys: Word, flags: nat, count: nat)
      requires Valid() && virt / PAGE + count <= WINDOW
      modifies words
      ensures Valid()
      ensures Map() == MapRange(old(Map()), virt / PAGE, phys / PAGE, flags, count)
    {
      ghost var was := Map();
      var v, p, left := virt, phys, count;
      ghost var done := 0;
      while left > 0
        invariant Valid() && 0 <= left && done + left == count
        invariant v == virt + done * PAGE && p == phys + done * PAGE
        invariant Map() == MapRange(was, virt / PAGE, phys / PAGE, flags, done)
      {
        MapNext(virt, phys, flags, v, p, done, was);
        v, p, left, done := v + PAGE, p + PAGE, left - 1, done + 1;
      }
    }

    /** One more page of the range. */
    method MapNext(ghost virt: Word, ghost phys: Word, flags: nat, v: nat, p: nat, ghost done: nat,
        ghost was: map<nat, nat>)
      requires Valid() && virt / PAGE + done < WINDOW
      requires v == virt + done * PAGE && p == phys + done * PAGE
      requires Map() == MapRange(was, virt / PAGE, phys / PAGE, flags, done)
      modifies words
      ensures Valid()
      ensures Map() == MapRange(was, virt / PAGE, phys / PAGE, flags, done + 1)
    {
      AddPages(virt, done);
      AddPages(phys, done);
      MapPage(v, p, flags);
    }

    /** `pg_unmap` */
    method UnmapPages(virt: Word, count: nat)
      requires Valid() && virt / PAGE + count <= WINDOW
      modifies words
      ensures Valid()
      ensures Map() == UnmapRange(old(Map()), virt / PAGE, count)
    {
      ghost var was := Map();
      var v, left := virt, count;
      ghost var done := 0;
      while left > 0
        invariant Valid() && 0 <= left && done + left == count
        invariant v == virt + done * PAGE
        invariant Map() == UnmapRange(was, virt / PAGE, done)
      {
        UnmapNext(virt, v, done, was);
        v, left, done := v + PAGE, left - 1, done + 1;
      }
    }

    method UnmapNext(ghost virt: Word, v: nat, ghost done: nat, ghost was: map<nat, nat>)
      requires Valid() && virt / PAGE + done < WINDOW && v == virt + done * PAGE
      requires Map() == UnmapRange(was, virt / PAGE, done)
      modifies words
      ensures Valid()
      ensures Map() == UnmapRange(was, virt / PAGE, done + 1)
    {
      AddPages(virt, done);
      UnmapPage(v);
    }
  }
}

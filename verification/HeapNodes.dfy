/** The heap's headers as they lie in memory, field by field at the address of
    each header, and how the list edits of kheap.c act on the layout they
    represent. */
module HeapNodes {
  import opened Links
  import opened Layout

  /** A field of type `size_t` or `uint32_t`, by the address of its structure. */
  type Field = map<nat, nat>

  function Get(f: Field, a: nat): nat
  {
    if a in f then f[a] else 0
  }

  /** The block headers. */
  datatype Blocks = Blocks(links: Fields, size: Field, flags: Field)

  function UsedFlag(flags: nat): bool
  {
    flags % 2 == 1
  }

  // ---- the edits as written ----

  /** `block_alloc` on a block that is large enough. */
  function BlockAlloc(m: Blocks, e: Ends, block: nat, size: nat): (Blocks, Ends)
  {
    var whole := Get(m.size, block);
    if whole >= size + HEADER + MIN_BLOCK then
      var next := block + HEADER + size;
      var cleared := m.links.SetNext(next, 0).SetPrev(next, 0);
      var (links, ends) := InsertAfter(cleared, e, block, next);
      (Blocks(links, m.size[next := whole - HEADER - size][block := size], SetUsed(m.flags[next := 0], block)), ends)
    else
      (m.(flags := SetUsed(m.flags, block)), e)
  }

  /** `flags |= BLOCK_USED` */
  function SetUsed(flags: Field, a: nat): Field
  {
    var f := Get(flags, a);
    flags[a := if UsedFlag(f) then f else f + 1]
  }

  /** `flags &= ~BLOCK_USED` */
  function ClearUsed(flags: Field, a: nat): Field
  {
    var f := Get(flags, a);
    flags[a := if UsedFlag(f) then f - 1 else f]
  }

  /** `block_free`: absorb the next block if there is one and it is free. */
  function BlockFree(m: Blocks, e: Ends, block: nat): (Blocks, Ends)
  {
    var next := m.links.Next(block);
    if next == 0 || UsedFlag(Get(m.flags, next)) then (m, e) else
    var size := m.size[block := Get(m.size, block) + HEADER + Get(m.size, next)];
    var (links, ends) := Remove(m.links, e, next);
    (Blocks(links, size, m.flags), ends)
  }

  // ---- the layout they represent ----

  function Addrs(bs: seq<Block>): (s: seq<nat>)
    ensures |s| == |bs| && forall i :: 0 <= i < |bs| ==> s[i] == bs[i].addr
  {
    seq(|bs|, i requires 0 <= i < |bs| => bs[i].addr)
  }

  ghost predicate BlockRep(size: Field, flags: Field, b: Block)
  {
    Get(size, b.addr) == b.size && Get(flags, b.addr) == if b.used then 1 else 0
  }

  ghost predicate HeadersRep(size: Field, flags: Field, bs: seq<Block>)
  {
    forall b :: b in bs ==> BlockRep(size, flags, b)
  }

  /** The list between the ends holds exactly the headers of `bs`, in order. */
  ghost predicate BlocksRep(m: Blocks, e: Ends, bs: seq<Block>)
  {
    Linked(m.links, e, Addrs(bs)) && HeadersRep(m.size, m.flags, bs)
  }

  /** Blocks of a tiled region have different addresses. */
  lemma DifferentAddr(bs: seq<Block>, start: nat, end: nat, i: nat, k: nat)
    requires Tiles(bs, start, end) && i < |bs| && k < |bs| && i != k
    ensures bs[i].addr != bs[k].addr
  {
    if i < k { TilesOrdered(bs, start, end, i, k); } else { TilesOrdered(bs, start, end, k, i); }
  }

  /** The address of the header a split creates is new. */
  lemma SplitAddrNew(bs: seq<Block>, start: nat, end: nat, j: nat, size: nat, i: nat)
    requires Tiles(bs, start, end) && j < |bs| && size + HEADER + MIN_BLOCK <= bs[j].size && i < |bs|
    ensures bs[j].addr + HEADER + size != bs[i].addr
  {
    if i < j { TilesOrdered(bs, start, end, i, j); }
    else if j < i { TilesOrdered(bs, start, end, j, i); }
  }

  // ---- size and flags ----

  /** Updates at the address of block `j` leave the other headers. */
  lemma HeadersElsewhere(size: Field, flags: Field, size': Field, flags': Field, bs: seq<Block>, start: nat,
      end: nat, j: nat, b: Block)
    requires Tiles(bs, start, end) && HeadersRep(size, flags, bs) && j < |bs| && b in bs && b != bs[j]
    requires forall a :: a != bs[j].addr ==> Get(size', a) == Get(size, a) && Get(flags', a) == Get(flags, a)
    ensures BlockRep(size', flags', b)
  {
    var i :| 0 <= i < |bs| && bs[i] == b;
    DifferentAddr(bs, start, end, i, j);
    assert BlockRep(size, flags, b);
  }

  /** Taking a whole block. */
  lemma HeadersWhole(size: Field, flags: Field, bs: seq<Block>, start: nat, end: nat, j: nat)
    requires Tiles(bs, start, end) && HeadersRep(size, flags, bs) && j < |bs| && !bs[j].used
    ensures HeadersRep(size, SetUsed(flags, bs[j].addr), bs[j := bs[j].(used := true)])
  {
    assert BlockRep(size, flags, bs[j]);
    var t := bs[j := bs[j].(used := true)];
    forall b | b in t ensures BlockRep(size, SetUsed(flags, bs[j].addr), b) {
      if b != t[j] {
        var i :| 0 <= i < |t| && t[i] == b;
        DifferentAddr(bs, start, end, i, j);
        HeadersElsewhere(size, flags, size, SetUsed(flags, bs[j].addr), bs, start, end, j, b);
      }
    }
  }

  /** Splitting a block. */
  lemma HeadersSplit(m: Blocks, e: Ends, bs: seq<Block>, start: nat, end: nat, j: nat, size: nat)
    requires Tiles(bs, start, end) && HeadersRep(m.size, m.flags, bs) && j < |bs| && !bs[j].used
    requires size + HEADER + MIN_BLOCK <= bs[j].size
    ensures var n := BlockAlloc(m, e, bs[j].addr, size).0; HeadersRep(n.size, n.flags, Take(bs, j, size))
  {
    var a, next := bs[j].addr, bs[j].addr + HEADER + size;
    var n, x := BlockAlloc(m, e, a, size).0, Split(bs[j], size);
    assert BlockRep(m.size, m.flags, bs[j]);
    forall b | b in Take(bs, j, size) ensures BlockRep(n.size, n.flags, b) {
      if b !in x {
        assert b in bs[..j] || b in bs[j + 1..];
        var i :| 0 <= i < |bs| && bs[i] == b && i != j;
        DifferentAddr(bs, start, end, i, j);
        SplitAddrNew(bs, start, end, j, size, i);
        assert BlockRep(m.size, m.flags, b);
      }
    }
  }

  /** Absorbing the next block. */
  lemma HeadersAbsorb(size: Field, flags: Field, bs: seq<Block>, start: nat, end: nat, j: nat)
    requires Tiles(bs, start, end) && HeadersRep(size, flags, bs) && j + 1 < |bs| && !bs[j + 1].used
    ensures HeadersRep(size[bs[j].addr := bs[j].size + HEADER + bs[j + 1].size], flags, Absorb(bs, j))
  {
    assert BlockRep(size, flags, bs[j]);
    var size' := size[bs[j].addr := bs[j].size + HEADER + bs[j + 1].size];
    forall b | b in Absorb(bs, j) ensures BlockRep(size', flags, b) {
      if b in bs[..j] || b in bs[j + 2..] {
        var i :| 0 <= i < |bs| && bs[i] == b && i != j;
        DifferentAddr(bs, start, end, i, j);
        HeadersElsewhere(size, flags, size', flags, bs, start, end, j, b);
      }
    }
  }

  /** Marking a block free. */
  lemma HeadersClear(size: Field, flags: Field, bs: seq<Block>, start: nat, end: nat, j: nat)
    requires Tiles(bs, start, end) && HeadersRep(size, flags, bs) && j < |bs|
    ensures HeadersRep(size, ClearUsed(flags, bs[j].addr), bs[j := bs[j].(used := false)])
  {
    assert BlockRep(size, flags, bs[j]);
    var t := bs[j := bs[j].(used := false)];
    forall b | b in t ensures BlockRep(size, ClearUsed(flags, bs[j].addr), b) {
      if b != t[j] {
        var i :| 0 <= i < |t| && t[i] == b;
        DifferentAddr(bs, start, end, i, j);
        HeadersElsewhere(size, flags, size, ClearUsed(flags, bs[j].addr), bs, start, end, j, b);
      }
    }
  }

  // ---- links ----

  lemma NotAnAddr(bs: seq<Block>, start: nat, end: nat, j: nat, size: nat)
    requires Tiles(bs, start, end) && j < |bs| && size + HEADER + MIN_BLOCK <= bs[j].size
    ensures bs[j].addr + HEADER + size !in Addrs(bs)
  {
    forall i | 0 <= i < |bs| ensures Addrs(bs)[i] != bs[j].addr + HEADER + size {
      SplitAddrNew(bs, start, end, j, size, i);
    }
  }

  lemma SplitLinked(f: Fields, e: Ends, bs: seq<Block>, start: nat, end: nat, j: nat, size: nat)
    requires Linked(f, e, Addrs(bs)) && Tiles(bs, start, end) && j < |bs| && size + HEADER + MIN_BLOCK <= bs[j].size
    ensures var next := bs[j].addr + HEADER + size;
      var (g, d) := InsertAfter(f.SetNext(next, 0).SetPrev(next, 0), e, bs[j].addr, next);
      Linked(g, d, Addrs(Take(bs, j, size)))
  {
    var s, next := Addrs(bs), bs[j].addr + HEADER + size;
    NotAnAddr(bs, start, end, j, size);
    var cleared := f.SetNext(next, 0).SetPrev(next, 0);
    assert SameOn(f, cleared, s);
    LinkedFrame(f, cleared, e, s);
    InsertLinked(cleared, e, s, j, next);
    SplitAddrs(bs, j, size);
  }

  lemma SplitAddrs(bs: seq<Block>, j: nat, size: nat)
    requires j < |bs| && size + HEADER + MIN_BLOCK <= bs[j].size
    ensures Addrs(Take(bs, j, size)) == Addrs(bs)[..j + 1] + [bs[j].addr + HEADER + size] + Addrs(bs)[j + 1..]
  {
  }

  lemma AbsorbLinked(f: Fields, e: Ends, bs: seq<Block>, j: nat)
    requires Linked(f, e, Addrs(bs)) && j + 1 < |bs| && !bs[j + 1].used
    ensures var (g, d) := Remove(f, e, bs[j + 1].addr); Linked(g, d, Addrs(Absorb(bs, j)))
  {
    var s := Addrs(bs);
    RemoveLinked(f, e, s, j + 1);
    assert Addrs(Absorb(bs, j)) == s[..j + 1] + s[j + 2..];
  }

  lemma NextAddr(f: Fields, e: Ends, bs: seq<Block>, j: nat)
    requires Linked(f, e, Addrs(bs)) && j < |bs|
    ensures f.Next(bs[j].addr) == if j + 1 < |bs| then bs[j + 1].addr else 0
    ensures f.Prev(bs[j].addr) == if j > 0 then bs[j - 1].addr else 0
    ensures bs[j].addr != 0
  {
    LinkedIs(f, e, Addrs(bs));
    assert Addrs(bs)[j] in Addrs(bs);
    if j + 1 < |bs| { assert After(Addrs(bs), j) == bs[j + 1].addr; }
  }

  /** Where a walk along the blocks stands: header `j`, or NULL past the last. */
  function AddrAt(bs: seq<Block>, j: nat): nat
  {
    if j < |bs| then bs[j].addr else 0
  }

  lemma Cursor(f: Fields, e: Ends, bs: seq<Block>, j: nat)
    requires Linked(f, e, Addrs(bs)) && j <= |bs|
    ensures e.head == AddrAt(bs, 0)
    ensures AddrAt(bs, j) == 0 <==> j == |bs|
    ensures j < |bs| ==> f.Next(bs[j].addr) == AddrAt(bs, j + 1)
  {
    LinkedIs(f, e, Addrs(bs));
    if j < |bs| { NextAddr(f, e, bs, j); }
  }

  // ---- both together ----

  /** Splitting or taking a block is `Take` on the layout. */
  lemma BlockAllocRep(m: Blocks, e: Ends, bs: seq<Block>, start: nat, end: nat, j: nat, size: nat)
    requires BlocksRep(m, e, bs) && Tiles(bs, start, end) && j < |bs| && !bs[j].used && size <= bs[j].size
    ensures var (n, d) := BlockAlloc(m, e, bs[j].addr, size); BlocksRep(n, d, Take(bs, j, size))
  {
    assert BlockRep(m.size, m.flags, bs[j]);
    if bs[j].size >= size + HEADER + MIN_BLOCK {
      SplitLinked(m.links, e, bs, start, end, j, size);
      HeadersSplit(m, e, bs, start, end, j, size);
    } else {
      TakeWhole(bs, j, size);
      HeadersWhole(m.size, m.flags, bs, start, end, j);
    }
  }

  lemma TakeWhole(bs: seq<Block>, j: nat, size: nat)
    requires j < |bs| && size <= bs[j].size < size + HEADER + MIN_BLOCK
    ensures Take(bs, j, size) == bs[j := bs[j].(used := true)]
    ensures Addrs(bs[j := bs[j].(used := true)]) == Addrs(bs)
  {
  }

  /** Absorbing the next block is `Absorb` on the layout. */
  lemma BlockFreeRep(m: Blocks, e: Ends, bs: seq<Block>, start: nat, end: nat, j: nat)
    requires BlocksRep(m, e, bs) && Tiles(bs, start, end) && j < |bs|
    ensures var (n, d) := BlockFree(m, e, bs[j].addr); BlocksRep(n, d, Absorb(bs, j))
  {
    NextAddr(m.links, e, bs, j);
    assert BlockRep(m.size, m.flags, bs[j]);
    if j + 1 < |bs| {
      NextAddr(m.links, e, bs, j + 1);
      assert BlockRep(m.size, m.flags, bs[j + 1]);
      if !bs[j + 1].used {
        AbsorbLinked(m.links, e, bs, j);
        HeadersAbsorb(m.size, m.flags, bs, start, end, j);
      }
    }
  }

  /** Marking a block free. */
  lemma ClearUsedRep(m: Blocks, e: Ends, bs: seq<Block>, start: nat, end: nat, j: nat)
    requires BlocksRep(m, e, bs) && Tiles(bs, start, end) && j < |bs|
    ensures BlocksRep(m.(flags := ClearUsed(m.flags, bs[j].addr)), e, bs[j := bs[j].(used := false)])
  {
    assert Addrs(bs[j := bs[j].(used := false)]) == Addrs(bs);
    HeadersClear(m.size, m.flags, bs, start, end, j);
  }

  // ---- headers elsewhere are not touched ----

  ghost predicate SameHeader(m: Blocks, n: Blocks, a: nat)
  {
    && m.links.Next(a) == n.links.Next(a) && m.links.Prev(a) == n.links.Prev(a)
    && Get(m.size, a) == Get(n.size, a) && Get(m.flags, a) == Get(n.flags, a)
  }

  lemma BlocksRepFrame(m: Blocks, n: Blocks, e: Ends, bs: seq<Block>)
    requires BlocksRep(m, e, bs) && forall i :: 0 <= i < |bs| ==> SameHeader(m, n, bs[i].addr)
    ensures BlocksRep(n, e, bs)
  {
    forall p | p in Addrs(bs) ensures m.links.Next(p) == n.links.Next(p) && m.links.Prev(p) == n.links.Prev(p) {
      var i :| 0 <= i < |bs| && Addrs(bs)[i] == p;
      assert SameHeader(m, n, bs[i].addr);
    }
    LinkedFrame(m.links, n.links, e, Addrs(bs));
    forall b | b in bs ensures BlockRep(n.size, n.flags, b) {
      var i :| 0 <= i < |bs| && bs[i] == b;
      assert BlockRep(m.size, m.flags, b) && SameHeader(m, n, bs[i].addr);
    }
  }

  lemma BlockAllocFrame(m: Blocks, e: Ends, bs: seq<Block>, start: nat, end: nat, j: nat, size: nat, a: nat)
    requires BlocksRep(m, e, bs) && Tiles(bs, start, end) && j < |bs| && size <= bs[j].size
    requires !(start <= a < end)
    ensures SameHeader(m, BlockAlloc(m, e, bs[j].addr, size).0, a)
  {
    var block, next := bs[j].addr, bs[j].addr + HEADER + size;
    TilesAt(bs, start, end, j);
    NextAddr(m.links, e, bs, j);
    if j + 1 < |bs| { TilesAt(bs, start, end, j + 1); }
    assert BlockRep(m.size, m.flags, bs[j]);
    if bs[j].size >= size + HEADER + MIN_BLOCK {
      if j + 1 < |bs| { SplitAddrNew(bs, start, end, j, size, j + 1); }
      InsertFields(m.links.SetNext(next, 0).SetPrev(next, 0), e, block, next, a);
    }
  }

  lemma BlockFreeFrame(m: Blocks, e: Ends, bs: seq<Block>, start: nat, end: nat, j: nat, a: nat)
    requires BlocksRep(m, e, bs) && Tiles(bs, start, end) && j < |bs|
    requires !(start <= a < end)
    ensures SameHeader(m, BlockFree(m, e, bs[j].addr).0, a)
  {
    TilesAt(bs, start, end, j);
    NextAddr(m.links, e, bs, j);
    if j + 1 < |bs| {
      TilesAt(bs, start, end, j + 1);
      NextAddr(m.links, e, bs, j + 1);
      if j + 2 < |bs| {
        TilesAt(bs, start, end, j + 2);
        DifferentAddr(bs, start, end, j + 1, j + 2);
      }
      DifferentAddr(bs, start, end, j, j + 1);
      RemoveFields(m.links, e, bs[j + 1].addr, a);
    }
  }
}

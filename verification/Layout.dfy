/** The blocks of a heap region as a value: splitting on allocation, merging on
    release, and the exact tiling both keep (kheap.c). */
module Layout {

  const HEADER: nat := 16
  const REGION: nat := 32
  const MIN_BLOCK: nat := 16

  /** A block header at `addr` and `size` bytes after it. */
  datatype Block = Block(addr: nat, size: nat, used: bool)
  {
    function End(): nat { addr + HEADER + size }
    function Ptr(): nat { addr + HEADER }
  }

  // ---- allocation and release of one block ----

  /** `block_alloc` on a free block: what takes its place. */
  function Split(b: Block, size: nat): seq<Block>
    requires size <= b.size
  {
    if b.size >= size + HEADER + MIN_BLOCK
    then [Block(b.addr, size, true), Block(b.addr + HEADER + size, b.size - HEADER - size, false)]
    else [b.(used := true)]
  }

  function Take(bs: seq<Block>, j: nat, size: nat): seq<Block>
    requires j < |bs| && size <= bs[j].size
  {
    bs[..j] + Split(bs[j], size) + bs[j + 1..]
  }

  /** `block_free`: block `j` swallows the free block after it. */
  function Absorb(bs: seq<Block>, j: nat): seq<Block>
    requires j < |bs|
  {
    if j + 1 < |bs| && !bs[j + 1].used
    then bs[..j] + [bs[j].(size := bs[j].size + HEADER + bs[j + 1].size)] + bs[j + 2..]
    else bs
  }

  /** `heap_free` on block `j`: marked free, merged with the block after it and
      then into a free block before it. */
  function Give(bs: seq<Block>, j: nat): seq<Block>
    requires j < |bs|
  {
    var merged := Absorb(bs[j := bs[j].(used := false)], j);
    if j > 0 && !merged[j - 1].used then Absorb(merged, j - 1) else merged
  }

  // ---- the shape of a region ----

  /** The blocks tile `[start, end)` exactly, in address order. */
  ghost predicate Tiles(bs: seq<Block>, start: nat, end: nat)
  {
    if bs == [] then start == end else bs[0].addr == start && Tiles(bs[1..], bs[0].End(), end)
  }

  ghost predicate Sized(bs: seq<Block>)
  {
    forall b :: b in bs ==> b.size % 16 == 0 && b.size >= MIN_BLOCK
  }

  /** No two neighbours are both free. */
  ghost predicate Coalesced(bs: seq<Block>)
  {
    forall i :: 0 < i < |bs| ==> bs[i - 1].used || bs[i].used
  }

  ghost predicate SomeUsed(bs: seq<Block>)
  {
    exists i :: 0 <= i < |bs| && bs[i].used
  }

  ghost predicate BlocksOk(bs: seq<Block>, start: nat, end: nat)
  {
    Tiles(bs, start, end) && Sized(bs) && Coalesced(bs)
  }

  lemma {:induction false} TilesJoin(a: seq<Block>, b: seq<Block>, start: nat, mid: nat, end: nat)
    requires Tiles(a, start, mid) && Tiles(b, mid, end)
    ensures Tiles(a + b, start, end)
  {
    if a == [] {
      assert a + b == b;
    } else {
      assert (a + b)[1..] == a[1..] + b;
      TilesJoin(a[1..], b, a[0].End(), mid, end);
    }
  }

  lemma {:induction false} TilesCut(a: seq<Block>, b: seq<Block>, start: nat, end: nat) returns (mid: nat)
    requires Tiles(a + b, start, end)
    ensures Tiles(a, start, mid) && Tiles(b, mid, end)
  {
    if a == [] {
      assert a + b == b;
      mid := start;
    } else {
      assert (a + b)[1..] == a[1..] + b;
      mid := TilesCut(a[1..], b, a[0].End(), end);
    }
  }

  /** Replacing some blocks by others over the same bytes keeps the tiling. */
  lemma TilesReplace(a: seq<Block>, x: seq<Block>, y: seq<Block>, c: seq<Block>, start: nat, end: nat)
    requires Tiles(a + x + c, start, end)
    requires forall s: nat, e: nat :: Tiles(x, s, e) ==> Tiles(y, s, e)
    ensures Tiles(a + y + c, start, end)
  {
    var n := TilesCut(a + x, c, start, end);
    var m := TilesCut(a, x, start, n);
    TilesJoin(a, y, start, m, n);
    TilesJoin(a + y, c, start, n, end);
  }

  /** Block `i` begins where its predecessor ends and lies inside the region. */
  lemma {:induction false} TilesAt(bs: seq<Block>, start: nat, end: nat, i: nat)
    requires Tiles(bs, start, end) && i < |bs|
    ensures start <= bs[i].addr && bs[i].End() <= end
    ensures bs[i].addr == if i == 0 then start else bs[i - 1].End()
    ensures i == |bs| - 1 ==> bs[i].End() == end
  {
    if i == 0 {
      TilesForward(bs[1..], bs[0].End(), end);
    } else {
      TilesAt(bs[1..], bs[0].End(), end, i - 1);
    }
  }

  lemma {:induction false} TilesForward(bs: seq<Block>, start: nat, end: nat)
    requires Tiles(bs, start, end)
    ensures start <= end
  {
    if bs != [] { TilesForward(bs[1..], bs[0].End(), end); }
  }

  /** Earlier blocks end before later ones begin. */
  lemma {:induction false} TilesOrdered(bs: seq<Block>, start: nat, end: nat, i: nat, k: nat)
    requires Tiles(bs, start, end) && i < k < |bs|
    ensures bs[i].End() <= bs[k].addr
  {
    if i == 0 { TilesAt(bs[1..], bs[0].End(), end, k - 1); }
    else { TilesOrdered(bs[1..], bs[0].End(), end, i - 1, k - 1); }
  }

  lemma SplitTiles(b: Block, size: nat, s: nat, e: nat)
    requires size <= b.size && Tiles([b], s, e)
    ensures Tiles(Split(b, size), s, e)
  {
    var x := Split(b, size);
    assert [b][1..] == [];
    if |x| == 2 { assert x[1..] == [x[1]] && x[1..][1..] == []; }
    else { assert x[1..] == []; }
  }

  /** Splitting or taking a free block keeps the shape. */
  lemma TakeOk(bs: seq<Block>, start: nat, end: nat, j: nat, size: nat)
    requires BlocksOk(bs, start, end) && j < |bs| && !bs[j].used
    requires size <= bs[j].size && size % 16 == 0 && size >= MIN_BLOCK
    ensures BlocksOk(Take(bs, j, size), start, end) && SomeUsed(Take(bs, j, size))
  {
    var x := Split(bs[j], size);
    assert bs == bs[..j] + [bs[j]] + bs[j + 1..];
    forall s: nat, e: nat | Tiles([bs[j]], s, e) ensures Tiles(x, s, e) { SplitTiles(bs[j], size, s, e); }
    TilesReplace(bs[..j], [bs[j]], x, bs[j + 1..], start, end);
    TakeCoalesced(bs, j, size);
    forall b | b in Take(bs, j, size) ensures b.size % 16 == 0 && b.size >= MIN_BLOCK {
      assert b in bs || b in x;
      assert bs[j] in bs;
    }
    assert Take(bs, j, size)[j].used;
  }

  lemma TakeCoalesced(bs: seq<Block>, j: nat, size: nat)
    requires Coalesced(bs) && j < |bs| && !bs[j].used && size <= bs[j].size
    ensures Coalesced(Take(bs, j, size))
  {
    var n, t := |Split(bs[j], size)|, Take(bs, j, size);
    assert j > 0 ==> bs[j - 1].used;
    assert j + 1 < |bs| ==> bs[j + 1].used;
    forall i | 0 < i < |t| ensures t[i - 1].used || t[i].used {
      if i < j { assert bs[i - 1].used || bs[i].used; }
      else if i > j + n { assert bs[i - n].used || bs[i - n + 1].used; }
    }
  }

  lemma PairTiles(a: Block, b: Block, s: nat, e: nat)
    requires Tiles([a, b], s, e)
    ensures Tiles([a.(size := a.size + HEADER + b.size)], s, e)
  {
    var x := [a, b];
    assert x[1..] == [b];
    assert Tiles([b], a.End(), e);
    assert [b][1..] == [];
    assert Tiles([], b.End(), e);
    assert [a.(size := a.size + HEADER + b.size)][1..] == [];
  }

  /** Merging with a free successor keeps the tiling. */
  lemma AbsorbTiles(bs: seq<Block>, start: nat, end: nat, j: nat)
    requires Tiles(bs, start, end) && j < |bs|
    ensures Tiles(Absorb(bs, j), start, end)
  {
    if j + 1 < |bs| && !bs[j + 1].used {
      var x, y := [bs[j], bs[j + 1]], [bs[j].(size := bs[j].size + HEADER + bs[j + 1].size)];
      assert bs == bs[..j] + x + bs[j + 2..];
      forall s: nat, e: nat | Tiles(x, s, e) ensures Tiles(y, s, e) { PairTiles(bs[j], bs[j + 1], s, e); }
      TilesReplace(bs[..j], x, y, bs[j + 2..], start, end);
    }
  }

  lemma AbsorbSized(bs: seq<Block>, j: nat)
    requires Sized(bs) && j < |bs|
    ensures Sized(Absorb(bs, j))
  {
    if j + 1 < |bs| && !bs[j + 1].used {
      assert bs[j] in bs && bs[j + 1] in bs;
      MergedSize(bs[j].size, bs[j + 1].size);
      var merged := bs[j].(size := bs[j].size + HEADER + bs[j + 1].size);
      assert forall b :: b in Absorb(bs, j) ==> b in bs || b == merged;
    }
  }

  lemma MergedSize(x: nat, y: nat)
    requires x % 16 == 0 && y % 16 == 0
    ensures (x + HEADER + y) % 16 == 0
  {
    assert x + HEADER + y == 16 * (x / 16 + 1 + y / 16);
  }

  /** Neighbours both free at most at `j - 1` and `j`. */
  ghost predicate CoalescedBut(bs: seq<Block>, j: nat)
  {
    forall i :: 0 < i < |bs| && i != j ==> bs[i - 1].used || bs[i].used
  }

  lemma ClearTiles(bs: seq<Block>, start: nat, end: nat, j: nat)
    requires Tiles(bs, start, end) && j < |bs|
    ensures Tiles(bs[j := bs[j].(used := false)], start, end)
  {
    var free := bs[j := bs[j].(used := false)];
    assert bs == bs[..j] + [bs[j]] + bs[j + 1..];
    assert free == bs[..j] + [free[j]] + bs[j + 1..];
    forall s: nat, e: nat | Tiles([bs[j]], s, e) ensures Tiles([free[j]], s, e) {
      assert [bs[j]][1..] == [] && [free[j]][1..] == [];
    }
    TilesReplace(bs[..j], [bs[j]], [free[j]], bs[j + 1..], start, end);
  }

  /** Releasing a used block keeps the shape. */
  lemma GiveOk(bs: seq<Block>, start: nat, end: nat, j: nat)
    requires BlocksOk(bs, start, end) && j < |bs| && bs[j].used
    ensures BlocksOk(Give(bs, j), start, end)
  {
    var free := bs[j := bs[j].(used := false)];
    ClearTiles(bs, start, end, j);
    forall b | b in free ensures b.size % 16 == 0 && b.size >= MIN_BLOCK {
      assert b in bs || b == free[j];
      assert bs[j] in bs;
    }
    AbsorbTiles(free, start, end, j);
    AbsorbSized(free, j);
    var merged := Absorb(free, j);
    if j > 0 {
      AbsorbTiles(merged, start, end, j - 1);
      AbsorbSized(merged, j - 1);
    }
    GiveCoalesced(bs, j);
  }

  lemma AbsorbNextCoalesced(bs: seq<Block>, j: nat)
    requires Coalesced(bs) && j < |bs| && bs[j].used
    ensures CoalescedBut(Absorb(bs[j := bs[j].(used := false)], j), j)
  {
    var free := bs[j := bs[j].(used := false)];
    var t := Absorb(free, j);
    var d := |free| - |t|;
    forall i | 0 < i < |t| && i != j ensures t[i - 1].used || t[i].used {
      if i < j { assert bs[i - 1].used || bs[i].used; }
      else { assert bs[i + d - 1].used || bs[i + d].used; }
    }
  }

  lemma AbsorbPrevCoalesced(bs: seq<Block>, j: nat)
    requires CoalescedBut(bs, j) && 0 < j < |bs| && !bs[j].used
    ensures Coalesced(Absorb(bs, j - 1))
  {
    var t := Absorb(bs, j - 1);
    forall i | 0 < i < |t| ensures t[i - 1].used || t[i].used {
      if i < j { assert bs[i - 1].used || bs[i].used; }
      else { assert bs[i].used || bs[i + 1].used; }
    }
  }

  lemma GiveCoalesced(bs: seq<Block>, j: nat)
    requires Coalesced(bs) && j < |bs| && bs[j].used
    ensures Coalesced(Give(bs, j))
  {
    AbsorbNextCoalesced(bs, j);
    var merged := Absorb(bs[j := bs[j].(used := false)], j);
    if j > 0 && !merged[j - 1].used {
      AbsorbPrevCoalesced(merged, j);
    }
  }

  // ---- what allocation and release do to the used blocks ----

  ghost function UsedBlocks(bs: seq<Block>): set<Block>
  {
    set b | b in bs && b.used
  }

  /** The block handed out in place of the free block `b`. */
  function Taken(b: Block, size: nat): Block
  {
    if b.size >= size + HEADER + MIN_BLOCK then Block(b.addr, size, true) else b.(used := true)
  }

  lemma UsedJoin(a: seq<Block>, b: seq<Block>)
    ensures UsedBlocks(a + b) == UsedBlocks(a) + UsedBlocks(b)
  {
  }

  /** Allocation adds one used block and touches no other. */
  lemma TakeUsed(bs: seq<Block>, j: nat, size: nat)
    requires j < |bs| && !bs[j].used && size <= bs[j].size
    ensures UsedBlocks(Take(bs, j, size)) == UsedBlocks(bs) + {Taken(bs[j], size)}
  {
    var x := Split(bs[j], size);
    assert bs == bs[..j] + [bs[j]] + bs[j + 1..];
    UsedJoin(bs[..j] + [bs[j]], bs[j + 1..]);
    UsedJoin(bs[..j], [bs[j]]);
    UsedJoin(bs[..j] + x, bs[j + 1..]);
    UsedJoin(bs[..j], x);
    assert x[0] == Taken(bs[j], size);
    assert UsedBlocks(x) == {x[0]};
    assert UsedBlocks([bs[j]]) == {};
  }

  lemma AbsorbUsed(bs: seq<Block>, j: nat)
    requires j < |bs| && !bs[j].used
    ensures UsedBlocks(Absorb(bs, j)) == UsedBlocks(bs)
  {
    if j + 1 < |bs| && !bs[j + 1].used {
      var x, y := [bs[j], bs[j + 1]], [bs[j].(size := bs[j].size + HEADER + bs[j + 1].size)];
      assert bs == bs[..j] + x + bs[j + 2..];
      UsedJoin(bs[..j] + x, bs[j + 2..]);
      UsedJoin(bs[..j], x);
      UsedJoin(bs[..j] + y, bs[j + 2..]);
      UsedJoin(bs[..j], y);
      assert UsedBlocks(x) == {} == UsedBlocks(y);
    }
  }

  /** Release removes one used block and touches no other. */
  lemma GiveUsed(bs: seq<Block>, start: nat, end: nat, j: nat)
    requires Tiles(bs, start, end) && j < |bs| && bs[j].used
    ensures UsedBlocks(Give(bs, j)) == UsedBlocks(bs) - {bs[j]}
  {
    var free := bs[j := bs[j].(used := false)];
    forall i | 0 <= i < |bs| && i != j ensures bs[i] != bs[j] {
      if i < j { TilesOrdered(bs, start, end, i, j); } else { TilesOrdered(bs, start, end, j, i); }
    }
    assert UsedBlocks(free) == UsedBlocks(bs) - {bs[j]} by {
      forall b | b in UsedBlocks(bs) - {bs[j]} ensures b in free {
        var i :| 0 <= i < |bs| && bs[i] == b;
        assert free[i] == b;
      }
    }
    AbsorbUsed(free, j);
    var merged := Absorb(free, j);
    if j > 0 && !merged[j - 1].used { AbsorbUsed(merged, j - 1); }
  }

  /** Releasing what an allocation took restores the blocks exactly. */
  lemma GiveUndoesTake(bs: seq<Block>, j: nat, size: nat)
    requires Coalesced(bs) && j < |bs| && !bs[j].used && size <= bs[j].size
    ensures Give(Take(bs, j, size), j) == bs
  {
    var t := Take(bs, j, size);
    var free := t[j := t[j].(used := false)];
    assert j > 0 ==> bs[j - 1].used && t[j - 1] == bs[j - 1];
    if |Split(bs[j], size)| == 2 {
      assert free[j + 1] == t[j + 1] && free[j + 2..] == bs[j + 1..] && free[..j] == bs[..j];
      assert Absorb(free, j) == bs[..j] + [bs[j]] + bs[j + 1..] == bs;
    } else {
      assert j + 1 < |bs| ==> bs[j + 1].used && free[j + 1] == bs[j + 1];
      assert free == bs;
    }
  }

  /** With no free neighbours, nothing used means one free block is all there is. */
  lemma OnlyFreeIsSingle(bs: seq<Block>)
    requires Coalesced(bs) && bs != []
    ensures !SomeUsed(bs) <==> |bs| == 1 && !bs[0].used
  {
    if |bs| > 1 { assert bs[1 - 1].used || bs[1].used; }
  }

  /** Two different used blocks do not overlap, headers included. */
  lemma UsedDisjoint(bs: seq<Block>, start: nat, end: nat, a: Block, b: Block)
    requires Tiles(bs, start, end) && a in bs && b in bs && a != b
    ensures a.End() <= b.addr || b.End() <= a.addr
  {
    var i :| 0 <= i < |bs| && bs[i] == a;
    var k :| 0 <= k < |bs| && bs[k] == b;
    if i < k { TilesOrdered(bs, start, end, i, k); } else { TilesOrdered(bs, start, end, k, i); }
  }
}

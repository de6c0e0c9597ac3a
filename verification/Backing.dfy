/** What the backing loop of `vmm_alloc` builds, and that a rollback from any
    failure point takes all of it back. */
module Backing {
  import opened Words
  import opened Runs
  import opened Frames
  import opened PageWalk
  import opened Memory

  // ---- a list of frames taken and mapped, one after the other ----

  /** `used` with the frames `fs` marked. */
  function MarkAll(used: seq<bool>, fs: seq<nat>): (r: seq<bool>)
    ensures |r| == |used|
  {
    if fs == [] then used else
    var n := |fs| - 1;
    var r := MarkAll(used, fs[..n]);
    if fs[n] < |used| then r[fs[n] := true] else r
  }

  /** Each frame was free when it was taken, and none is frame 0. */
  ghost predicate Fresh(used: seq<bool>, fs: seq<nat>)
  {
    fs == [] ||
    var n := |fs| - 1;
    Fresh(used, fs[..n]) && 0 < fs[n] < |used| && !MarkAll(used, fs[..n])[fs[n]]
  }

  /** Pages from `v` on mapped to the frames `fs`. */
  function MapAll(g: map<nat, nat>, v: nat, fs: seq<nat>): map<nat, nat>
  {
    if fs == [] then g else
    var n := |fs| - 1;
    MapAll(g, v, fs[..n])[v + n := Pte(fs[n], RW)]
  }

  lemma {:induction false} MarkAllIs(used: seq<bool>, fs: seq<nat>)
    ensures forall f :: 0 <= f < |used| ==> (MarkAll(used, fs)[f] <==> used[f] || f in fs)
  {
    if fs != [] {
      var n := |fs| - 1;
      MarkAllIs(used, fs[..n]);
      assert fs == fs[..n] + [fs[n]];
    }
  }

  lemma {:induction false} FreshIs(used: seq<bool>, fs: seq<nat>)
    requires Fresh(used, fs)
    ensures forall k :: 0 <= k < |fs| ==> 0 < fs[k] < |used| && !used[fs[k]]
    ensures forall j, k :: 0 <= j < k < |fs| ==> fs[j] != fs[k]
  {
    if fs != [] {
      var n := |fs| - 1;
      FreshIs(used, fs[..n]);
      MarkAllIs(used, fs[..n]);
      forall j | 0 <= j < n ensures fs[j] != fs[n] {
        assert fs[..n][j] in fs[..n];
      }
    }
  }

  lemma TailOfInit(fs: seq<nat>)
    requires |fs| > 1
    ensures fs[1..][..|fs| - 2] == fs[..|fs| - 1][1..]
  {
    var n := |fs| - 1;
    var a, b := fs[1..][..n - 1], fs[..n][1..];
    assert |a| == |b| == n - 1;
    assert forall k :: 0 <= k < n - 1 ==> a[k] == b[k];
  }

  lemma {:induction false} FreshTail(used: seq<bool>, fs: seq<nat>)
    requires Fresh(used, fs) && fs != []
    ensures Fresh(used, fs[1..])
  {
    var n := |fs| - 1;
    if n > 0 {
      var init := fs[..n];
      TailOfInit(fs);
      FreshTail(used, init);
      MarkAllIs(used, init);
      MarkAllIs(used, init[1..]);
    }
  }

  lemma {:induction false} CountMarked(used: seq<bool>, fs: seq<nat>)
    requires Fresh(used, fs)
    ensures CountFree(MarkAll(used, fs)) == CountFree(used) - |fs|
  {
    if fs != [] {
      var n := |fs| - 1;
      CountMarked(used, fs[..n]);
      CountFreeUpdate(MarkAll(used, fs[..n]), fs[n], true);
    }
  }

  lemma {:induction false} MapAllIs(g: map<nat, nat>, v: nat, fs: seq<nat>)
    ensures var r := MapAll(g, v, fs);
      && (forall k :: k in r <==> k in g || v <= k < v + |fs|)
      && (forall k :: k in g && !(v <= k < v + |fs|) ==> r[k] == g[k])
      && (forall k :: v <= k < v + |fs| ==> r[k] == Pte(fs[k - v], RW))
  {
    if fs != [] { MapAllIs(g, v, fs[..|fs| - 1]); }
  }

  /** The entry of one page of them. */
  lemma {:induction false} MapAllAt(g: map<nat, nat>, v: nat, fs: seq<nat>, i: nat)
    requires i < |fs|
    ensures v + i in MapAll(g, v, fs) && MapAll(g, v, fs)[v + i] == Pte(fs[i], RW)
  {
    if i < |fs| - 1 { MapAllAt(g, v, fs[..|fs| - 1], i); }
  }

  lemma MapAllFrames(g: map<nat, nat>, v: nat, fs: seq<nat>)
    requires forall k :: 0 <= k < |fs| ==> fs[k] < FRAMES
    ensures var r := MapAll(g, v, fs);
      && (forall k :: k in r <==> k in g || v <= k < v + |fs|)
      && (forall k :: k in g && !(v <= k < v + |fs|) ==> r[k] == g[k])
      && (forall k :: v <= k < v + |fs| ==> FrameOf(r[k]) == fs[k - v])
  {
    MapAllIs(g, v, fs);
    var r := MapAll(g, v, fs);
    forall k | v <= k < v + |fs| && k in r ensures FrameOf(r[k]) == fs[k - v] {
      MapAllAt(g, v, fs, k - v);
      PteFrame(fs[k - v], RW);
    }
  }

  /** Clearing the first frame leaves the others marked. */
  lemma UnmarkFirst(used: seq<bool>, fs: seq<nat>)
    requires Fresh(used, fs) && fs != []
    ensures fs[0] < |used| && MarkAll(used, fs)[fs[0]] && MarkAll(used, fs)[fs[0] := false] == MarkAll(used, fs[1..])
  {
    FreshIs(used, fs);
    MarkAllIs(used, fs);
    MarkAllIs(used, fs[1..]);
    assert fs == [fs[0]] + fs[1..];
    forall f | 0 <= f < |used|
      ensures MarkAll(used, fs)[fs[0] := false][f] == MarkAll(used, fs[1..])[f]
    {
      assert f in fs <==> f == fs[0] || f in fs[1..];
    }
  }

  lemma UnmapFirst(g: map<nat, nat>, v: nat, fs: seq<nat>)
    requires fs != [] && forall k :: v <= k < v + |fs| ==> k !in g
    ensures UnmapRange(MapAll(g, v, fs), v, 1) == MapAll(g, v + 1, fs[1..])
  {
    MapAllIs(g, v, fs);
    MapAllIs(g, v + 1, fs[1..]);
    assert UnmapRange(MapAll(g, v, fs), v, 1) == MapAll(g, v, fs) - {v};
    var a, b := UnmapRange(MapAll(g, v, fs), v, 1), MapAll(g, v + 1, fs[1..]);
    assert forall k :: k in a <==> k in b;
    forall k | k in a ensures a[k] == b[k] {
      if k !in g {
        MapAllAt(g, v, fs, k - v);
        MapAllAt(g, v + 1, fs[1..], k - v - 1);
      }
    }
  }

  // ---- the loops ----

  /** A pool after a failed allocation differs in hint and `largest` at most. */
  ghost predicate SamePool(p: Pool, q: Pool)
  {
    p.used == q.used && p.free == q.free && p.usedCount == q.usedCount && p.usable == q.usable
  }

  /** `m` is `m0` with the pages from `v` on backed by `fs`; bits of the VMM and
      the pool's hint apart. */
  ghost predicate BackedBy(m0: Mem, m: Mem, v: nat, fs: seq<nat>)
  {
    && PoolInv(m.pool) && m.pool.usable == m0.pool.usable
    && m.pool.used == MarkAll(m0.pool.used, fs)
    && m.pages == MapAll(m0.pages, v, fs)
  }

  /** The page that was backed first gives back its own frame. */
  lemma ReleaseFirst(m: Mem, v: nat, f: nat)
    requires v in m.pages && m.pages[v] == Pte(f, RW) && 0 < f < FRAMES
    ensures Release(m, v) == m.(pages := UnmapRange(m.pages, v, 1), pool := Frames.Free(m.pool, f * PAGE, 1))
  {
    assert FrameOf(m.pages[v]) == f;
    assert v * PAGE / PAGE == v && v * PAGE % PAGE == 0;
  }

  lemma FreeFirst(p0: Pool, p: Pool, fs: seq<nat>)
    requires PoolInv(p) && p.used == MarkAll(p0.used, fs) && Fresh(p0.used, fs) && fs != []
    ensures var q := Frames.Free(p, fs[0] * PAGE, 1);
      PoolInv(q) && q.usable == p.usable && q.used == MarkAll(p0.used, fs[1..])
  {
    FreshIs(p0.used, fs);
    UnmarkFirst(p0.used, fs);
    assert fs[0] * PAGE / PAGE == fs[0];
    FreeOneInv(p, fs[0] * PAGE);
  }

  lemma FirstBacked(m0: Mem, m: Mem, v: nat, fs: seq<nat>)
    requires BackedBy(m0, m, v, fs) && Fresh(m0.pool.used, fs) && fs != []
    ensures v in m.pages && m.pages[v] == Pte(fs[0], RW) && 0 < fs[0] < FRAMES
  {
    FreshIs(m0.pool.used, fs);
    MapAllAt(m0.pages, v, fs, 0);
    MarkAllIs(m0.pool.used, fs);
    assert fs[0] in fs;
  }

  lemma RollbackStep(m0: Mem, m: Mem, v: nat, fs: seq<nat>)
    requires BackedBy(m0, m, v, fs) && Fresh(m0.pool.used, fs) && fs != []
    requires forall k :: v <= k < v + |fs| ==> k !in m0.pages
    ensures BackedBy(m0, RollbackOne(m, v), v + 1, fs[1..])
  {
    FirstBacked(m0, m, v, fs);
    ReleaseFirst(m, v, fs[0]);
    FreeFirst(m0.pool, m.pool, fs);
    UnmapFirst(m0.pages, v, fs);
  }

  /** Rolling back the rest restores the pool and the page map. */
  lemma {:induction false} RollbackRestores(m0: Mem, m: Mem, v: nat, fs: seq<nat>, lo: nat)
    requires PoolInv(m0.pool) && BackedBy(m0, m, v + lo, fs) && Fresh(m0.pool.used, fs)
    requires forall k :: v + lo <= k < v + lo + |fs| ==> k !in m0.pages
    ensures var r := Rollback(m, v, lo + |fs|, lo);
      SamePool(m0.pool, r.pool) && r.pages == m0.pages
    decreases |fs|
  {
    if fs != [] {
      RollbackStep(m0, m, v + lo, fs);
      FreshTail(m0.pool.used, fs);
      RollbackRestores(m0, RollbackOne(m, v + lo), v, fs[1..], lo + 1);
    } else {
      NothingBacked(m0, m, v + lo);
    }
  }

  lemma NothingBacked(m0: Mem, m: Mem, v: nat)
    requires PoolInv(m0.pool) && BackedBy(m0, m, v, [])
    ensures SamePool(m0.pool, m.pool) && m.pages == m0.pages
  {
  }

  /** It clears the VMM bits of the rolled-back pages alone. */
  lemma {:induction false} RollbackSpace(m: Mem, v: nat, count: nat, lo: nat)
    requires lo <= count && m.space.base <= v && v + count <= m.space.base + |m.space.used|
    ensures Rollback(m, v, count, lo).space ==
            m.space.(used := SetRange(m.space.used, v + lo - m.space.base, count - lo, false))
    decreases count - lo
  {
    var q := v + lo - m.space.base;
    if lo == count {
      assert SetRange(m.space.used, q, 0, false) == m.space.used;
    } else {
      var n := RollbackOne(m, v + lo);
      RollbackSpace(n, v, count, lo + 1);
      assert SetRange(n.space.used, q + 1, count - lo - 1, false) == SetRange(m.space.used, q, count - lo, false);
    }
  }

  lemma BackStep(m0: Mem, m: Mem, v: nat, fs: seq<nat>) returns (gs: seq<nat>)
    requires BackedBy(m0, m, v, fs) && Fresh(m0.pool.used, fs) && Frames.Alloc(m.pool, 1).1 != 0
    ensures |gs| == |fs| + 1 && Fresh(m0.pool.used, gs) && BackedBy(m0, BackOne(m, v + |fs|), v, gs)
  {
    AllocOneIsCyclicScan(m.pool);
    var f := Frames.Alloc(m.pool, 1).1 / PAGE;
    gs := fs + [f];
    assert gs[..|fs|] == fs;
    assert MapRange(m.pages, v + |fs|, f, RW, 1) == MapRange(m.pages, v + |fs|, f, RW, 0)[v + |fs| := Pte(f, RW)];
  }

  /** Where the backing loop stops: all pages backed, or no frame left. */
  lemma {:induction false} BackStops(m0: Mem, m: Mem, v: nat, count: nat, fs: seq<nat>)
    returns (n: Mem, gs: seq<nat>)
    requires BackedBy(m0, m, v, fs) && Fresh(m0.pool.used, fs) && |fs| <= count
    ensures BackedBy(m0, n, v, gs) && Fresh(m0.pool.used, gs) && |gs| <= count && n.space == m.space
    ensures |gs| < count ==> Frames.Alloc(n.pool, 1).1 == 0
    ensures Back(m, v, count, |fs|) == Back(n, v, count, |gs|)
    decreases count - |fs|
  {
    n, gs := m, fs;
    if |fs| < count && Frames.Alloc(m.pool, 1).1 != 0 {
      gs := BackStep(m0, m, v, fs);
      n, gs := BackStops(m0, BackOne(m, v + |fs|), v, count, gs);
    }
  }

  /** The failing iteration finds no free frame: the `fs` taken are all there were. */
  lemma BackFails(m0: Mem, m: Mem, v: nat, fs: seq<nat>)
    requires BackedBy(m0, m, v, fs) && Fresh(m0.pool.used, fs) && Frames.Alloc(m.pool, 1).1 == 0
    ensures CountFree(m0.pool.used) == |fs|
    ensures BackedBy(m0, m.(pool := Frames.Alloc(m.pool, 1).0), v, fs)
  {
    AllocOneIsCyclicScan(m.pool);
    CountMarked(m0.pool.used, fs);
    CountFreePositive(m.pool.used);
  }

  lemma BackUndone(m: Mem, n: Mem, v: nat, fs: seq<nat>)
    requires PoolInv(m.pool) && BackedBy(m, n, v, fs) && Fresh(m.pool.used, fs) && n.space == m.space
    requires forall k :: v <= k < v + |fs| ==> k !in m.pages
    requires m.space.base <= v && v + |fs| <= m.space.base + |m.space.used|
    ensures var r := Rollback(n, v, |fs|, 0);
      && SamePool(m.pool, r.pool) && r.pages == m.pages
      && r.space == m.space.(used := SetRange(m.space.used, v - m.space.base, |fs|, false))
  {
    RollbackRestores(m, n, v, fs, 0);
    RollbackSpace(n, v, |fs|, 0);
  }

  /** The backing loop: either every page gets a fresh frame of its own, or all
      frames taken are given back and the bits of those pages cleared. It fails
      exactly when fewer than `count` frames are free. */
  lemma BackOutcome(m: Mem, v: nat, count: nat) returns (fs: seq<nat>)
    requires PoolInv(m.pool) && forall k :: v <= k < v + count ==> k !in m.pages
    requires m.space.base <= v && v + count <= m.space.base + |m.space.used|
    ensures var (r, ok) := Back(m, v, count, 0);
      && Fresh(m.pool.used, fs)
      && (ok ==> |fs| == count && BackedBy(m, r, v, fs) && r.space == m.space)
      && (!ok ==> |fs| == CountFree(m.pool.used) < count && SamePool(m.pool, r.pool) && r.pages == m.pages)
      && (!ok ==> r.space == m.space.(used := SetRange(m.space.used, v - m.space.base, |fs|, false)))
  {
    var n;
    n, fs := BackStops(m, m, v, count, []);
    if |fs| < count {
      BackFails(m, n, v, fs);
      BackUndone(m, n.(pool := Frames.Alloc(n.pool, 1).0), v, fs);
    }
  }
}

/** Plain linear scans over a page bitmap, seen as one flag per page: the
    references that the word-at-a-time searches have to agree with. */
module Runs {
  import opened Words

  /** `count` pages from `start` on exist and are all free. */
  predicate FreeRun(used: seq<bool>, start: nat, count: nat)
  {
    start + count <= |used| && forall k :: start <= k < start + count ==> !used[k]
  }

  /** The first free page at or after `from`. */
  function NextFree(used: seq<bool>, from: nat): (r: Option<nat>)
    ensures r.Some? ==> from <= r.value < |used| && !used[r.value]
    ensures r.Some? ==> forall k :: from <= k < r.value ==> used[k]
    ensures r.None? ==> forall k :: from <= k < |used| ==> used[k]
    decreases |used| - from
  {
    if from >= |used| then None
    else if !used[from] then Some(from)
    else NextFree(used, from + 1)
  }

  /** The lowest start at or after `from` of a free run of `count` pages. */
  function FirstFit(used: seq<bool>, count: nat, from: nat): (r: Option<nat>)
    ensures r.Some? ==> from <= r.value && FreeRun(used, r.value, count)
    ensures r.Some? ==> forall q :: from <= q < r.value ==> !FreeRun(used, q, count)
    ensures r.None? ==> forall q :: from <= q ==> !FreeRun(used, q, count)
    decreases |used| + 1 - from
  {
    if from + count > |used| then None
    else if FreeRun(used, from, count) then Some(from)
    else FirstFit(used, count, from + 1)
  }

  /** What a search returned pins down `FirstFit`. */
  lemma FirstFitIs(used: seq<bool>, count: nat, r: Option<nat>)
    requires r.Some? ==> FreeRun(used, r.value, count)
    requires r.Some? ==> forall q :: 0 <= q < r.value ==> !FreeRun(used, q, count)
    requires r.None? ==> forall q :: 0 <= q ==> !FreeRun(used, q, count)
    ensures FirstFit(used, count, 0) == r
  {
  }

  lemma NextFreeIs(used: seq<bool>, from: nat, p: nat)
    requires from <= p < |used| && !used[p]
    requires forall k :: from <= k < p ==> used[k]
    ensures NextFree(used, from) == Some(p)
    decreases p - from
  {
  }

  // ---- counting ----

  function CountFree(used: seq<bool>): (n: nat)
    ensures n <= |used|
  {
    if used == [] then 0
    else CountFree(used[..|used| - 1]) + (if used[|used| - 1] then 0 else 1)
  }

  lemma {:induction false} CountFreeUpdate(used: seq<bool>, p: nat, b: bool)
    requires p < |used|
    ensures CountFree(used[p := b]) ==
            CountFree(used) + (if used[p] then 1 else 0) - (if b then 1 else 0)
  {
    var n := |used| - 1;
    if p == n {
      assert used[p := b][..n] == used[..n];
    } else {
      assert used[p := b][..n] == used[..n][p := b];
      CountFreeUpdate(used[..n], p, b);
    }
  }

  /** `used` with `count` flags from `start` on set to `b`. */
  function SetRange(used: seq<bool>, start: nat, count: nat, b: bool): (r: seq<bool>)
    ensures |r| == |used|
    ensures forall k :: 0 <= k < |used| ==> r[k] == (if start <= k < start + count then b else used[k])
  {
    seq(|used|, k requires 0 <= k < |used| => if start <= k < start + count then b else used[k])
  }

  /** Setting a clear run and clearing part of it again loses nothing else. */
  lemma PartlyUndone(used: seq<bool>, start: nat, count: nat, n: nat)
    requires FreeRun(used, start, count) && n <= count
    ensures var r := SetRange(SetRange(used, start, count, true), start, n, false);
      forall k :: 0 <= k < |used| ==> (used[k] ==> r[k])
  {
  }

  lemma {:induction false} CountFreeRange(used: seq<bool>, start: nat, count: nat, b: bool)
    requires start + count <= |used|
    requires forall k :: start <= k < start + count ==> used[k] != b
    ensures CountFree(SetRange(used, start, count, b)) == if b then CountFree(used) - count else CountFree(used) + count
    decreases count
  {
    if count == 0 {
      assert SetRange(used, start, count, b) == used;
    } else {
      var rest := SetRange(used, start, count - 1, b);
      CountFreeRange(used, start, count - 1, b);
      CountFreeUpdate(rest, start + count - 1, b);
      assert SetRange(used, start, count, b) == rest[start + count - 1 := b];
    }
  }

  /** A positive count means some page is free, and the other way round. */
  lemma {:induction false} CountFreePositive(used: seq<bool>)
    ensures CountFree(used) > 0 <==> NextFree(used, 0).Some?
  {
    if used != [] {
      var n := |used| - 1;
      CountFreePositive(used[..n]);
      var f := NextFree(used[..n], 0);
      if f.Some? { assert !used[f.value]; }
      var g := NextFree(used, 0);
      if g.Some? && g.value < n { assert !used[..n][g.value]; }
      assert forall k :: 0 <= k < n ==> used[..n][k] == used[k];
    }
  }

  /** A free run is counted in full. */
  lemma FreeRunCounted(used: seq<bool>, start: nat, count: nat)
    requires FreeRun(used, start, count)
    ensures count <= CountFree(used)
  {
    CountFreeRange(used, start, count, true);
  }
}

/** A page bitmap held in an array of 32-bit words, one bit per page, set when
    the page is used; the searches and updates both allocators make on it. */
module Bitmap {
  import opened Words
  import opened Runs

  /** `CEIL_DIV(total, 32)` */
  function WordsFor(total: nat): (n: nat)
    ensures 32 * n >= total && (total > 0 ==> 32 * (n - 1) < total)
  {
    (total + 31) / 32
  }

  predicate UsedPage(words: seq<Word>, p: nat)
    requires p / 32 < |words|
  {
    Bit(words[p / 32], p % 32)
  }

  /** The bitmap as one flag per page. */
  function Flags(words: seq<Word>, total: nat): (f: seq<bool>)
    requires total <= 32 * |words|
    ensures |f| == total
    ensures forall p :: 0 <= p < total ==> f[p] == UsedPage(words, p)
  {
    seq(total, p requires 0 <= p < total => UsedPage(words, p))
  }

  method SetPage(a: array<Word>, p: nat)
    requires p < 32 * a.Length
    modifies a
    ensures forall q: nat :: q < 32 * a.Length ==> UsedPage(a[..], q) == (old(UsedPage(a[..], q)) || q == p)
    ensures forall total: nat {:trigger Flags(a[..], total)} ::
              p < total <= 32 * a.Length ==> Flags(a[..], total) == old(Flags(a[..], total))[p := true]
  {
    ghost var was := a[..];
    a[p / 32] := OrWord(a[p / 32], Mask(p % 32));
    forall q: nat | q < 32 * a.Length ensures UsedPage(a[..], q) == (UsedPage(was, q) || q == p) {
      SetBit(was[p / 32], p % 32, q % 32);
    }
    forall total: nat | p < total <= 32 * a.Length
      ensures Flags(a[..], total) == Flags(was, total)[p := true]
    {
      assert forall k :: 0 <= k < total ==> Flags(a[..], total)[k] == Flags(was, total)[p := true][k];
    }
  }

  method ClearPage(a: array<Word>, p: nat)
    requires p < 32 * a.Length
    modifies a
    ensures forall q: nat :: q < 32 * a.Length ==> UsedPage(a[..], q) == (old(UsedPage(a[..], q)) && q != p)
    ensures forall total: nat {:trigger Flags(a[..], total)} ::
              p < total <= 32 * a.Length ==> Flags(a[..], total) == old(Flags(a[..], total))[p := false]
  {
    ghost var was := a[..];
    a[p / 32] := AndWord(a[p / 32], Not(Mask(p % 32)));
    forall q: nat | q < 32 * a.Length ensures UsedPage(a[..], q) == (UsedPage(was, q) && q != p) {
      ClearBit(was[p / 32], p % 32, q % 32);
    }
    forall total: nat | p < total <= 32 * a.Length
      ensures Flags(a[..], total) == Flags(was, total)[p := false]
    {
      assert forall k :: 0 <= k < total ==> Flags(a[..], total)[k] == Flags(was, total)[p := false][k];
    }
  }

  /** `bits & (1U << b)` */
  method TestWord(bits: Word, b: nat) returns (taken: bool)
    requires b < 32
    ensures taken == Bit(bits, b)
  {
    TestBit(bits, b);
    taken := AndWord(bits, Mask(b)) != 0;
  }

  method TestPage(a: array<Word>, p: nat) returns (used: bool)
    requires p < 32 * a.Length
    ensures used == UsedPage(a[..], p)
  {
    used := TestWord(a[p / 32], p % 32);
  }

  /** Marks `count` pages used, one at a time. */
  method SetRun(a: array<Word>, total: nat, start: nat, count: nat)
    requires start + count <= total <= 32 * a.Length
    modifies a
    ensures Flags(a[..], total) == SetRange(old(Flags(a[..], total)), start, count, true)
    ensures forall q: nat :: total <= q < 32 * a.Length ==> UsedPage(a[..], q) == old(UsedPage(a[..], q))
  {
    ghost var was := Flags(a[..], total);
    assert SetRange(was, start, 0, true) == was;
    for i := 0 to count
      invariant Flags(a[..], total) == SetRange(was, start, i, true)
      invariant forall q: nat :: total <= q < 32 * a.Length ==> UsedPage(a[..], q) == old(UsedPage(a[..], q))
    {
      SetPage(a, start + i);
      assert SetRange(was, start, i + 1, true) == SetRange(was, start, i, true)[start + i := true];
    }
  }

  lemma WordFlags(words: seq<Word>, total: nat, dword: nat, b: nat)
    requires total <= 32 * |words| && b < 32 && 32 * dword + b < total
    ensures Flags(words, total)[32 * dword + b] == Bit(words[dword], b)
  {
    var p := 32 * dword + b;
    assert p / 32 == dword && p % 32 == b;
  }

  // ---- the contiguous search ----

  /** `n` is the length of the longest free run that a used page ends. */
  ghost predicate LongestClosed(used: seq<bool>, n: nat)
  {
    && (forall s: nat, m: nat :: FreeRun(used, s, m) && s + m < |used| && used[s + m] ==> m <= n)
    && (n > 0 ==> exists s: nat :: FreeRun(used, s, n) && s + n < |used| && used[s + n])
  }

  /** `n` is the length of the longest free run. */
  ghost predicate Longest(used: seq<bool>, n: nat)
  {
    && (forall s: nat, m: nat :: FreeRun(used, s, m) ==> m <= n)
    && exists s: nat :: FreeRun(used, s, n)
  }

  /** The free run that ends just before page `at`. */
  function RunAt(used: seq<bool>, at: nat): (n: nat)
    requires at <= |used|
    ensures n <= at
  {
    if at == 0 || used[at - 1] then 0 else RunAt(used, at - 1) + 1
  }

  /** The longest run among those a used page below `at` ends. */
  function BestClosed(used: seq<bool>, at: nat): nat
    requires at <= |used|
  {
    if at == 0 then 0
    else if used[at - 1] && BestClosed(used, at - 1) < RunAt(used, at - 1) then RunAt(used, at - 1)
    else BestClosed(used, at - 1)
  }

  /** No run below `at` reaches `count`. */
  predicate NoFit(used: seq<bool>, at: nat, count: nat)
    requires at <= |used|
  {
    RunAt(used, at) < count && (at > 0 ==> NoFit(used, at - 1, count))
  }

  lemma {:induction false} RunAtFree(used: seq<bool>, at: nat)
    requires at <= |used|
    ensures FreeRun(used, at - RunAt(used, at), RunAt(used, at))
    ensures forall s: nat, m: nat :: FreeRun(used, s, m) && s + m == at ==> m <= RunAt(used, at)
  {
    if at > 0 {
      RunAtFree(used, at - 1);
      if used[at - 1] {
        assert forall s: nat, m: nat :: FreeRun(used, s, m) && s + m == at ==> m == 0;
      } else {
        forall s: nat, m: nat | FreeRun(used, s, m) && s + m == at ensures m <= RunAt(used, at) {
          if m > 0 { assert FreeRun(used, s, m - 1); }
        }
      }
    }
  }

  lemma {:induction false} NoFitBelow(used: seq<bool>, at: nat, count: nat, q: nat)
    requires at <= |used| && NoFit(used, at, count) && q + count <= at
    ensures !FreeRun(used, q, count)
  {
    RunAtFree(used, at);
    if q + count < at { NoFitBelow(used, at - 1, count, q); }
  }

  /** A run of `count` with none before it is the first fit. */
  lemma FirstFitFound(used: seq<bool>, at: nat, count: nat)
    requires at < |used| && 0 < count && NoFit(used, at, count) && RunAt(used, at + 1) == count
    ensures FirstFit(used, count, 0) == Some(at + 1 - count)
  {
    RunAtFree(used, at + 1);
    forall q | 0 <= q < at + 1 - count ensures !FreeRun(used, q, count) {
      NoFitBelow(used, at, count, q);
    }
    FirstFitIs(used, count, Some(at + 1 - count));
  }

  lemma NoFitAtAll(used: seq<bool>, count: nat)
    requires NoFit(used, |used|, count)
    ensures FirstFit(used, count, 0) == None
  {
    forall q: nat ensures !FreeRun(used, q, count) {
      if q + count <= |used| { NoFitBelow(used, |used|, count, q); }
    }
    FirstFitIs(used, count, None);
  }

  lemma {:induction false} BestClosedIs(used: seq<bool>, at: nat)
    requires at <= |used|
    ensures forall s: nat, m: nat :: FreeRun(used, s, m) && s + m < at && used[s + m] ==> m <= BestClosed(used, at)
    ensures BestClosed(used, at) > 0 ==>
      exists s: nat :: FreeRun(used, s, BestClosed(used, at)) && s + BestClosed(used, at) < at &&
        used[s + BestClosed(used, at)]
  {
    if at > 0 {
      BestClosedIs(used, at - 1);
      RunAtFree(used, at - 1);
    }
  }

  /** What the search knows just before page `at`. */
  ghost predicate Scanned(used: seq<bool>, at: nat, count: nat, start: nat, run: nat, largest: nat)
  {
    && at <= |used| && run == RunAt(used, at) && largest == BestClosed(used, at) && NoFit(used, at, count)
    && (run > 0 ==> start == at - run)
  }

  /** The inner loop of the search: one word of the bitmap, bit by bit. */
  method ScanWord(bits: Word, dword: nat, total: nat, count: nat, start0: nat, run0: nat, largest0: nat,
                  ghost used: seq<bool>)
    returns (found: bool, start: nat, run: nat, largest: nat)
    requires |used| == total && 32 * dword <= total
    requires forall b: nat :: b < 32 && 32 * dword + b < total ==> used[32 * dword + b] == Bit(bits, b)
    requires Scanned(used, 32 * dword, count, start0, run0, largest0)
    ensures found ==> FirstFit(used, count, 0) == Some(start) && largest == count
    ensures !found ==>
      Scanned(used, if 32 * dword + 32 <= total then 32 * dword + 32 else total, count, start, run, largest)
  {
    found, start, run, largest := false, start0, run0, largest0;
    var bit := 0;
    while bit < 32
      invariant bit <= 32 && 32 * dword + bit <= total
      invariant Scanned(used, 32 * dword + bit, count, start, run, largest)
    {
      var page := 32 * dword + bit;
      if page >= total {
        break;
      }
      var taken := TestWord(bits, bit);
      if taken {
        if largest < run {
          largest := run;
        }
        run := 0;
      } else {
        if run == 0 {
          start := page;
        }
        run := run + 1;
        if run == count {
          FirstFitFound(used, page, count);
          return true, start, run, run;
        }
      }
      bit := bit + 1;
    }
  }

  lemma AllWordFlags(words: seq<Word>, total: nat, dword: nat)
    requires total <= 32 * |words| && dword < |words|
    ensures forall b: nat :: b < 32 && 32 * dword + b < total ==>
      Flags(words, total)[32 * dword + b] == Bit(words[dword], b)
  {
    forall b: nat | b < 32 && 32 * dword + b < total
      ensures Flags(words, total)[32 * dword + b] == Bit(words[dword], b)
    {
      WordFlags(words, total, dword, b);
    }
  }

  /** The search for `count` consecutive free pages: exactly first fit below
      `total`; `largest` is what it leaves in `largest_run`. */
  method FindRun(a: array<Word>, total: nat, count: nat) returns (found: bool, start: nat, largest: nat)
    requires a.Length == WordsFor(total)
    ensures count == 0 ==> !found && largest == 0
    ensures count > 0 ==> (if found then Some(start) else None) == FirstFit(Flags(a[..], total), count, 0)
    ensures found ==> largest == count
    ensures count > 0 && !found ==> largest == BestClosed(Flags(a[..], total), total)
  {
    found, start, largest := false, 0, 0;
    if count == 0 {
      return;
    }
    ghost var used := Flags(a[..], total);
    var run, dword := 0, 0;
    while dword < a.Length
      invariant dword <= a.Length
      invariant Scanned(used, if 32 * dword <= total then 32 * dword else total, count, start, run, largest)
    {
      AllWordFlags(a[..], total, dword);
      found, start, run, largest := ScanWord(a[dword], dword, total, count, start, run, largest, used);
      if found {
        return;
      }
      dword := dword + 1;
    }
    NoFitAtAll(used, count);
  }

  /** The free pages at the end of the bitmap. */
  function TailFree(used: seq<bool>): (n: nat)
    ensures n <= |used| && FreeRun(used, |used| - n, n)
    ensures n < |used| ==> used[|used| - n - 1]
  {
    if used == [] || used[|used| - 1] then 0 else
    var n := TailFree(used[..|used| - 1]);
    assert forall k :: 0 <= k < |used| - 1 ==> used[k] == used[..|used| - 1][k];
    n + 1
  }

  /** A used page ends a free run of `n` pages. */
  ghost predicate Closed(used: seq<bool>, n: nat)
  {
    exists s: nat :: FreeRun(used, s, n) && s + n < |used| && used[s + n]
  }

  /** On failure `largest_run` holds the longest free run that a used page
      ends, so it is the longest free run exactly when some used page ends a run as
      long as the one at the end of the bitmap. */
  lemma LargestRunReport(used: seq<bool>)
    ensures LongestClosed(used, BestClosed(used, |used|))
    ensures Longest(used, BestClosed(used, |used|)) <==> TailFree(used) == 0 || Closed(used, TailFree(used))
  {
    BestClosedIs(used, |used|);
    LongestIff(used, BestClosed(used, |used|));
  }

  lemma LongestIff(used: seq<bool>, n: nat)
    requires LongestClosed(used, n)
    ensures Longest(used, n) <==> TailFree(used) == 0 || Closed(used, TailFree(used))
  {
    if TailFree(used) == 0 || Closed(used, TailFree(used)) {
      LongestReported(used, n);
    } else if Longest(used, n) {
      ClosedTail(used, n);
    }
  }

  lemma ClosedTail(used: seq<bool>, n: nat)
    requires LongestClosed(used, n) && Longest(used, n) && TailFree(used) > 0
    ensures Closed(used, TailFree(used))
  {
    var t := TailFree(used);
    assert FreeRun(used, |used| - t, t);
    var s: nat :| FreeRun(used, s, n) && s + n < |used| && used[s + n];
    assert FreeRun(used, s + n - t, t) && used[s + n - t + t];
  }

  lemma LongestReported(used: seq<bool>, n: nat)
    requires LongestClosed(used, n) && (TailFree(used) == 0 || Closed(used, TailFree(used)))
    ensures Longest(used, n)
  {
    forall s: nat, m: nat | FreeRun(used, s, m) ensures m <= n {
      var e := RunEnd(used, s, m);
      if e < |used| {
        assert FreeRun(used, s, e - s) && used[s + (e - s)];
      } else {
        TailLongest(used, s, m);
      }
    }
    if n == 0 { assert FreeRun(used, 0, 0); }
  }

  /** A run at the end of the bitmap is part of the last one. */
  lemma TailLongest(used: seq<bool>, s: nat, m: nat)
    requires FreeRun(used, s, m) && FreeRun(used, s, |used| - s)
    ensures m <= TailFree(used)
  {
    var t := TailFree(used);
    assert t == |used| || used[|used| - t - 1];
  }

  /** The shortest failure: two free pages at the end are reported as none. */
  lemma TailIgnored()
    ensures var used := [true, false, false]; BestClosed(used, 3) == 0 && !Longest(used, 0)
  {
    var used := [true, false, false];
    assert RunAt(used, 0) == 0 && BestClosed(used, 1) == 0 && BestClosed(used, 2) == 0;
    assert FreeRun(used, 1, 2);
  }

  /** Extends a free run as far as it goes. */
  lemma {:induction false} RunEnd(used: seq<bool>, s: nat, m: nat) returns (e: nat)
    requires FreeRun(used, s, m)
    ensures s + m <= e <= |used| && FreeRun(used, s, e - s)
    ensures e < |used| ==> used[e]
    decreases |used| - m
  {
    e := s + m;
    if e < |used| && !used[e] { e := RunEnd(used, s, m + 1); }
  }
}

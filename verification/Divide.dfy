/** The 64-bit runtime division (__udivmoddi4.c): shift and subtract. */
module Divide {
  import opened Words

  const DWORD: nat := 0x1_0000_0000_0000_0000

  type Dword = n: nat | n < 0x1_0000_0000_0000_0000

  // ---- shifts ----

  /** `n >> i` */
  function Shr(n: nat, i: nat): nat
    decreases i
  {
    if i == 0 then n else Shr(n / 2, i - 1)
  }

  /** `n << i` without a width. */
  function Shl(n: nat, i: nat): nat
  {
    if i == 0 then n else 2 * Shl(n, i - 1)
  }

  lemma {:induction false} ShrNext(n: nat, i: nat)
    ensures Shr(n, i) == 2 * Shr(n, i + 1) + Shr(n, i) % 2
    decreases i
  {
    if i > 0 { ShrNext(n / 2, i - 1); } else { assert Shr(n, 1) == Shr(n / 2, 0); }
  }

  lemma {:induction false} ShrBound(n: nat, i: nat)
    ensures Shr(n, i) <= n
    decreases i
  {
    if i > 0 { ShrBound(n / 2, i - 1); }
  }

  lemma {:induction false} ShrAll(n: nat, i: nat)
    requires n < Pow2(i)
    ensures Shr(n, i) == 0
  {
    if i > 0 { ShrAll(n / 2, i - 1); }
  }

  lemma {:induction false} ShlTwice(n: nat, i: nat)
    ensures Shl(2 * n, i) == 2 * Shl(n, i)
  {
    if i > 0 { ShlTwice(n, i - 1); }
  }

  /** A quotient bit lands on a clear bit: `q | 1 << i`. */
  lemma {:induction false} QuotientBit(quot: nat, i: nat)
    ensures Or(Shl(quot, i + 1), Pow2(i)) == Shl(2 * quot + 1, i)
  {
    if i == 0 {
      ShiftIn(quot, 1);
    } else {
      QuotientBit(quot, i - 1);
      var a, b := Shl(quot, i), Pow2(i - 1);
      assert Shl(quot, i + 1) == 2 * a && Pow2(i) == 2 * b;
      OrDoubles(a, b);
    }
  }

  lemma OrDoubles(a: nat, b: nat)
    ensures Or(2 * a, 2 * b) == 2 * Or(a, b)
  {
    assert (2 * a) / 2 == a && (2 * b) / 2 == b;
  }

  /** `r <<= 1; r |= bit` */
  lemma ShiftIn(r: nat, bit: nat)
    requires bit <= 1
    ensures Or(2 * r, bit) == 2 * r + bit
  {
    if r > 0 {
      OrZero(r);
      assert (2 * r) / 2 == r && bit / 2 == 0;
    }
  }

  /** What has been shifted in fits: the low part of a 64-bit number. */
  lemma {:induction false} ShlShr(k: nat, n: nat, i: nat)
    requires k <= Shr(n, i)
    ensures Shl(k, i) <= n
    decreases i
  {
    if i > 0 {
      ShrNext(n, i - 1);
      ShlShr(2 * k, n, i - 1);
      ShlTwice(k, i - 1);
    }
  }

  // ---- long division ----

  lemma {:induction false} MulAtLeast(a: nat, d: nat)
    requires a >= 1
    ensures a * d >= d
  {
    assert a * d == (a - 1) * d + d;
  }

  /** Quotient and remainder are unique. */
  lemma DivUnique(n: nat, d: nat, q: nat, r: nat)
    requires d > 0 && n == q * d + r && r < d
    ensures n / d == q && n % d == r
  {
    var p, s := n / d, n % d;
    assert n == d * p + s;
    assert d * p == p * d;
    if p < q {
      assert (q - p) * d == q * d - p * d;
      MulAtLeast(q - p, d);
    } else if q < p {
      assert (p - q) * d == p * d - q * d;
      MulAtLeast(p - q, d);
    }
  }

  /** `a * d`, by repeated addition. */
  function Times(a: nat, d: nat): nat
  {
    if a == 0 then 0 else Times(a - 1, d) + d
  }

  lemma {:induction false} TimesIsProduct(a: nat, d: nat)
    ensures Times(a, d) == a * d
  {
    if a > 0 {
      TimesIsProduct(a - 1, d);
      assert a * d == (a - 1) * d + d;
    }
  }

  lemma {:induction false} TimesTwice(a: nat, d: nat)
    ensures Times(2 * a, d) == 2 * Times(a, d)
  {
    if a > 0 { TimesTwice(a - 1, d); }
  }

  lemma {:induction false} TimesBound(a: nat, d: nat)
    requires d > 0
    ensures a <= Times(a, d)
  {
    if a > 0 { TimesBound(a - 1, d); }
  }

  /** One step: the quotient so far times the divisor plus the remainder is the
      part of the numerator already shifted in. */
  lemma LongDivisionStep(hi: nat, quot: nat, r: nat, d: nat, bit: nat) returns (quot': nat, r': nat)
    requires d > 0 && hi == Times(quot, d) + r && r < d && bit <= 1
    ensures 2 * hi + bit == Times(quot', d) + r' && r' < d
    ensures 2 * r + bit >= d ==> quot' == 2 * quot + 1 && r' == 2 * r + bit - d
    ensures 2 * r + bit < d ==> quot' == 2 * quot && r' == 2 * r + bit
    ensures r <= hi && quot' <= 2 * hi + bit
  {
    TimesTwice(quot, d);
    if 2 * r + bit >= d {
      quot', r' := 2 * quot + 1, 2 * r + bit - d;
    } else {
      quot', r' := 2 * quot, 2 * r + bit;
    }
    TimesBound(quot', d);
  }

  lemma Pow64()
    ensures Pow2(64) == DWORD
  {
    Pow32();
    assert Pow2(40) == 0x100_0000_0000;
    assert Pow2(48) == 0x1_0000_0000_0000;
    assert Pow2(56) == 0x100_0000_0000_0000;
  }

  /** What `q` and `r` hold when the bits from `i` up have been processed. */
  ghost predicate Partial(numerator: Dword, denominator: Dword, i: nat, quot: nat, q: Dword, r: Dword)
  {
    r < denominator && q == Shl(quot, i) && Shr(numerator, i) == Times(quot, denominator) + r
  }

  /** `r << 1` */
  function Double(r: Dword): (s: Dword)
    ensures 2 * r < DWORD ==> s == 2 * r
  {
    2 * r % DWORD
  }

  lemma RemainderStep(numerator: Dword, denominator: Dword, i: nat, quot: nat, q: Dword, r: Dword) returns (quot': nat)
    requires Partial(numerator, denominator, i + 1, quot, q, r)
    ensures var next := 2 * r + Shr(numerator, i) % 2;
      && next < DWORD
      && (next >= denominator ==>
        quot' == 2 * quot + 1 && Shr(numerator, i) == Times(quot', denominator) + next - denominator)
      && (next < denominator ==> quot' == 2 * quot && Shr(numerator, i) == Times(quot', denominator) + next)
      && next < 2 * denominator
      && quot' <= Shr(numerator, i)
  {
    ShrNext(numerator, i);
    ShrBound(numerator, i);
    var rest: nat;
    quot', rest := LongDivisionStep(Shr(numerator, i + 1), quot, r, denominator, Shr(numerator, i) % 2);
  }

  lemma QuotientStep(numerator: Dword, i: nat, quot: nat, quot': nat)
    requires quot' <= Shr(numerator, i)
    ensures quot' == 2 * quot + 1 ==> Or(Shl(quot, i + 1), Pow2(i)) == Shl(quot', i) < DWORD
    ensures quot' == 2 * quot ==> Shl(quot, i + 1) == Shl(quot', i)
  {
    QuotientBit(quot, i);
    ShlTwice(quot, i);
    ShlShr(quot', numerator, i);
  }

  /** The loop body: shift in bit `i`, subtract, set the quotient bit. No bit is
      lost in the left shift, because the remainder never exceeds the part of the
      numerator shifted in so far. */
  method DivideBit(numerator: Dword, denominator: Dword, i: nat, ghost quot: nat, q: Dword, r: Dword)
    returns (q': Dword, r': Dword, ghost quot': nat)
    requires Partial(numerator, denominator, i + 1, quot, q, r)
    ensures 2 * r < DWORD
    ensures Partial(numerator, denominator, i, quot', q', r')
  {
    quot' := RemainderStep(numerator, denominator, i, quot, q, r);
    QuotientStep(numerator, i, quot, quot');
    var bit := Shr(numerator, i) % 2;
    ShiftIn(r, bit);
    q', r' := q, Or(Double(r), bit);
    if r' >= denominator {
      q', r' := Or(q, Pow2(i)), r' - denominator;
    }
  }

  method LongDivide(numerator: Dword, denominator: Dword) returns (q: Dword, r: Dword)
    requires denominator > 0
    ensures numerator == Times(q, denominator) + r && r < denominator
  {
    q, r := 0, 0;
    ghost var quot: nat := 0;
    var i := 64;
    Pow64();
    ShrAll(numerator, 64);
    ShlShr(0, 0, 64);
    while i > 0
      invariant 0 <= i <= 64
      invariant Partial(numerator, denominator, i, quot, q, r)
    {
      i := i - 1;
      q, r, quot := DivideBit(numerator, denominator, i, quot, q, r);
    }
  }

  /** Quotient and remainder for every pair of 64-bit numbers. Dividing by 0
      returns 0 and stores no remainder. */
  method UDivMod(numerator: Dword, denominator: Dword) returns (q: Dword, remainder: Option<Dword>)
    ensures denominator == 0 ==> q == 0 && remainder == None
    ensures denominator != 0 ==> q == numerator / denominator && remainder == Some(numerator % denominator)
  {
    if denominator == 0 {
      return 0, None;
    }
    var r;
    q, r := LongDivide(numerator, denominator);
    TimesIsProduct(q, denominator);
    DivUnique(numerator, denominator, q, r);
    remainder := Some(r);
  }
}

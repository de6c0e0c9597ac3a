/** 32-bit machine words: the bit operations of the page bitmaps on unsigned
    numbers, and the alignment arithmetic of C's unsigned 32-bit integers. */
module Words {
  datatype Option<+T> = None | Some(value: T)

  const WORD: nat := 0x1_0000_0000
  const PAGE: nat := 4096

  type Word = w: nat | w < 0x1_0000_0000

  const ONES: Word := 0xFFFF_FFFF

  // ---- bits of a number ----

  /** `1 << b` */
  function Pow2(b: nat): (r: nat)
    ensures r > 0
  {
    if b == 0 then 1 else 2 * Pow2(b - 1)
  }

  /** Bit `b` of `w`: shift right `b` times and look at the low bit. */
  predicate Bit(w: nat, b: nat)
  {
    if b == 0 then w % 2 == 1 else Bit(w / 2, b - 1)
  }

  /** `w | v` */
  function Or(w: nat, v: nat): nat
  {
    if w == 0 then v else
    (if w % 2 == 1 || v % 2 == 1 then 1 else 0) + 2 * Or(w / 2, v / 2)
  }

  /** `w & v` */
  function And(w: nat, v: nat): nat
  {
    if w == 0 then 0 else
    (if w % 2 == 1 && v % 2 == 1 then 1 else 0) + 2 * And(w / 2, v / 2)
  }

  lemma {:induction false} OrBit(w: nat, v: nat, j: nat)
    ensures Bit(Or(w, v), j) == (Bit(w, j) || Bit(v, j))
    decreases j
  {
    if w == 0 {
      ZeroBit(j);
    } else if j > 0 {
      OrBit(w / 2, v / 2, j - 1);
    }
  }

  lemma {:induction false} AndBit(w: nat, v: nat, j: nat)
    ensures Bit(And(w, v), j) == (Bit(w, j) && Bit(v, j))
    decreases j
  {
    if w == 0 {
      ZeroBit(j);
    } else if j > 0 {
      AndBit(w / 2, v / 2, j - 1);
    }
  }

  lemma {:induction false} ZeroBit(j: nat)
    ensures !Bit(0, j)
  {
    if j > 0 { ZeroBit(j - 1); }
  }

  lemma {:induction false} OrZero(v: nat)
    ensures Or(v, 0) == v
  {
    if v > 0 { OrZero(v / 2); }
  }

  lemma {:induction false} OrBound(w: nat, v: nat, n: nat)
    requires w < Pow2(n) && v < Pow2(n)
    ensures Or(w, v) < Pow2(n)
  {
    if w != 0 { OrBound(w / 2, v / 2, n - 1); }
  }

  lemma {:induction false} AndBound(w: nat, v: nat)
    ensures And(w, v) <= w
  {
    if w != 0 { AndBound(w / 2, v / 2); }
  }

  lemma {:induction false} PowBit(b: nat, j: nat)
    ensures Bit(Pow2(b), j) == (j == b)
  {
    if b == 0 {
      if j > 0 { ZeroBit(j - 1); }
    } else if j > 0 {
      PowBit(b - 1, j - 1);
    }
  }

  /** Bit `j` of `(1 << b) - 1`. */
  lemma {:induction false} BelowBit(b: nat, j: nat)
    ensures Bit(Pow2(b) - 1, j) == (j < b)
  {
    if b == 0 {
      ZeroBit(j);
    } else if j > 0 {
      BelowBit(b - 1, j - 1);
      assert (Pow2(b) - 1) / 2 == Pow2(b - 1) - 1;
    }
  }

  /** Bit `j` of the `n`-bit complement of `w`. */
  lemma {:induction false} ComplementBit(w: nat, n: nat, j: nat)
    requires w < Pow2(n) && j < n
    ensures Bit(Pow2(n) - 1 - w, j) == !Bit(w, j)
  {
    if j > 0 {
      ComplementBit(w / 2, n - 1, j - 1);
      assert (Pow2(n) - 1 - w) / 2 == Pow2(n - 1) - 1 - w / 2;
    }
  }

  lemma {:induction false} PowGrows(b: nat, n: nat)
    requires b < n
    ensures Pow2(b) < Pow2(n)
  {
    if b > 0 { PowGrows(b - 1, n - 1); }
  }

  lemma Pow32()
    ensures Pow2(32) == WORD
  {
    assert Pow2(8) == 256;
    assert Pow2(16) == 65536;
    assert Pow2(24) == 0x100_0000;
  }

  /** A number below `2^n` other than `2^n - 1` has a clear bit. */
  lemma {:induction false} ClearBitExists(w: nat, n: nat) returns (z: nat)
    requires w < Pow2(n) - 1
    ensures z < n && !Bit(w, z)
  {
    if w % 2 == 0 {
      z := 0;
    } else {
      z := ClearBitExists(w / 2, n - 1);
      z := z + 1;
    }
  }

  // ---- the operations on bitmap words ----

  /** `~w` */
  function Not(w: Word): Word
  {
    ONES - w
  }

  /** `1U << b` */
  function Mask(b: nat): Word
    requires b < 32
  {
    Pow32(); PowGrows(b, 32);
    Pow2(b)
  }

  function OrWord(w: Word, v: Word): Word
  {
    Pow32(); OrBound(w, v, 32);
    Or(w, v)
  }

  function AndWord(w: Word, v: Word): Word
  {
    AndBound(w, v);
    And(w, v)
  }

  lemma NotBit(w: Word, j: nat)
    requires j < 32
    ensures Bit(Not(w), j) == !Bit(w, j)
  {
    Pow32(); ComplementBit(w, 32, j);
  }

  /** `w |= 1U << b` */
  lemma SetBit(w: Word, b: nat, j: nat)
    requires b < 32 && j < 32
    ensures Bit(OrWord(w, Mask(b)), j) == (Bit(w, j) || j == b)
  {
    OrBit(w, Mask(b), j); PowBit(b, j);
  }

  /** `w &= ~(1U << b)` */
  lemma ClearBit(w: Word, b: nat, j: nat)
    requires b < 32 && j < 32
    ensures Bit(AndWord(w, Not(Mask(b))), j) == (Bit(w, j) && j != b)
  {
    AndBit(w, Not(Mask(b)), j); NotBit(Mask(b), j); PowBit(b, j);
  }

  /** `w & (1U << b)` tests bit `b`. */
  lemma {:induction false} TestBit(w: nat, b: nat)
    ensures And(w, Pow2(b)) != 0 <==> Bit(w, b)
  {
    if w == 0 {
      ZeroBit(b);
    } else if b > 0 {
      TestBit(w / 2, b - 1);
    } else {
      AndZero(w / 2);
    }
  }

  lemma {:induction false} AndZero(w: nat)
    ensures And(w, 0) == 0
  {
    if w != 0 { AndZero(w / 2); }
  }

  /** `w | ((1U << b) - 1)` hides the bits below `b`. */
  lemma HideBelow(w: Word, b: nat, j: nat)
    requires b < 32 && j < 32
    ensures Bit(OrWord(w, Mask(b) - 1), j) == (Bit(w, j) || j < b)
  {
    OrBit(w, Mask(b) - 1, j); BelowBit(b, j);
  }

  /** `w | ~((1U << b) - 1)` hides the bits at and above `b`. */
  lemma HideFrom(w: Word, b: nat, j: nat)
    requires b < 32 && j < 32
    ensures Bit(OrWord(w, Not(Mask(b) - 1)), j) == (Bit(w, j) || b <= j)
  {
    OrBit(w, Not(Mask(b) - 1), j); NotBit(Mask(b) - 1, j); BelowBit(b, j);
  }

  lemma OnesBit(j: nat)
    requires j < 32
    ensures Bit(ONES, j)
  {
    ZeroBit(j); NotBit(0, j);
  }

  /** The shift-and-count loop that finds the lowest clear bit of a word. */
  method LowestClear(bits: Word) returns (b: nat)
    requires bits != ONES
    ensures b < 32 && !Bit(bits, b)
    ensures forall j: nat :: j < b ==> Bit(bits, j)
  {
    Pow32();
    ghost var z := ClearBitExists(bits, 32);
    var free := Not(bits);
    b := 0;
    forall j: nat | j < 32 ensures Bit(free, j) == !Bit(bits, j) { NotBit(bits, j); }
    while free % 2 == 0
      invariant b <= z
      invariant forall j: nat :: j < b ==> Bit(bits, j)
      invariant forall j: nat :: b <= j < 32 ==> Bit(free, j - b) == !Bit(bits, j)
      decreases 32 - b
    {
      assert Bit(free, b - b) == !Bit(bits, b);
      forall j: nat | b + 1 <= j < 32 ensures Bit(free / 2, j - (b + 1)) == !Bit(bits, j) {
        assert Bit(free, j - b) == !Bit(bits, j);
      }
      free := free / 2;
      b := b + 1;
    }
    assert Bit(free, b - b) == !Bit(bits, b);
  }

  // ---- unsigned arithmetic ----

  /** `ALIGN(t, x, 16)`, which wraps to 0 just below 2^32. */
  function Align16(x: nat): (r: nat)
    requires x < WORD
    ensures r < WORD && r % 16 == 0
    ensures x <= 0xFFFF_FFF0 ==> x <= r < x + 16
    ensures x > 0xFFFF_FFF0 ==> r == 0
  {
    var y := (x + 15) % WORD;
    y - y % 16
  }

  /** `ALIGN(t, x, PAGE_SIZE)`, which wraps to 0 in the last page. */
  function AlignPage(x: nat): (r: nat)
    requires x < WORD
    ensures r < WORD && r % PAGE == 0
    ensures x <= 0xFFFF_F000 ==> x <= r < x + PAGE
    ensures x > 0xFFFF_F000 ==> r == 0
  {
    var y := (x + (PAGE - 1)) % WORD;
    y - y % PAGE
  }

  /** `x & ~(PAGE_SIZE - 1)` */
  function PageFloor(x: nat): (r: nat)
    ensures r % PAGE == 0 && r <= x < r + PAGE
  {
    x - x % PAGE
  }

  lemma AddPages(x: nat, n: nat)
    ensures (x + n * PAGE) / PAGE == x / PAGE + n
  {
  }

  /** Unsigned subtraction modulo 2^32. */
  function Minus(x: nat, y: nat): (r: nat)
    ensures r < WORD && (r + y) % WORD == x % WORD
  {
    (x - y) % WORD
  }

  /** Moving `c` from one counter to another keeps their sum modulo 2^32. */
  lemma MoveDown(x: nat, y: nat, sum: nat, c: nat)
    requires c <= x < WORD && y < WORD && (x + y) % WORD == sum % WORD
    ensures Minus(x, c) == x - c
    ensures (x - c + (y + c) % WORD) % WORD == sum % WORD
  {
  }

  lemma MoveUp(x: nat, y: nat, sum: nat, c: nat)
    requires x + c < WORD && y < WORD && (x + y) % WORD == sum % WORD
    ensures (x + c) % WORD == x + c
    ensures (x + c + Minus(y, c)) % WORD == sum % WORD
  {
  }
}

/** The boot-time bump allocator (kinit_alloc.c). */
module Kinit {
  import opened Words
  import opened PageWalk
  import Paging

  /** First page of the kernel's half of the address space. */
  const KV: nat := 0xC_0000

  datatype Bump = Bump(base: Word, next: Word, limit: nat, enabled: bool)

  /** `kinit_alloc`: the new state and the address, 0 when the limit is passed. */
  function Take(b: Bump, size: Word): (Bump, nat)
  {
    var p := Align16(b.next);
    if (p - b.base + size) % WORD > b.limit then (b, 0) else (b.(next := (p + size) % WORD), p)
  }

  /** The pages an allocation of `size` bytes at `p` touches. */
  function Touched(p: nat, size: nat): nat
  {
    (p % PAGE + size + (PAGE - 1)) / PAGE
  }

  /** The mapping of an allocation: virtual page onto the same physical page. */
  function MapTaken(pages: map<nat, nat>, p: nat, size: Word): map<nat, nat>
    requires KV * PAGE <= p
  {
    MapRange(pages, p / PAGE, p / PAGE - KV, RW, Touched(p, size))
  }

  /** The allocator hands out `[base, base + limit)`, all below the window and with
      room above for the check against the limit. */
  predicate BumpOk(b: Bump)
  {
    && b.base % PAGE == 0 && KV * PAGE <= b.base <= b.next <= b.base + b.limit
    && b.limit <= 0x10_0000 && b.base + b.limit <= WINDOW * PAGE
  }

  /** Requests for which the limit check does not wrap around. */
  const MAX_TAKE: nat := 0xFFEF_FFF0

  lemma AlignBump(x: nat)
    requires x <= WINDOW * PAGE
    ensures x <= Align16(x) < x + 16 && Align16(x) % 16 == 0
  {
  }

  /** One allocation: 16-aligned, behind everything handed out before, inside the
      limit; 0 exactly when it does not fit. */
  lemma TakeOk(b: Bump, size: Word)
    requires BumpOk(b) && size <= MAX_TAKE
    ensures var (c, p) := Take(b, size);
      && BumpOk(c) && c.base == b.base && c.limit == b.limit && c.enabled == b.enabled
      && (p == 0 <==> Align16(b.next) - b.base + size > b.limit)
      && (p == 0 ==> c == b)
      && (p != 0 ==> p % 16 == 0 && b.next <= p < b.next + 16 && p + size == c.next)
  {
    AlignBump(b.next);
  }

  /** Every byte of an allocation leads to the memory at its fixed offset, and every
      other address where it did, but for the rest of the first and last page. */
  lemma TakenLeads(pages: map<nat, nat>, p: nat, size: Word, va: nat)
    requires KV * PAGE <= p && p + size <= WINDOW * PAGE
    ensures var r := MapTaken(pages, p, size);
      && (p <= va < p + size ==> Virt2Phys(r, va) == Some(va - KV * PAGE))
      && (va < PageFloor(p) || va >= p + size + PAGE ==> Virt2Phys(r, va) == Virt2Phys(pages, va))
  {
    var v, f := p / PAGE, p / PAGE - KV;
    MapTranslates(pages, v, f, RW, Touched(p, size), va);
    TouchedPages(p, size, va);
    if p <= va < p + size {
      assert f * PAGE + (va - v * PAGE) == va - KV * PAGE < WORD;
      SmallMod(va - KV * PAGE);
    }
  }

  lemma SmallMod(x: nat)
    requires x < WORD
    ensures x % WORD == x
  {
  }

  lemma TouchedPages(p: nat, size: nat, va: nat)
    ensures p <= va < p + size ==> p / PAGE <= va / PAGE < p / PAGE + Touched(p, size)
    ensures va < PageFloor(p) ==> va / PAGE < p / PAGE
    ensures va >= p + size + PAGE ==> va / PAGE >= p / PAGE + Touched(p, size)
  {
    assert p / PAGE + Touched(p, size) == (p + size + (PAGE - 1)) / PAGE;
  }

  datatype Piece = Piece(addr: nat, size: nat)

  /** All pieces handed out for a series of requests. */
  function TakeAll(b: Bump, sizes: seq<Word>): (Bump, seq<Piece>)
    decreases |sizes|
  {
    if |sizes| == 0 then (b, []) else
    var (c, p) := Take(b, sizes[0]);
    var (d, rest) := TakeAll(c, sizes[1..]);
    (d, if p == 0 then rest else [Piece(p, sizes[0])] + rest)
  }

  /** Whatever is asked for, the pieces are aligned, lie in `[base, next)` in the
      order they were handed out, and do not overlap. */
  lemma {:induction false} TakeAllDisjoint(b: Bump, sizes: seq<Word>)
    requires BumpOk(b) && forall i :: 0 <= i < |sizes| ==> sizes[i] <= MAX_TAKE
    ensures var (d, ps) := TakeAll(b, sizes);
      && BumpOk(d) && d.base == b.base && b.next <= d.next
      && (forall i :: 0 <= i < |ps| ==>
        ps[i].addr % 16 == 0 && b.next <= ps[i].addr && ps[i].addr + ps[i].size <= d.next)
      && (forall i, j :: 0 <= i < j < |ps| ==> ps[i].addr + ps[i].size <= ps[j].addr)
    decreases |sizes|
  {
    if sizes != [] {
      TakeOk(b, sizes[0]);
      TakeAllDisjoint(Take(b, sizes[0]).0, sizes[1..]);
    }
  }

  /** The limit check is right except for a request near 2^32 that wraps around
      to something inside the limit. */
  lemma TakeFitsIff(b: Bump, size: Word)
    requires BumpOk(b)
    ensures var end := Align16(b.next) - b.base + size;
      (Take(b, size).1 != 0 <==> end <= b.limit) <==> !(WORD <= end <= WORD + b.limit)
  {
    AlignBump(b.next);
    WrapOnce(Align16(b.next) - b.base + size);
  }

  lemma WrapOnce(x: nat)
    requires x < 2 * WORD
    ensures x % WORD == if x < WORD then x else x - WORD
  {
  }

  class Allocator {
    const tables: Paging.PageTables
    var base: Word
    var next: Word
    var limit: nat
    var enabled: bool

    function State(): Bump
      reads this
    {
      Bump(base, next, limit, enabled)
    }

    ghost predicate Valid()
      reads this, tables, tables.words
    {
      tables.Valid() && BumpOk(State())
    }

    /** `kinit_alloc_init` */
    constructor (tables: Paging.PageTables, base: Word, limit: nat)
      requires tables.Valid() && BumpOk(Bump(base, base, limit, true))
      ensures Valid() && this.tables == tables && State() == Bump(base, base, limit, true)
    {
      this.tables, this.base, this.next, this.limit, this.enabled := tables, base, base, limit, true;
    }

    /** `kinit_alloc` */
    method Alloc(size: Word) returns (p: nat)
      requires Valid() && enabled && size <= MAX_TAKE
      modifies this, tables.words
      ensures Valid() && (State(), p) == Take(old(State()), size)
      ensures tables.Map() == if p == 0 then old(tables.Map()) else MapTaken(old(tables.Map()), p, size)
    {
      TakeOk(State(), size);
      p := Align16(next);
      if (p - base + size) % WORD > limit {
        return 0;
      }
      next := (p + size) % WORD;
      MapPiece(p, size);
    }

    /** The mapping of the pages an allocation touches. */
    method MapPiece(p: nat, size: Word)
      requires tables.Valid() && KV * PAGE <= p && p + size <= WINDOW * PAGE
      modifies tables.words
      ensures tables.Valid() && tables.Map() == MapTaken(old(tables.Map()), p, size)
    {
      TouchedFits(p, size, p + size);
      tables.MapPages(PageFloor(p), PageFloor(p) - KV * PAGE, RW, Touched(p, size));
    }

    /** `kinit_alloc_finalize` */
    method Finalize()
      requires Valid() && enabled && next > base
      modifies this
      ensures Valid() && State() == old(State()).(enabled := false, limit := old(next) - old(base))
    {
      enabled := false;
      limit := next - base;
    }
  }

  lemma TouchedFits(p: nat, size: nat, end: nat)
    requires p + size <= end <= WINDOW * PAGE && KV * PAGE <= p
    ensures p / PAGE + Touched(p, size) <= WINDOW
    ensures PageFloor(p) / PAGE == p / PAGE && KV * PAGE <= PageFloor(p) < WORD
    ensures (PageFloor(p) - KV * PAGE) / PAGE == p / PAGE - KV
  {
  }
}

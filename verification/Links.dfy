/** Doubly linked lists in memory: `next` and `prev` fields by node address, 0
    for NULL. The list edits of the heap's regions and blocks (kheap.c) and of
    the process lists (scheduler.c) are the same three operations. */
module Links {
  /** The link fields of all nodes. */
  datatype Fields = Fields(next: map<nat, nat>, prev: map<nat, nat>)
  {
    function Next(p: nat): nat { if p in next then next[p] else 0 }
    function Prev(p: nat): nat { if p in prev then prev[p] else 0 }
    function SetNext(p: nat, q: nat): Fields { this.(next := next[p := q]) }
    function SetPrev(p: nat, q: nat): Fields { this.(prev := prev[p := q]) }
  }

  /** Head and tail pointers of one list. */
  datatype Ends = Ends(head: nat, tail: nat)

  // ---- the edits as written ----

  /** `region_append`, `procman_append` */
  function Append(f: Fields, e: Ends, p: nat): (Fields, Ends)
  {
    var g := f.SetNext(p, 0).SetPrev(p, e.tail);
    if e.tail != 0 then (g.SetNext(e.tail, p), e.(tail := p)) else (g, Ends(p, p))
  }

  /** `region_remove`, `block_remove`, `procman_remove` */
  function Remove(f: Fields, e: Ends, p: nat): (Fields, Ends)
  {
    var n, q := f.Next(p), f.Prev(p);
    var g := if q != 0 then f.SetNext(q, n) else f;
    var head := if q != 0 then e.head else n;
    var h := if n != 0 then g.SetPrev(n, q) else g;
    var tail := if n != 0 then e.tail else q;
    (h.SetNext(p, 0).SetPrev(p, 0), Ends(head, tail))
  }

  /** `block_insert_after` */
  function InsertAfter(f: Fields, e: Ends, b: nat, p: nat): (Fields, Ends)
  {
    var n := f.Next(b);
    var g := f.SetPrev(p, b).SetNext(p, n);
    var h := if n != 0 then g.SetPrev(n, p) else g;
    (h.SetNext(b, p), if n != 0 then e else e.(tail := p))
  }

  // ---- well-formed lists ----

  ghost predicate Distinct(s: seq<nat>)
  {
    forall i, k :: 0 <= i < k < |s| ==> s[i] != s[k]
  }

  function After(s: seq<nat>, i: int): nat
  {
    if 0 <= i + 1 < |s| then s[i + 1] else 0
  }

  function Before(s: seq<nat>, i: int): nat
  {
    if 0 < i <= |s| then s[i - 1] else 0
  }

  /** The nodes `s` are different, and each is linked to its neighbours in both
      directions, between the ends. */
  ghost predicate AllLinked(f: Fields, e: Ends, s: seq<nat>)
  {
    && Distinct(s) && 0 !in s
    && e == Ends(After(s, -1), Before(s, |s|))
    && (forall i :: 0 <= i < |s| ==> f.Next(s[i]) == After(s, i) && f.Prev(s[i]) == Before(s, i))
  }

  /** The same, as a walk along the list from node `i` on. */
  ghost predicate LinkedFrom(f: Fields, e: Ends, s: seq<nat>, i: nat)
    decreases |s| - i
  {
    if i < |s|
    then f.Next(s[i]) == After(s, i) && f.Prev(s[i]) == Before(s, i) && LinkedFrom(f, e, s, i + 1)
    else Distinct(s) && 0 !in s && e == Ends(After(s, -1), Before(s, |s|))
  }

  /** The nodes `s` form a well-formed list between the ends. */
  ghost predicate Linked(f: Fields, e: Ends, s: seq<nat>)
  {
    LinkedFrom(f, e, s, 0)
  }

  lemma {:induction false} LinkedFromIs(f: Fields, e: Ends, s: seq<nat>, i: nat)
    requires LinkedFrom(f, e, s, i)
    ensures Distinct(s) && 0 !in s && e == Ends(After(s, -1), Before(s, |s|))
    ensures forall k :: i <= k < |s| ==> f.Next(s[k]) == After(s, k) && f.Prev(s[k]) == Before(s, k)
    decreases |s| - i
  {
    if i < |s| { LinkedFromIs(f, e, s, i + 1); }
  }

  lemma LinkedIs(f: Fields, e: Ends, s: seq<nat>)
    requires Linked(f, e, s)
    ensures AllLinked(f, e, s)
  {
    LinkedFromIs(f, e, s, 0);
  }

  lemma {:induction false} LinkedIntroFrom(f: Fields, e: Ends, s: seq<nat>, i: nat)
    requires AllLinked(f, e, s)
    ensures LinkedFrom(f, e, s, i)
    decreases |s| - i
  {
    if i < |s| { LinkedIntroFrom(f, e, s, i + 1); }
  }

  lemma LinkedIntro(f: Fields, e: Ends, s: seq<nat>)
    requires AllLinked(f, e, s)
    ensures Linked(f, e, s)
  {
    LinkedIntroFrom(f, e, s, 0);
  }

  /** The two directions are inverse to each other. */
  lemma LinksInverse(f: Fields, e: Ends, s: seq<nat>, i: nat)
    requires Linked(f, e, s) && i < |s|
    ensures f.Next(s[i]) != 0 ==> f.Prev(f.Next(s[i])) == s[i]
    ensures f.Prev(s[i]) != 0 ==> f.Next(f.Prev(s[i])) == s[i]
    ensures f.Next(s[i]) == 0 <==> s[i] == e.tail
    ensures f.Prev(s[i]) == 0 <==> s[i] == e.head
  {
    LinkedIs(f, e, s);
  }

  /** The node at position `i`, as the walk from the head finds it. */
  lemma WalkTo(f: Fields, e: Ends, s: seq<nat>, i: int)
    requires Linked(f, e, s) && -1 <= i < |s|
    ensures After(s, i) == (if i < 0 then e.head else f.Next(s[i])) && (i + 1 < |s| <==> After(s, i) != 0)
  {
    LinkedIs(f, e, s);
    if i + 1 < |s| { assert s[i + 1] in s; }
  }

  lemma {:induction false} SameNode(f: Fields, e: Ends, s: seq<nat>, t: seq<nat>, i: nat)
    requires Linked(f, e, s) && Linked(f, e, t) && i < |s|
    ensures i < |t| && s[i] == t[i]
  {
    if i > 0 { SameNode(f, e, s, t, i - 1); }
    WalkTo(f, e, s, i - 1);
    WalkTo(f, e, t, i - 1);
  }

  /** The links between two ends determine the list. */
  lemma LinkedUnique(f: Fields, e: Ends, s: seq<nat>, t: seq<nat>)
    requires Linked(f, e, s) && Linked(f, e, t)
    ensures s == t
  {
    forall i | 0 <= i < |s| ensures i < |t| && s[i] == t[i] { SameNode(f, e, s, t, i); }
    if |t| > |s| { SameNode(f, e, t, s, |s|); }
    if |t| < |s| { SameNode(f, e, s, t, |t|); }
  }

  /** Same fields on the nodes `s`. */
  ghost predicate SameOn(f: Fields, g: Fields, s: seq<nat>)
  {
    forall p :: p in s ==> f.Next(p) == g.Next(p) && f.Prev(p) == g.Prev(p)
  }

  lemma LinkedFrame(f: Fields, g: Fields, e: Ends, s: seq<nat>)
    requires Linked(f, e, s) && SameOn(f, g, s)
    ensures Linked(g, e, s)
  {
    LinkedIs(f, e, s);
    forall i | 0 <= i < |s| ensures g.Next(s[i]) == After(s, i) && g.Prev(s[i]) == Before(s, i) {
      assert s[i] in s;
    }
    LinkedIntro(g, e, s);
  }

  lemma AppendLinked(f: Fields, e: Ends, s: seq<nat>, p: nat)
    requires Linked(f, e, s) && p != 0 && p !in s
    ensures Linked(Append(f, e, p).0, Append(f, e, p).1, s + [p])
  {
    LinkedIs(f, e, s);
    var g, t := Append(f, e, p).0, s + [p];
    forall i | 0 <= i < |t| ensures g.Next(t[i]) == After(t, i) && g.Prev(t[i]) == Before(t, i) {
      if i < |s| { assert s[i] in s; }
    }
    LinkedIntro(g, Append(f, e, p).1, t);
  }

  lemma AppendFrame(f: Fields, e: Ends, s: seq<nat>, p: nat, t: seq<nat>)
    requires Linked(f, e, s) && p != 0 && forall q :: q in t ==> q !in s && q != p
    ensures SameOn(f, Append(f, e, p).0, t)
  {
    LinkedIs(f, e, s);
    if s != [] { assert s[|s| - 1] in s; }
  }

  /** What a removal writes: the two neighbours bypass `p`, and `p` is cleared. */
  lemma RemoveFields(f: Fields, e: Ends, p: nat, x: nat)
    requires p != 0 && f.Next(p) != p && f.Prev(p) != p
    ensures var g, n, q := Remove(f, e, p).0, f.Next(p), f.Prev(p);
      && g.Next(x) == (if x == p then 0 else if x == q && q != 0 then n else f.Next(x))
      && g.Prev(x) == (if x == p then 0 else if x == n && n != 0 then q else f.Prev(x))
  {
  }

  /** The links of another node of the list once node `i` is out. */
  lemma RemoveAt(f: Fields, e: Ends, s: seq<nat>, i: nat, a: nat)
    requires AllLinked(f, e, s) && i < |s| && a < |s| && a != i
    ensures var g := Remove(f, e, s[i]).0;
      && g.Next(s[a]) == (if a + 1 == i then After(s, i) else After(s, a))
      && g.Prev(s[a]) == (if a == i + 1 then Before(s, i) else Before(s, a))
  {
    assert s[i] in s && s[a] in s;
    assert i + 1 < |s| ==> s[i + 1] in s;
    assert i > 0 ==> s[i - 1] in s;
    RemoveFields(f, e, s[i], s[a]);
  }

  /** The same, by position in the list without node `i`. */
  lemma RemovedAt(f: Fields, e: Ends, s: seq<nat>, i: nat, k: nat)
    requires AllLinked(f, e, s) && i < |s| && k < |s| - 1
    ensures var g, t := Remove(f, e, s[i]).0, s[..i] + s[i + 1..];
      g.Next(t[k]) == After(t, k) && g.Prev(t[k]) == Before(t, k)
  {
    RemovedNeighbours(s, i, k);
    RemoveAt(f, e, s, i, if k < i then k else k + 1);
  }

  lemma RemovedNeighbours(s: seq<nat>, i: nat, k: nat)
    requires i < |s| && k < |s| - 1
    ensures var t, a := s[..i] + s[i + 1..], if k < i then k else k + 1;
      && t[k] == s[a]
      && After(t, k) == (if a + 1 == i then After(s, i) else After(s, a))
      && Before(t, k) == (if a == i + 1 then Before(s, i) else Before(s, a))
  {
  }

  lemma RemoveLinked(f: Fields, e: Ends, s: seq<nat>, i: nat)
    requires Linked(f, e, s) && i < |s|
    ensures Linked(Remove(f, e, s[i]).0, Remove(f, e, s[i]).1, s[..i] + s[i + 1..])
  {
    LinkedIs(f, e, s);
    var g, t := Remove(f, e, s[i]).0, s[..i] + s[i + 1..];
    RemovedNodes(s, i);
    forall k | 0 <= k < |t| ensures g.Next(t[k]) == After(t, k) && g.Prev(t[k]) == Before(t, k) {
      RemovedAt(f, e, s, i, k);
    }
    RemoveEnds(f, e, s, i);
    LinkedIntro(g, Remove(f, e, s[i]).1, t);
  }

  lemma RemoveEnds(f: Fields, e: Ends, s: seq<nat>, i: nat)
    requires AllLinked(f, e, s) && i < |s|
    ensures var t := s[..i] + s[i + 1..]; Remove(f, e, s[i]).1 == Ends(After(t, -1), Before(t, |t|))
  {
    assert i + 1 < |s| ==> s[i + 1] in s;
    assert i > 0 ==> s[i - 1] in s;
  }

  lemma RemovedNodes(s: seq<nat>, i: nat)
    requires Distinct(s) && 0 !in s && i < |s|
    ensures var t := s[..i] + s[i + 1..];
      && Distinct(t) && 0 !in t && (forall p :: p in t <==> p in s && p != s[i])
  {
    var t := s[..i] + s[i + 1..];
    forall p | p in s && p != s[i] ensures p in t {
      var k :| 0 <= k < |s| && s[k] == p;
      assert t[if k < i then k else k - 1] == p;
    }
    forall p | p in t ensures p in s && p != s[i] {
      var k :| 0 <= k < |t| && t[k] == p;
      assert p == s[if k < i then k else k + 1];
    }
  }

  /** Nodes of other lists keep their links. */
  lemma RemoveFrame(f: Fields, e: Ends, s: seq<nat>, i: nat, t: seq<nat>)
    requires Linked(f, e, s) && i < |s| && forall q :: q in t ==> q !in s
    ensures SameOn(f, Remove(f, e, s[i]).0, t)
  {
    LinkedIs(f, e, s);
    forall q | q in t ensures f.Next(q) == Remove(f, e, s[i]).0.Next(q) && f.Prev(q) == Remove(f, e, s[i]).0.Prev(q) {
      assert s[i] in s;
      RemoveFields(f, e, s[i], q);
    }
  }

  /** What an insertion writes. */
  lemma InsertFields(f: Fields, e: Ends, b: nat, p: nat, x: nat)
    requires p != 0 && p != b && f.Next(b) != p
    ensures var g, n := InsertAfter(f, e, b, p).0, f.Next(b);
      && g.Next(x) == (if x == b then p else if x == p then n else f.Next(x))
      && g.Prev(x) == (if x == n && n != 0 then p else if x == p then b else f.Prev(x))
  {
  }

  lemma InsertedNeighbours(s: seq<nat>, i: nat, p: nat, k: nat)
    requires i < |s| && k <= |s|
    ensures var t := s[..i + 1] + [p] + s[i + 1..];
      && t[k] == (if k <= i then s[k] else if k == i + 1 then p else s[k - 1])
      && After(t, k) == (if k < i then After(s, k) else if k == i then p else After(s, k - 1))
      && Before(t, k) == (if k <= i then Before(s, k) else if k == i + 1 then s[i]
                          else if k == i + 2 then p else Before(s, k - 1))
  {
  }

  /** The links of the nodes around an insertion. */
  lemma InsertAt(f: Fields, e: Ends, s: seq<nat>, i: nat, p: nat, a: nat)
    requires AllLinked(f, e, s) && i < |s| && a < |s| && p != 0 && p !in s
    ensures var g := InsertAfter(f, e, s[i], p).0;
      && g.Next(s[a]) == (if a == i then p else After(s, a))
      && g.Prev(s[a]) == (if a == i + 1 then p else Before(s, a))
      && g.Next(p) == After(s, i) && g.Prev(p) == s[i]
  {
    assert s[i] in s && s[a] in s && (i + 1 < |s| ==> s[i + 1] in s);
    InsertFields(f, e, s[i], p, s[a]);
    InsertFields(f, e, s[i], p, p);
  }

  lemma InsertedAt(f: Fields, e: Ends, s: seq<nat>, i: nat, p: nat, k: nat)
    requires AllLinked(f, e, s) && i < |s| && p != 0 && p !in s && k <= |s|
    ensures var g, t := InsertAfter(f, e, s[i], p).0, s[..i + 1] + [p] + s[i + 1..];
      g.Next(t[k]) == After(t, k) && g.Prev(t[k]) == Before(t, k)
  {
    InsertedNeighbours(s, i, p, k);
    InsertAt(f, e, s, i, p, if k <= i then k else k - 1);
  }

  lemma InsertLinked(f: Fields, e: Ends, s: seq<nat>, i: nat, p: nat)
    requires Linked(f, e, s) && i < |s| && p != 0 && p !in s
    ensures Linked(InsertAfter(f, e, s[i], p).0, InsertAfter(f, e, s[i], p).1, s[..i + 1] + [p] + s[i + 1..])
  {
    LinkedIs(f, e, s);
    var g, t := InsertAfter(f, e, s[i], p).0, s[..i + 1] + [p] + s[i + 1..];
    InsertedNodes(s, i, p);
    forall k | 0 <= k < |t| ensures g.Next(t[k]) == After(t, k) && g.Prev(t[k]) == Before(t, k) {
      InsertedAt(f, e, s, i, p, k);
    }
    LinkedIntro(g, InsertAfter(f, e, s[i], p).1, t);
  }

  lemma InsertedNodes(s: seq<nat>, i: nat, p: nat)
    requires Distinct(s) && 0 !in s && i < |s| && p != 0 && p !in s
    ensures var t := s[..i + 1] + [p] + s[i + 1..]; Distinct(t) && 0 !in t
  {
    var t := s[..i + 1] + [p] + s[i + 1..];
    forall a, b | 0 <= a < b < |t| ensures t[a] != t[b] {
      if a == i + 1 { assert t[b] in s; } else if b == i + 1 { assert t[a] in s; }
    }
  }
}

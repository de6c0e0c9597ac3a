/** Fairness of the scheduler: where the timer takes the current process, and
    how long an active process waits for its turn. */
module RoundRobin {
  import opened Links
  import opened Processes
  import opened ProcessRuns
  import Divide

  function Ticks(s: Sched, t: nat): Sched
  {
    if t == 0 then s else Tick(Ticks(s, t - 1)).0
  }

  /** Position `i` of the active list is current, `k` ticks into its quantum, and
      nobody else is inside a quantum. */
  ghost predicate Position(s: Sched, l: Lists, i: nat, k: nat)
  {
    && Well(s, l) && StatesOk(s, l)
    && i < |l.active| && s.current == l.active[i] && s.Proc(s.current).ticks == k
  }

  /** One tick: the first of a quantum keeps the position, the second moves on. */
  lemma TickPosition(s: Sched, l: Lists, i: nat, k: nat)
    requires Position(s, l, i, k)
    ensures k < 2
    ensures k == 0 ==> Position(Tick(s).0, l, i, 1) && Tick(s).1 == Stay
    ensures k == 1 ==>
      var j := if i + 1 < |l.active| then i + 1 else 0;
      Position(Tick(s).0, l, j, 0) && Tick(s).1 == if j != i then Switch(l.active[i], l.active[j]) else Stay
  {
    LinkedIs(s.links, s.active, l.active);
    TickWell(s, l);
    StepStates(s, l, Timer);
    var p := l.active[i];
    assert p in l.active && ActiveOk(s, p);
    TickProc(s, p);
    if k == 1 {
      var j := if i + 1 < |l.active| then i + 1 else 0;
      var q := l.active[j];
      assert s.links.Next(p) == After(l.active, i);
      assert Tick(s).0.current == q;
      assert q in l.active && ActiveOk(s, q);
      TickProc(s, q);
    }
  }

  lemma NextPosition(x: nat, n: nat)
    requires n > 0
    ensures (x + 1) % n == if x % n + 1 < n then x % n + 1 else 0
  {
    var q, r := x / n, x % n;
    assert x == q * n + r;
    if r + 1 < n {
      Divide.DivUnique(x + 1, n, q, r + 1);
    } else {
      assert (q + 1) * n == q * n + n;
      Divide.DivUnique(x + 1, n, q + 1, 0);
    }
  }

  lemma RotatesOne(s: Sched, l: Lists, x: nat, k: nat)
    requires l.active != [] && Position(s, l, x % |l.active|, k)
    ensures k == 0 ==> Position(Tick(s).0, l, x % |l.active|, 1)
    ensures k == 1 ==> Position(Tick(s).0, l, (x + 1) % |l.active|, 0)
  {
    TickPosition(s, l, x % |l.active|, k);
    NextPosition(x, |l.active|);
  }

  lemma RotatesNext(s: Sched, l: Lists, i: nat, t: nat)
    requires l.active != [] && Position(s, l, (i + t / 2) % |l.active|, t % 2)
    ensures Position(Tick(s).0, l, (i + (t + 1) / 2) % |l.active|, (t + 1) % 2)
  {
    RotatesOne(s, l, i + t / 2, t % 2);
    if t % 2 == 0 {
      assert (t + 1) / 2 == t / 2 && (t + 1) % 2 == 1;
    } else {
      assert (t + 1) / 2 == t / 2 + 1 && (t + 1) % 2 == 0;
    }
  }

  lemma StartPosition(i: nat, n: nat)
    requires i < n
    ensures (i + 0 / 2) % n == i
  {
    Divide.DivUnique(i, n, 0, i);
  }

  /** After `t` ticks from the start of a quantum at position `i`, position
      `(i + t / 2) mod n` is current. */
  lemma {:induction false} RotatesBy(s: Sched, l: Lists, i: nat, t: nat)
    requires Position(s, l, i, 0)
    ensures Position(Ticks(s, t), l, (i + t / 2) % |l.active|, t % 2)
  {
    if t == 0 {
      StartPosition(i, |l.active|);
    } else {
      RotatesBy(s, l, i, t - 1);
      RotatesNext(Ticks(s, t - 1), l, i, t - 1);
    }
  }

  // ---- equal shares ----

  /** For how many of the ticks `a .. b` is `p` the current process? */
  function Share(s: Sched, p: nat, a: nat, b: nat): nat
    requires a <= b
    decreases b - a
  {
    if a == b then 0 else Share(s, p, a, b - 1) + (if Ticks(s, b - 1).current == p then 1 else 0)
  }

  lemma {:induction false} ShareZero(s: Sched, p: nat, a: nat, b: nat)
    requires a <= b && forall t :: a <= t < b ==> Ticks(s, t).current != p
    ensures Share(s, p, a, b) == 0
    decreases b - a
  {
    if a < b { ShareZero(s, p, a, b - 1); }
  }

  lemma {:induction false} ShareSplit(s: Sched, p: nat, a: nat, c: nat, b: nat)
    requires a <= c <= b
    ensures Share(s, p, a, b) == Share(s, p, a, c) + Share(s, p, c, b)
    decreases b - c
  {
    if c < b { ShareSplit(s, p, a, c, b - 1); }
  }

  lemma WrapsOnce(x: nat, n: nat)
    requires x < 2 * n
    ensures x % n == if x < n then x else x - n
  {
    if x < n { Divide.DivUnique(x, n, 0, x); } else { Divide.DivUnique(x, n, 1, x - n); }
  }

  lemma CurrentAt(s: Sched, l: Lists, i: nat, t: nat, k: nat)
    requires Position(s, l, i, 0) && (i + t / 2) % |l.active| == k
    ensures k < |l.active| && Ticks(s, t).current == l.active[k] && Distinct(l.active)
  {
    RotatesBy(s, l, i, t);
    LinkedIs(s.links, s.active, l.active);
  }

  /** In the first round, position `j` is current from tick `2 d` on, where `d` is
      its distance, and only then. */
  lemma CurrentIff(s: Sched, l: Lists, i: nat, j: nat, t: nat)
    requires Position(s, l, i, 0) && j < |l.active| && t < 2 * |l.active|
    ensures Ticks(s, t).current == l.active[j] <==> t / 2 == Distance(i, j, |l.active|)
  {
    var n, h := |l.active|, t / 2;
    WrapsOnce(i + h, n);
    var k := if i + h < n then i + h else i + h - n;
    CurrentAt(s, l, i, t, k);
    assert l.active[k] == l.active[j] <==> k == j;
  }

  /** How many switches until position `j` is current, with position `i` current now. */
  function Distance(i: nat, j: nat, n: nat): (d: nat)
    requires i < n && j < n
    ensures d < n
  {
    if j >= i then j - i else n - i + j
  }

  /** In the first round every active process is current for exactly 2 ticks. */
  lemma FirstRound(s: Sched, l: Lists, i: nat, j: nat)
    requires Position(s, l, i, 0) && j < |l.active|
    ensures Share(s, l.active[j], 0, 2 * |l.active|) == 2
  {
    var n, p := |l.active|, l.active[j];
    var d := Distance(i, j, n);
    forall t | 0 <= t < 2 * n ensures Ticks(s, t).current == p <==> t / 2 == d { CurrentIff(s, l, i, j, t); }
    ShareZero(s, p, 0, 2 * d);
    ShareZero(s, p, 2 * d + 2, 2 * n);
    assert Share(s, p, 2 * d, 2 * d) == 0;
    assert Ticks(s, 2 * d).current == p && Ticks(s, 2 * d + 1).current == p;
    assert Share(s, p, 2 * d, 2 * d + 1) == 1;
    assert Share(s, p, 2 * d, 2 * d + 2) == 2;
    ShareSplit(s, p, 0, 2 * d, 2 * n);
    ShareSplit(s, p, 2 * d, 2 * d + 2, 2 * n);
  }

  lemma NextRound(x: nat, n: nat)
    requires n > 0
    ensures (x + n) % n == x % n
  {
    var q, r := x / n, x % n;
    assert x == q * n + r && (q + 1) * n == q * n + n;
    Divide.DivUnique(x + n, n, q + 1, r);
  }

  /** A round of 2n ticks later the same process is current. */
  lemma Periodic(s: Sched, l: Lists, i: nat, t: nat)
    requires Position(s, l, i, 0)
    ensures Ticks(s, t + 2 * |l.active|).current == Ticks(s, t).current
  {
    var n := |l.active|;
    RotatesBy(s, l, i, t);
    NextRound(i + t / 2, n);
    assert i + (t + 2 * n) / 2 == i + t / 2 + n;
    CurrentAt(s, l, i, t + 2 * n, (i + t / 2) % n);
  }

  /** Every active process is current for exactly 2 of every 2n ticks, wherever the
      2n ticks begin. */
  lemma {:induction false} EqualShares(s: Sched, l: Lists, i: nat, j: nat, a: nat)
    requires Position(s, l, i, 0) && j < |l.active|
    ensures Share(s, l.active[j], a, a + 2 * |l.active|) == 2
    decreases a
  {
    var n, p := |l.active|, l.active[j];
    if a == 0 {
      FirstRound(s, l, i, j);
    } else {
      EqualShares(s, l, i, j, a - 1);
      Periodic(s, l, i, a - 1);
      ShareSlides(s, p, a - 1, 2 * n);
    }
  }

  /** A window of `w` ticks moved on by one. */
  lemma ShareSlides(s: Sched, p: nat, a: nat, w: nat)
    requires w > 0 && Ticks(s, a + w).current == Ticks(s, a).current
    ensures Share(s, p, a + 1, a + 1 + w) == Share(s, p, a, a + w)
  {
    ShareSplit(s, p, a, a + 1, a + w);
    ShareFirst(s, p, a);
    assert Share(s, p, a + 1, a + 1 + w) == Share(s, p, a + 1, a + w) + (if Ticks(s, a + w).current == p then 1 else 0);
  }

  lemma ShareFirst(s: Sched, p: nat, a: nat)
    ensures Share(s, p, a, a + 1) == if Ticks(s, a).current == p then 1 else 0
  {
    assert Share(s, p, a, a) == 0;
  }

  // ---- bounded waiting ----

  function IndexOf(s: seq<nat>, p: nat): (i: nat)
    requires p in s
    ensures i < |s| && s[i] == p
  {
    if s[0] == p then 0 else 1 + IndexOf(s[1..], p)
  }

  ghost predicate Waits(s: Sched, l: Lists, p: nat)
  {
    Well(s, l) && StatesOk(s, l) && s.current != 0 && p in l.active
  }

  /** How many switches `p` is away from being current. */
  ghost function Wait(s: Sched, l: Lists, p: nat): nat
    requires Waits(s, l, p)
  {
    Distance(IndexOf(l.active, s.current), IndexOf(l.active, p), |l.active|)
  }

  lemma WaitIs(s: Sched, l: Lists, p: nat, i: nat, j: nat)
    requires Waits(s, l, p) && i < |l.active| && j < |l.active|
    requires l.active[i] == s.current && l.active[j] == p
    ensures Wait(s, l, p) == Distance(i, j, |l.active|)
  {
    LinkedIs(s.links, s.active, l.active);
  }

  /** How many ticks `p` is away from being current. */
  ghost function Patience(s: Sched, l: Lists, p: nat): int
    requires Waits(s, l, p)
  {
    2 * Wait(s, l, p) - s.Proc(s.current).ticks
  }

  lemma PatienceIs(s: Sched, l: Lists, p: nat, i: nat, j: nat, k: nat)
    requires Position(s, l, i, k) && s.current != 0 && j < |l.active| && l.active[j] == p
    ensures Waits(s, l, p) && Patience(s, l, p) == 2 * Distance(i, j, |l.active|) - k
  {
    WaitIs(s, l, p, i, j);
  }

  lemma TickPatience(s: Sched, l: Lists, p: nat)
    requires Waits(s, l, p) && p != s.current
    ensures Waits(Tick(s).0, l, p) && Patience(Tick(s).0, l, p) == Patience(s, l, p) - 1
  {
    var i, j, k := IndexOf(l.active, s.current), IndexOf(l.active, p), s.Proc(s.current).ticks;
    TickPosition(s, l, i, k);
    assert 0 !in l.active by { LinkedIs(s.links, s.active, l.active); }
    if k == 0 {
      PatienceIs(Tick(s).0, l, p, i, j, 1);
    } else {
      PatienceIs(Tick(s).0, l, p, if i + 1 < |l.active| then i + 1 else 0, j, 0);
    }
  }

  /** An appended process gets in line behind `p`, or once before it. */
  lemma AppendWait(s: Sched, l: Lists, t: Sched, m: Lists, p: nat)
    requires Waits(s, l, p) && Waits(t, m, p) && t.current == s.current && t.Proc(s.current) == s.Proc(s.current)
    requires |m.active| == |l.active| + 1 && m.active[..|l.active|] == l.active
    ensures Patience(t, m, p) ==
      Patience(s, l, p) + if IndexOf(l.active, p) < IndexOf(l.active, s.current) then 2 else 0
  {
    var i, j, n := IndexOf(l.active, s.current), IndexOf(l.active, p), |l.active|;
    assert m.active[i] == m.active[..n][i] && m.active[j] == m.active[..n][j];
    WaitIs(t, m, p, i, j);
  }

  /** Another process that leaves makes nobody wait longer. */
  lemma RemoveWait(s: Sched, l: Lists, t: Sched, m: Lists, p: nat, q: nat)
    requires Waits(s, l, p) && Waits(t, m, p) && t.current == s.current && t.Proc(s.current) == s.Proc(s.current)
    requires q in l.active && q != p && q != s.current && m.active == Without(l.active, q)
    ensures Patience(t, m, p) <= Patience(s, l, p)
  {
    assert Distinct(l.active) by { LinkedIs(s.links, s.active, l.active); }
    RemoveDistance(l.active, s.current, p, q);
  }

  lemma IndexIs(s: seq<nat>, p: nat, i: nat)
    requires Distinct(s) && i < |s| && s[i] == p
    ensures IndexOf(s, p) == i
  {
  }

  lemma RemoveDistance(s: seq<nat>, c: nat, p: nat, q: nat)
    requires Distinct(s) && c in s && p in s && q in s && q != c && q != p
    requires c in Without(s, q) && p in Without(s, q)
    ensures |Without(s, q)| == |s| - 1
    ensures Distance(IndexOf(Without(s, q), c), IndexOf(Without(s, q), p), |s| - 1)
         <= Distance(IndexOf(s, c), IndexOf(s, p), |s|)
  {
    var i, j, k := IndexOf(s, c), IndexOf(s, p), IndexOf(s, q);
    Shifted(s, k, i);
    Shifted(s, k, j);
    DistinctWithout(s, q);
    IndexIs(Without(s, q), c, Shift(k, i));
    IndexIs(Without(s, q), p, Shift(k, j));
  }

  lemma DistinctWithout(s: seq<nat>, q: nat)
    requires Distinct(s) && q in s
    ensures Distinct(Without(s, q))
  {
    WithoutIs(s, q, IndexOf(s, q));
  }

  /** Where position `i` ends up when position `k` is removed. */
  function Shift(k: nat, i: nat): nat
    requires i != k
  {
    if i < k then i else i - 1
  }

  lemma Shifted(s: seq<nat>, k: nat, i: nat)
    requires Distinct(s) && k < |s| && i < |s| && i != k
    ensures |Without(s, s[k])| == |s| - 1 && Without(s, s[k])[Shift(k, i)] == s[i]
  {
    WithoutIs(s, s[k], k);
  }

  /** Neither `p` nor the current process is unloaded. */
  predicate Spares(s: Sched, e: Event, p: nat)
  {
    Unloads(s, e) ==> e.p != p && e.p != s.current
  }

  function TimerCount(e: Event): nat
  {
    if e.Timer? then 1 else 0
  }

  lemma StepPatience(s: Sched, l: Lists, e: Event, p: nat)
    requires Waits(s, l, p) && Legal(s, l, e) && Spares(s, e, p) && p != s.current
    ensures Waits(Step(s, e), Moved(s, l, e), p)
    ensures Patience(Step(s, e), Moved(s, l, e), p) <= Patience(s, l, p) - TimerCount(e) + 2 * Created(s, e)
  {
    var t, m := Step(s, e), Moved(s, l, e);
    if e.Timer? {
      TickPatience(s, l, p);
    } else {
      StepWell(s, l, e);
      StepStates(s, l, e);
      StepKeeps(s, l, e, p);
      if Creates(s, e) {
        AppendWait(s, l, t, m, p);
      } else if Unloads(s, e) {
        RemoveWait(s, l, t, m, p, e.p);
      } else {
        assert m.active == l.active;
      }
    }
  }

  lemma StepKeeps(s: Sched, l: Lists, e: Event, p: nat)
    requires Waits(s, l, p) && Legal(s, l, e) && Spares(s, e, p) && !e.Timer?
    ensures Step(s, e).current == s.current && Step(s, e).Proc(s.current) == s.Proc(s.current)
    ensures p in Moved(s, l, e).active
  {
    LinkedIs(s.links, s.active, l.active);
    if Unloads(s, e) { WithoutMembers(l.active, e.p); }
  }

  /** A run in which `p` stays active, the current process is never unloaded and
      `p` is not current before the end. */
  ghost predicate WaitingRun(s: Sched, l: Lists, es: seq<Event>, p: nat)
    decreases |es|
  {
    && s.current != p
    && (|es| > 0 ==> Spares(s, es[0], p) && WaitingRun(Step(s, es[0]), Moved(s, l, es[0]), es[1..], p))
  }

  function TimerTotal(es: seq<Event>): nat
  {
    if es == [] then 0 else TimerCount(es[0]) + TimerTotal(es[1..])
  }

  lemma {:induction false} RunPatience(s: Sched, l: Lists, es: seq<Event>, p: nat)
    requires Waits(s, l, p) && LegalRun(s, l, es) && WaitingRun(s, l, es, p)
    ensures Waits(Run(s, es), RunLists(s, l, es), p) && Run(s, es).current != p
    ensures Patience(Run(s, es), RunLists(s, l, es), p) <= Patience(s, l, p) - TimerTotal(es) + 2 * RunCreated(s, es)
    decreases |es|
  {
    if |es| > 0 {
      StepPatience(s, l, es[0], p);
      RunPatience(Step(s, es[0]), Moved(s, l, es[0]), es[1..], p);
    }
  }

  /** No starvation: however registrations, creations, destructions and unloads of
      others are interleaved, a process that is `d` places from the current one
      and has not been current yet has seen fewer than `2 (d + c)` ticks, `c`
      being the processes created meanwhile. */
  lemma BoundedWaiting(s: Sched, l: Lists, es: seq<Event>, p: nat)
    requires Waits(s, l, p) && LegalRun(s, l, es) && WaitingRun(s, l, es, p)
    ensures TimerTotal(es) < 2 * (Wait(s, l, p) + RunCreated(s, es))
  {
    RunPatience(s, l, es, p);
    var t, m := Run(s, es), RunLists(s, l, es);
    LinkedIs(t.links, t.active, m.active);
    assert ActiveOk(t, t.current);
    assert IndexOf(m.active, t.current) != IndexOf(m.active, p);
  }
}

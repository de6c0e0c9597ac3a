/** The scheduler (scheduler.c) in place: list heads, links and process records
    changed field by field. */
module Scheduler {
  import opened Words
  import opened Links
  import opened Processes
  import opened ProcessRuns
  import opened RoundRobin

  // ---- what a pass of the service loop still has to do ----

  predicate Serviceable(s: Sched, p: nat)
  {
    s.Proc(p).flags.create || s.Proc(p).flags.kill || s.Proc(p).flags.error
  }

  function Pending(s: Sched, q: seq<nat>): nat
  {
    if q == [] then 0 else Pending(s, q[1..]) + if Serviceable(s, q[0]) then 1 else 0
  }

  lemma {:induction false} PendingSame(s: Sched, t: Sched, q: seq<nat>)
    requires forall x :: x in q ==> s.Proc(x) == t.Proc(x)
    ensures Pending(s, q) == Pending(t, q)
  {
    if q != [] { PendingSame(s, t, q[1..]); }
  }

  lemma {:induction false} PendingNone(s: Sched, q: seq<nat>)
    requires forall k :: 0 <= k < |q| ==> !Serviceable(s, q[k])
    ensures Pending(s, q) == 0
  {
    if q != [] { PendingNone(s, q[1..]); }
  }

  lemma {:induction false} PendingDrops(s: Sched, t: Sched, q: seq<nat>, p: nat)
    requires Distinct(q) && p in q && Serviceable(s, p)
    requires forall x :: x in q && x != p ==> s.Proc(x) == t.Proc(x)
    ensures Pending(t, Without(q, p)) + 1 == Pending(s, q)
    ensures !Serviceable(t, p) ==> Pending(t, q) + 1 == Pending(s, q)
  {
    assert q == [q[0]] + q[1..];
    if q[0] == p {
      PendingSame(s, t, q[1..]);
    } else {
      PendingDrops(s, t, q[1..], p);
      var w := Without(q, p);
      assert w[0] == q[0] && w[1..] == Without(q[1..], p);
    }
  }

  /** Serving a process that asks for it leaves one less to serve, also when the
      creation fails. */
  lemma ServePending(s: Sched, l: Lists, created: nat, p: nat, stack: nat)
    requires Inv(s, l, created) && p in l.inactive && Serviceable(s, p)
    ensures var e := Serve(p, stack);
      Pending(Step(s, e), Moved(s, l, e).inactive) + 1 == Pending(s, l.inactive)
  {
    var e := Serve(p, stack);
    assert InactiveOk(s, p);
    assert Distinct(l.inactive) by { LinkedIs(s.links, s.inactive, l.inactive); }
    PendingDrops(s, Step(s, e), l.inactive, p);
  }

  /** The neighbours of an inactive process. */
  lemma InactiveNeighbours(s: Sched, l: Lists, p: nat)
    requires Well(s, l) && p in l.inactive
    ensures var i := IndexOf(l.inactive, p);
      && p != 0
      && s.links.Next(p) == After(l.inactive, i) && s.links.Prev(p) == Before(l.inactive, i)
  {
    LinkedIs(s.links, s.inactive, l.inactive);
  }

  lemma BeforeIndex(s: Sched, l: Lists, i: nat)
    requires Well(s, l) && 0 < i < |l.inactive|
    ensures l.inactive[i - 1] in l.inactive && IndexOf(l.inactive, l.inactive[i - 1]) == i - 1
  {
    assert Distinct(l.inactive) by { LinkedIs(s.links, s.inactive, l.inactive); }
    IndexIs(l.inactive, l.inactive[i - 1], i - 1);
  }

  lemma TailIndex(s: Sched, l: Lists)
    requires Well(s, l)
    ensures s.inactive.tail == Before(l.inactive, |l.inactive|)
    ensures l.inactive != [] ==>
      s.inactive.tail in l.inactive && IndexOf(l.inactive, s.inactive.tail) == |l.inactive| - 1
  {
    LinkedIs(s.links, s.inactive, l.inactive);
    if l.inactive != [] { IndexIs(l.inactive, s.inactive.tail, |l.inactive| - 1); }
  }

  /** Where the walk goes on after a service step: the process that followed. */
  lemma NextStays(s: Sched, l: Lists, p: nat, stack: nat)
    requires Well(s, l) && p in l.inactive && Serviceable(s, p)
    ensures var m := Moved(s, l, Serve(p, stack));
      if s.Proc(p).flags.create && CreateFails(s, p, stack) then m == l
      else |m.inactive| < |l.inactive| && (s.links.Next(p) != 0 ==> s.links.Next(p) in m.inactive)
  {
    LinkedIs(s.links, s.inactive, l.inactive);
    var i := IndexOf(l.inactive, p);
    WithoutIs(l.inactive, p, i);
    WithoutMembers(l.inactive, p);
    assert s.links.Next(p) == After(l.inactive, i);
  }

  class ProcessScheduler {
    var active: Ends
    var current: nat
    var count: nat
    var inactive: Ends
    var links: Fields
    var procs: map<nat, Process>

    function State(): Sched
      reads this
    {
      Sched(active, current, count, inactive, links, procs)
    }

    constructor ()
      ensures State() == EMPTY
    {
      active, current, count := Ends(0, 0), 0, 0;
      inactive, links, procs := Ends(0, 0), Fields(map[], map[]), map[];
    }

    // ---- list edits ----

    /** `procman_append` on the active list */
    method AppendToActive(p: nat)
      modifies this`links, this`active
      ensures State() == AppendActive(old(State()), p)
    {
      links := links.SetNext(p, 0).SetPrev(p, active.tail);
      if active.tail != 0 {
        links := links.SetNext(active.tail, p);
      } else {
        active := active.(head := p);
      }
      active := active.(tail := p);
    }

    /** `procman_append` on the inactive list */
    method AppendToInactive(p: nat)
      modifies this`links, this`inactive
      ensures State() == AppendInactive(old(State()), p)
    {
      links := links.SetNext(p, 0).SetPrev(p, inactive.tail);
      if inactive.tail != 0 {
        links := links.SetNext(inactive.tail, p);
      } else {
        inactive := inactive.(head := p);
      }
      inactive := inactive.(tail := p);
    }

    /** `procman_remove` on the active list */
    method RemoveFromActive(p: nat)
      modifies this`links, this`active, this`current
      ensures State() == RemoveActive(old(State()), p)
    {
      var next, prev := links.Next(p), links.Prev(p);
      if prev != 0 {
        links := links.SetNext(prev, next);
      } else {
        active := active.(head := next);
      }
      if next != 0 {
        links := links.SetPrev(next, prev);
      } else {
        active := active.(tail := prev);
      }
      links := links.SetNext(p, 0).SetPrev(p, 0);
      if current == p {
        current := 0;
      }
    }

    /** `procman_remove` on the inactive list */
    method RemoveFromInactive(p: nat)
      modifies this`links, this`inactive
      ensures State() == RemoveInactive(old(State()), p)
    {
      var next, prev := links.Next(p), links.Prev(p);
      if prev != 0 {
        links := links.SetNext(prev, next);
      } else {
        inactive := inactive.(head := next);
      }
      if next != 0 {
        links := links.SetPrev(next, prev);
      } else {
        inactive := inactive.(tail := prev);
      }
      links := links.SetNext(p, 0).SetPrev(p, 0);
    }

    // ---- life cycle ----

    method ProcRegister(p: nat, flags: Flags)
      modifies this
      ensures State() == Register(old(State()), p, flags)
    {
      if p == 0 {
        return;
      }
      procs := procs[p := BLANK];
      procs := procs[p := procs[p].(flags := flags.(create := true))];
      AppendToInactive(p);
    }

    method SetFlags(p: nat, flags: Flags)
      requires p in procs
      modifies this`procs
      ensures procs == old(procs)[p := old(procs)[p].(flags := flags)]
    {
      procs := procs[p := procs[p].(flags := flags)];
    }

    /** `create_proc`: the next inactive process, or NULL after a failure. */
    method CreateProc(p: nat, stack: nat) returns (next: nat)
      requires p in procs
      modifies this
      ensures State() == Create(old(State()), p, stack)
      ensures next == if CreateFails(old(State()), p, stack) then 0 else old(links).Next(p)
    {
      SetFlags(p, procs[p].flags.(create := false));
      if procs[p].flags.stack {
        procs := procs[p := procs[p].(stack := stack)];
        if stack == 0 {
          return 0;
        }
      } else {
        procs := procs[p := procs[p].(stack := 0)];
      }
      procs := procs[p := procs[p].(id := count)];
      count := (count + 1) % WORD;
      next := links.Next(p);
      RemoveFromInactive(p);
      AppendToActive(p);
    }

    /** `destroy_proc` */
    method DestroyProc(p: nat) returns (next: nat)
      modifies this
      ensures State() == Destroy(old(State()), p) && next == old(links).Next(p)
    {
      next := links.Next(p);
      RemoveFromInactive(p);
      procs := procs - {p};
    }

    /** `proc_deregister` */
    method ProcDeregister(p: nat)
      requires p != 0 ==> p in procs
      modifies this
      ensures State() == Deregister(old(State()), p)
    {
      if p == 0 || procs[p].flags.kill {
        return;
      }
      RemoveFromActive(p);
      AppendToInactive(p);
      SetFlags(p, procs[p].flags.(kill := true));
    }

    /** `scheduler_init`; the arguments are what `kmalloc` returned. */
    method SchedulerInit(kinit: nat, idle: nat, sched: nat, idleStack: nat, schedStack: nat)
      modifies this
      ensures State() == Init(kinit, idle, sched, idleStack, schedStack)
    {
      active, current, count := Ends(0, 0), 0, 0;
      inactive, links, procs := Ends(0, 0), Fields(map[], map[]), map[];
      ProcRegister(kinit, KERNEL);
      if kinit == 0 {
        return;
      }
      var _ := CreateProc(kinit, 0);
      ProcRegister(idle, KERNEL.(stack := true));
      if idle == 0 {
        return;
      }
      var _ := CreateProc(idle, idleStack);
      ProcRegister(sched, KERNEL.(stack := true));
      if sched == 0 {
        return;
      }
      var _ := CreateProc(sched, schedStack);
      current := kinit;
    }

    // ---- the timer ----

    /** `process_update` */
    method ProcessUpdate(p: nat) returns (expired: bool)
      requires p in procs
      modifies this`procs
      ensures p in procs && (procs[p], expired) == Update(old(procs)[p]) && procs == old(procs)[p := procs[p]]
    {
      procs := procs[p := procs[p].(ticks := procs[p].ticks + 1)];
      if procs[p].ticks < 2 {
        return false;
      }
      procs := procs[p := procs[p].(ticks := 0)];
      return true;
    }

    /** `scheduler_switch` */
    method SchedulerSwitch(ghost l: Lists) returns (verdict: Verdict)
      requires Well(State(), l)
      modifies this
      ensures (State(), verdict) == Tick(old(State())) && Well(State(), l)
    {
      TickWell(State(), l);
      if current == 0 {
        if active.head == 0 {
          return Stay;
        }
        current := active.head;
      }
      assert current in procs by { LinkedIs(links, active, l.active); }
      var expired := ProcessUpdate(current);
      if !expired {
        return Stay;
      }
      var from := current;
      var next := if links.Next(current) != 0 then links.Next(current) else active.head;
      current := next;
      verdict := if next != from then Switch(from, next) else Stay;
    }

    // ---- the scheduler process ----

    /** One turn of the inner loop of `scheduler_proc`; `stack` is what `kmalloc`
        returns when it is asked for this process. */
    method ServeOne(p: nat, stack: nat, ghost l: Lists, ghost created: nat)
      returns (next: nat, ghost l': Lists, ghost created': nat)
      requires Inv(State(), l, created) && p in l.inactive
      modifies this
      ensures State() == Service(old(State()), p, stack)
      ensures Inv(State(), l', created') && l' == Moved(old(State()), l, Serve(p, stack))
      ensures Serviceable(old(State()), p) ==>
        next == if CannotStart(old(State()), p, stack) then 0 else old(links).Next(p)
      ensures if Serviceable(old(State()), p)
        then Pending(State(), l'.inactive) < Pending(old(State()), l.inactive)
             && (next == 0 || |l'.inactive| < |l.inactive|) && |l'.inactive| <= |l.inactive|
        else l' == l && State() == old(State()) && next == Before(l.inactive, IndexOf(l.inactive, p))
      ensures next != 0 ==> next in l'.inactive
    {
      ghost var s, e := State(), Serve(p, stack);
      StepInv(s, l, e, created);
      l', created' := Moved(s, l, e), created + Created(s, e);
      InactiveNeighbours(s, l, p);
      if Serviceable(s, p) {
        ServePending(s, l, created, p, stack);
        NextStays(s, l, p, stack);
      }
      if procs[p].flags.create {
        next := CreateProc(p, stack);
      } else if procs[p].flags.kill || procs[p].flags.error {
        next := DestroyProc(p);
      } else {
        next := links.Prev(p);
      }
    }

    /** One pass of `scheduler_proc` over the inactive list, backwards from the
        tail. It ends, keeps the invariant, and leaves fewer processes waiting to
        be created or destroyed unless none was waiting: so every such process is
        served after finitely many passes. A tail that asks for service is all the
        pass serves, because nobody follows it; behind a tail that does not, the
        pass serves everybody, as long as the stacks last. */
    method ServicePass(stacks: map<nat, nat>, ghost l: Lists, ghost created: nat)
      returns (ghost l': Lists, ghost created': nat)
      requires Inv(State(), l, created)
      modifies this
      ensures Inv(State(), l', created')
      ensures if Pending(old(State()), l.inactive) == 0 then State() == old(State()) && l' == l
        else Pending(State(), l'.inactive) < Pending(old(State()), l.inactive)
      ensures l.inactive != [] && Serviceable(old(State()), old(inactive.tail)) ==>
        State() == Service(old(State()), old(inactive.tail), StackFor(stacks, old(inactive.tail)))
      ensures !Serviceable(old(State()), old(inactive.tail)) && Ample(stacks, l.inactive) ==>
        Pending(State(), l'.inactive) == 0
    {
      ghost var before, tail := State(), inactive.tail;
      ghost var served := false;
      l', created' := l, created;
      var proc := inactive.tail;
      TailIndex(State(), l);
      TailSwept(State(), l);
      while proc != 0
        invariant Inv(State(), l', created')
        invariant proc != 0 ==> proc in l'.inactive
        invariant served ==> Pending(State(), l'.inactive) < Pending(before, l.inactive)
        invariant !served ==> State() == before && l' == l && Walked(before, l, proc)
        invariant served && Serviceable(before, tail) ==>
          proc == 0 && State() == Service(before, tail, StackFor(stacks, tail))
        invariant !Serviceable(before, tail) && Ample(stacks, l.inactive) ==>
          Swept(State(), l', proc, tail) && Ample(stacks, l'.inactive)
        decreases |l'.inactive|, if proc == 0 then 0 else IndexOf(l'.inactive, proc) + 1
      {
        ghost var serve := Serviceable(State(), proc);
        proc, l', created' := PassOn(stacks, l, l', created', proc, before, served);
        served := served || serve;
      }
      if !served { WalkedAll(before, l); }
      if !Serviceable(before, tail) && Ample(stacks, l.inactive) { WalkedAll(State(), l'); }
    }

    /** One iteration of the pass. */
    method PassOn(stacks: map<nat, nat>, ghost l0: Lists, ghost l: Lists, ghost created: nat, p: nat,
                  ghost before: Sched, ghost served: bool)
      returns (next: nat, ghost l': Lists, ghost created': nat)
      requires Inv(State(), l, created) && p in l.inactive && Well(before, l0)
      requires !served ==> State() == before && l == l0 && Walked(before, l0, p)
      requires !(served && Serviceable(before, before.inactive.tail))
      requires !Serviceable(before, before.inactive.tail) && Ample(stacks, l0.inactive) ==>
        Swept(State(), l, p, before.inactive.tail) && Ample(stacks, l.inactive)
      modifies this
      ensures Inv(State(), l', created') && (next != 0 ==> next in l'.inactive)
      ensures var serve := Serviceable(old(State()), p);
        && (serve ==> Pending(State(), l'.inactive) < Pending(old(State()), l.inactive))
        && (!serve ==> State() == old(State()) && l' == l && next == Before(l.inactive, IndexOf(l.inactive, p)))
        && (!serve && !served ==> Walked(before, l0, next))
        && (serve && Serviceable(before, before.inactive.tail) ==>
              next == 0 && State() == Service(before, before.inactive.tail, StackFor(stacks, before.inactive.tail)))
        && (serve ==> (next == 0 || |l'.inactive| < |l.inactive|) && |l'.inactive| <= |l.inactive|)
      ensures !Serviceable(before, before.inactive.tail) && Ample(stacks, l0.inactive) ==>
        Swept(State(), l', next, before.inactive.tail) && Ample(stacks, l'.inactive)
      ensures !Serviceable(old(State()), p) && next != 0 ==>
        IndexOf(l'.inactive, next) < IndexOf(l.inactive, p)
    {
      ghost var s := State();
      var stack := if p in stacks then stacks[p] else 0;
      WalkOn(s, l, p);
      if Serviceable(s, p) {
        if Serviceable(before, before.inactive.tail) { OnlyTail(before, l0, p); }
        if !Serviceable(before, before.inactive.tail) && Ample(stacks, l0.inactive) {
          SweepServe(s, l, p, stack, stacks, before.inactive.tail);
        }
      }
      next, l', created' := ServeOne(p, stack, l, created);
    }
  }

  /** `create_proc` would fail for want of a stack. */
  predicate CannotStart(s: Sched, p: nat, stack: nat)
  {
    s.Proc(p).flags.create && CreateFails(s, p, stack)
  }

  function StackFor(stacks: map<nat, nat>, p: nat): nat
  {
    if p in stacks then stacks[p] else 0
  }

  /** A stack can be had for every process of the list. */
  ghost predicate Ample(stacks: map<nat, nat>, q: seq<nat>)
  {
    forall p :: p in q ==> p in stacks && stacks[p] != 0
  }

  /** The list still ends in `tail`, which does not ask for service, and nobody behind
      `p` does. */
  ghost predicate Swept(s: Sched, l: Lists, p: nat, tail: nat)
  {
    && (l.inactive != [] ==> l.inactive[|l.inactive| - 1] == tail && !Serviceable(s, tail))
    && Walked(s, l, p)
  }

  lemma TailSwept(s: Sched, l: Lists)
    requires Well(s, l)
    ensures Walked(s, l, s.inactive.tail)
    ensures !Serviceable(s, s.inactive.tail) ==> Swept(s, l, s.inactive.tail, s.inactive.tail)
  {
    TailIndex(s, l);
  }

  /** With a tail that asks for service, the walk has not passed it. */
  lemma OnlyTail(s: Sched, l: Lists, p: nat)
    requires Well(s, l) && p in l.inactive && Walked(s, l, p) && Serviceable(s, s.inactive.tail)
    ensures p == s.inactive.tail && s.links.Next(p) == 0
  {
    TailIndex(s, l);
    InactiveNeighbours(s, l, p);
    var last := |l.inactive| - 1;
    assert l.inactive[last] == s.inactive.tail;
  }

  /** Serving a process in front of such a tail. */
  lemma SweepServe(s: Sched, l: Lists, p: nat, stack: nat, stacks: map<nat, nat>, tail: nat)
    requires Well(s, l) && p in l.inactive && Serviceable(s, p) && Swept(s, l, p, tail)
    requires Ample(stacks, l.inactive) && stack == StackFor(stacks, p)
    ensures var e := Serve(p, stack);
      && !CannotStart(s, p, stack) && s.links.Next(p) != 0
      && Swept(Step(s, e), Moved(s, l, e), s.links.Next(p), tail) && Ample(stacks, Moved(s, l, e).inactive)
  {
    var i := IndexOf(l.inactive, p);
    assert Distinct(l.inactive) && 0 !in l.inactive by { LinkedIs(s.links, s.inactive, l.inactive); }
    InactiveNeighbours(s, l, p);
    assert i < |l.inactive| - 1;
    ServeShape(s, l, p, stack);
    WithoutMembers(l.inactive, p);
    SweptRest(s, Step(s, Serve(p, stack)), l.inactive, p, Moved(s, l, Serve(p, stack)), tail);
  }

  /** A process served takes nobody with it. */
  lemma ServeShape(s: Sched, l: Lists, p: nat, stack: nat)
    requires Serviceable(s, p) && !CannotStart(s, p, stack)
    ensures Moved(s, l, Serve(p, stack)).inactive == Without(l.inactive, p)
    ensures forall x :: x in l.inactive && x != p ==> Step(s, Serve(p, stack)).Proc(x) == s.Proc(x)
  {
  }

  /** The nodes behind a removed one move up. */
  lemma NextAfterRemoval(q: seq<nat>, p: nat)
    requires Distinct(q) && p in q && IndexOf(q, p) < |q| - 1
    ensures var i, rest := IndexOf(q, p), Without(q, p);
      && |rest| == |q| - 1 && (forall k :: i <= k < |rest| ==> rest[k] == q[k + 1])
      && q[i + 1] in rest && IndexOf(rest, q[i + 1]) == i
  {
    var i, rest := IndexOf(q, p), Without(q, p);
    WithoutIs(q, p, i);
    DistinctWithout(q, p);
    assert rest[i] == q[i + 1];
    IndexIs(rest, q[i + 1], i);
  }

  lemma SweptRest(s: Sched, t: Sched, q: seq<nat>, p: nat, m: Lists, tail: nat)
    requires Distinct(q) && p in q && IndexOf(q, p) < |q| - 1 && m.inactive == Without(q, p)
    requires q[|q| - 1] == tail && forall k :: IndexOf(q, p) < k < |q| ==> !Serviceable(s, q[k])
    requires forall x :: x in q && x != p ==> t.Proc(x) == s.Proc(x)
    ensures Swept(t, m, q[IndexOf(q, p) + 1], tail)
  {
    var i, rest := IndexOf(q, p), m.inactive;
    NextAfterRemoval(q, p);
    forall k | i <= k < |rest| ensures !Serviceable(t, rest[k]) { assert rest[k] == q[k + 1] && q[k + 1] in q; }
  }

  /** No process behind `p` asks for service; behind NULL lies the whole list. */
  ghost predicate Walked(s: Sched, l: Lists, p: nat)
  {
    forall k :: (if p in l.inactive then IndexOf(l.inactive, p) else -1) < k < |l.inactive| ==>
      !Serviceable(s, l.inactive[k])
  }

  lemma WalkedAll(s: Sched, l: Lists)
    requires Well(s, l) && Walked(s, l, 0)
    ensures Pending(s, l.inactive) == 0
    ensures l.inactive != [] ==> !Serviceable(s, s.inactive.tail)
  {
    TailIndex(s, l);
    assert 0 !in l.inactive by { LinkedIs(s.links, s.inactive, l.inactive); }
    PendingNone(s, l.inactive);
  }

  lemma WalkOn(s: Sched, l: Lists, p: nat)
    requires Well(s, l) && p in l.inactive
    ensures var i := IndexOf(l.inactive, p);
      var q := Before(l.inactive, i);
      && (q != 0 ==> q in l.inactive && IndexOf(l.inactive, q) == i - 1)
      && (q == 0 ==> i == 0)
      && (!Serviceable(s, p) && Walked(s, l, p) ==> Walked(s, l, q))
  {
    var i := IndexOf(l.inactive, p);
    assert 0 !in l.inactive by { LinkedIs(s.links, s.inactive, l.inactive); }
    if i > 0 {
      BeforeIndex(s, l, i);
    }
    if !Serviceable(s, p) && Walked(s, l, p) { WalkedBack(s, l, p, Before(l.inactive, i)); }
  }

  lemma WalkedBack(s: Sched, l: Lists, p: nat, q: nat)
    requires p in l.inactive && !Serviceable(s, p) && Walked(s, l, p)
    requires q in l.inactive ==> IndexOf(l.inactive, q) == IndexOf(l.inactive, p) - 1
    requires q !in l.inactive ==> IndexOf(l.inactive, p) == 0
    ensures Walked(s, l, q)
  {
  }
}

/** Runs of the scheduler: what every register, create, destroy, deregister and
    tick keeps. */
module ProcessRuns {
  import opened Words
  import opened Links
  import opened Processes

  // ---- flags, quantum and pids ----

  /** An active process has no service bit set; only the current process may be
      inside its quantum. */
  ghost predicate ActiveOk(s: Sched, p: nat)
  {
    var q := s.Proc(p);
    && !q.flags.create && !q.flags.kill && !q.flags.error
    && q.ticks < (if p == s.current then 2 else 1)
  }

  /** An inactive process waits for creation, failed to be created, or waits for
      destruction. */
  ghost predicate InactiveOk(s: Sched, p: nat)
  {
    var q := s.Proc(p);
    && !q.flags.error && !(q.flags.create && q.flags.kill)
    && (!q.flags.kill ==> q.ticks == 0 && q.id == 0)
  }

  ghost predicate StatesOk(s: Sched, l: Lists)
  {
    && (forall p :: p in l.active ==> ActiveOk(s, p))
    && (forall p :: p in l.inactive ==> InactiveOk(s, p))
  }

  /** Has `p` been given a pid? */
  ghost predicate Assigned(s: Sched, l: Lists, p: nat)
  {
    p in l.active || (p in l.inactive && s.Proc(p).flags.kill)
  }

  /** The counter is never decremented: after `created` creations it is that
      number, and until it wraps all pids are smaller and different. */
  ghost predicate PidsOk(s: Sched, l: Lists, created: nat)
  {
    && s.count == created % WORD
    && (created <= WORD ==>
        && (forall p :: Assigned(s, l, p) ==> s.Proc(p).id < created)
        && (forall p, q :: Assigned(s, l, p) && Assigned(s, l, q) && p != q ==> s.Proc(p).id != s.Proc(q).id))
  }

  ghost predicate Inv(s: Sched, l: Lists, created: nat)
  {
    Well(s, l) && StatesOk(s, l) && PidsOk(s, l, created)
  }

  // ---- steps ----

  datatype Event =
    | Arrive(p: nat, flags: Flags)
    | Serve(p: nat, stack: nat)
    | Leave(p: nat)
    | Timer

  function Step(s: Sched, e: Event): Sched
  {
    match e
    case Arrive(p, flags) => Register(s, p, flags)
    case Serve(p, stack) => Service(s, p, stack)
    case Leave(p) => Deregister(s, p)
    case Timer => Tick(s).0
  }

  /** What the callers promise: a new record is at a new address, the service
      loop works on inactive processes, and a process is deregistered when it is
      active or already deregistered. */
  ghost predicate Legal(s: Sched, l: Lists, e: Event)
  {
    match e
    case Arrive(p, flags) => p !in s.procs && !flags.create && !flags.kill && !flags.error
    case Serve(p, stack) => p in l.inactive
    case Leave(p) => p == 0 || p in l.active || s.Proc(p).flags.kill
    case Timer => true
  }

  predicate Creates(s: Sched, e: Event)
  {
    e.Serve? && s.Proc(e.p).flags.create && !CreateFails(s, e.p, e.stack)
  }

  predicate Destroys(s: Sched, e: Event)
  {
    e.Serve? && !s.Proc(e.p).flags.create && (s.Proc(e.p).flags.kill || s.Proc(e.p).flags.error)
  }

  predicate Unloads(s: Sched, e: Event)
  {
    e.Leave? && e.p != 0 && !s.Proc(e.p).flags.kill
  }

  /** The lists after a step. */
  function Moved(s: Sched, l: Lists, e: Event): Lists
  {
    if e.Arrive? && e.p != 0 then l.(inactive := l.inactive + [e.p])
    else if Creates(s, e) then Lists(l.active + [e.p], Without(l.inactive, e.p))
    else if Destroys(s, e) then l.(inactive := Without(l.inactive, e.p))
    else if Unloads(s, e) then Lists(Without(l.active, e.p), l.inactive + [e.p])
    else l
  }

  lemma StepWell(s: Sched, l: Lists, e: Event)
    requires Well(s, l) && Legal(s, l, e)
    ensures Well(Step(s, e), Moved(s, l, e))
  {
    match e
    case Arrive(p, flags) => if p != 0 { RegisterWell(s, l, p, flags); }
    case Serve(p, stack) =>
      if s.Proc(p).flags.create { CreateWell(s, l, p, stack); }
      else if Destroys(s, e) { DestroyWell(s, l, p); }
    case Leave(p) => if Unloads(s, e) { DeregisterWell(s, l, p); }
    case Timer => TickWell(s, l);
  }

  lemma TickProc(s: Sched, p: nat)
    requires p != 0
    ensures var q := Tick(s).0.Proc(p);
      if p == Adopt(s) then
        q == s.Proc(p).(ticks := if s.Proc(p).ticks == 0 then 1 else 0)
        && (q.ticks == 1 ==> Tick(s).0.current == p)
      else q == s.Proc(p)
  {
  }

  lemma TickActive(s: Sched, l: Lists, p: nat)
    requires Well(s, l) && StatesOk(s, l) && p in l.active
    ensures ActiveOk(Tick(s).0, p)
  {
    LinkedIs(s.links, s.active, l.active);
    assert ActiveOk(s, p);
    TickProc(s, p);
  }

  lemma StepActive(s: Sched, l: Lists, e: Event, p: nat)
    requires Well(s, l) && StatesOk(s, l) && Legal(s, l, e) && p in Moved(s, l, e).active
    ensures ActiveOk(Step(s, e), p)
  {
    MovedMembers(s, l, e);
    if e.Timer? {
      TickActive(s, l, p);
    } else if p == e.p {
      if e.Serve? { assert InactiveOk(s, p); }
    } else {
      assert ActiveOk(s, p);
    }
  }

  lemma StepInactive(s: Sched, l: Lists, e: Event, p: nat)
    requires Well(s, l) && StatesOk(s, l) && Legal(s, l, e) && p in Moved(s, l, e).inactive
    ensures InactiveOk(Step(s, e), p)
  {
    MovedMembers(s, l, e);
    if e.Timer? {
      LinkedIs(s.links, s.active, l.active);
      LinkedIs(s.links, s.inactive, l.inactive);
      TickProc(s, p);
    }
    if p in l.inactive { assert InactiveOk(s, p); }
    if p in l.active { assert ActiveOk(s, p); }
  }

  /** Who is where after a step. */
  lemma MovedMembers(s: Sched, l: Lists, e: Event)
    requires Well(s, l) && Legal(s, l, e)
    ensures forall p :: p in Moved(s, l, e).active ==> p in l.active || (Creates(s, e) && p == e.p)
    ensures forall p :: p in Moved(s, l, e).inactive ==>
      p in l.inactive || (e.Arrive? && p == e.p) || (Unloads(s, e) && p == e.p)
    ensures Creates(s, e) || Destroys(s, e) ==> e.p !in Moved(s, l, e).inactive
    ensures Unloads(s, e) ==> e.p !in Moved(s, l, e).active && e.p in l.active
  {
    LinkedIs(s.links, s.active, l.active);
    LinkedIs(s.links, s.inactive, l.inactive);
    if e.Serve? { WithoutMembers(l.inactive, e.p); }
    if e.Leave? { WithoutMembers(l.active, e.p); }
  }

  lemma StepStates(s: Sched, l: Lists, e: Event)
    requires Well(s, l) && StatesOk(s, l) && Legal(s, l, e)
    ensures StatesOk(Step(s, e), Moved(s, l, e))
  {
    forall p | p in Moved(s, l, e).active ensures ActiveOk(Step(s, e), p) { StepActive(s, l, e, p); }
    forall p | p in Moved(s, l, e).inactive ensures InactiveOk(Step(s, e), p) { StepInactive(s, l, e, p); }
  }

  function Created(s: Sched, e: Event): nat
  {
    if Creates(s, e) then 1 else 0
  }

  /** A process with a pid after a step had the same pid before it, or is the one
      just created, with the counter's old value. */
  lemma StepAssigned(s: Sched, l: Lists, e: Event, p: nat)
    requires Well(s, l) && StatesOk(s, l) && Legal(s, l, e)
    requires Assigned(Step(s, e), Moved(s, l, e), p)
    ensures if Creates(s, e) && p == e.p then Step(s, e).Proc(p).id == s.count
            else Assigned(s, l, p) && Step(s, e).Proc(p).id == s.Proc(p).id
  {
    MovedMembers(s, l, e);
  }

  lemma StepPids(s: Sched, l: Lists, e: Event, created: nat)
    requires Inv(s, l, created) && Legal(s, l, e)
    ensures PidsOk(Step(s, e), Moved(s, l, e), created + Created(s, e))
  {
    var t, m, c := Step(s, e), Moved(s, l, e), created + Created(s, e);
    assert t.count == c % WORD;
    if c <= WORD {
      assert Creates(s, e) ==> s.count == created;
      forall p | Assigned(t, m, p) ensures t.Proc(p).id < c {
        StepAssigned(s, l, e, p);
      }
      forall p, q | Assigned(t, m, p) && Assigned(t, m, q) && p != q ensures t.Proc(p).id != t.Proc(q).id {
        StepAssigned(s, l, e, p);
        StepAssigned(s, l, e, q);
      }
    }
  }

  lemma StepInv(s: Sched, l: Lists, e: Event, created: nat)
    requires Inv(s, l, created) && Legal(s, l, e)
    ensures Inv(Step(s, e), Moved(s, l, e), created + Created(s, e))
  {
    StepWell(s, l, e);
    StepStates(s, l, e);
    StepPids(s, l, e, created);
  }

  // ---- whole runs ----

  function Run(s: Sched, es: seq<Event>): Sched
    decreases |es|
  {
    if |es| == 0 then s else Run(Step(s, es[0]), es[1..])
  }

  function RunLists(s: Sched, l: Lists, es: seq<Event>): Lists
    decreases |es|
  {
    if |es| == 0 then l else RunLists(Step(s, es[0]), Moved(s, l, es[0]), es[1..])
  }

  function RunCreated(s: Sched, es: seq<Event>): nat
    decreases |es|
  {
    if |es| == 0 then 0 else Created(s, es[0]) + RunCreated(Step(s, es[0]), es[1..])
  }

  ghost predicate LegalRun(s: Sched, l: Lists, es: seq<Event>)
    decreases |es|
  {
    |es| == 0 || (Legal(s, l, es[0]) && LegalRun(Step(s, es[0]), Moved(s, l, es[0]), es[1..]))
  }

  /** In every reachable state both lists are well formed and share no process,
      the current process is active or NULL, every reachable process has a record
      and every record is reachable, and pids are different until the counter
      wraps. */
  lemma {:induction false} RunInv(s: Sched, l: Lists, es: seq<Event>, created: nat)
    requires Inv(s, l, created) && LegalRun(s, l, es)
    ensures Inv(Run(s, es), RunLists(s, l, es), created + RunCreated(s, es))
    decreases |es|
  {
    if |es| > 0 {
      var t, m, c := Step(s, es[0]), Moved(s, l, es[0]), created + Created(s, es[0]);
      StepInv(s, l, es[0], created);
      RunInv(t, m, es[1..], c);
      assert Run(s, es) == Run(t, es[1..]) && RunLists(s, l, es) == RunLists(t, m, es[1..]);
      assert created + RunCreated(s, es) == c + RunCreated(t, es[1..]);
    }
  }

  lemma EmptyInv()
    ensures Inv(EMPTY, Lists([], []), 0)
  {
    LinkedIntro(EMPTY.links, EMPTY.active, []);
  }

  // ---- start-up ----

  const KERNEL := Flags(true, false, false, false, false)

  /** `scheduler_init`: three processes registered and created, then the first
      one is made current. A failed registration ends the start-up early. */
  function Init(kinit: nat, idle: nat, sched: nat, idleStack: nat, schedStack: nat): Sched
  {
    if kinit == 0 then EMPTY else
    var s1 := Create(Register(EMPTY, kinit, KERNEL), kinit, 0);
    if idle == 0 then s1 else
    var s2 := Create(Register(s1, idle, KERNEL.(stack := true)), idle, idleStack);
    if sched == 0 then s2 else
    var s3 := Create(Register(s2, sched, KERNEL.(stack := true)), sched, schedStack);
    s3.(current := kinit)
  }

  /** No registered process is still to be created. */
  ghost predicate NoneRequested(s: Sched)
  {
    forall p :: p in s.procs ==> !s.Proc(p).flags.create
  }

  /** Registering and creating a kernel process keeps the invariant. */
  lemma LoadInv(s: Sched, l: Lists, created: nat, p: nat, flags: Flags, stack: nat) returns (l': Lists, created': nat)
    requires Inv(s, l, created) && p != 0 && p !in s.procs && !flags.create && !flags.kill && !flags.error
    requires NoneRequested(s)
    ensures NoneRequested(Create(Register(s, p, flags), p, stack))
    ensures Inv(Create(Register(s, p, flags), p, stack), l', created')
    ensures forall q :: q in l.active ==> q in l'.active
    ensures !flags.stack ==> p in l'.active
    ensures Create(Register(s, p, flags), p, stack).current == s.current
    ensures forall q :: q in Create(Register(s, p, flags), p, stack).procs ==> q in s.procs || q == p
  {
    StepInv(s, l, Arrive(p, flags), created);
    var t, m := Register(s, p, flags), Moved(s, l, Arrive(p, flags));
    StepInv(t, m, Serve(p, stack), created);
    l', created' := Moved(t, m, Serve(p, stack)), created + Created(t, Serve(p, stack));
  }

  lemma InitInv(kinit: nat, idle: nat, sched: nat, idleStack: nat, schedStack: nat) returns (l: Lists, created: nat)
    requires kinit != 0 ==> kinit != idle && kinit != sched
    requires idle != 0 ==> idle != sched
    ensures Inv(Init(kinit, idle, sched, idleStack, schedStack), l, created)
    ensures NoneRequested(Init(kinit, idle, sched, idleStack, schedStack))
    ensures forall p :: p in Init(kinit, idle, sched, idleStack, schedStack).procs ==> p in {kinit, idle, sched}
    ensures Init(kinit, idle, sched, idleStack, schedStack).current ==
      if kinit != 0 && idle != 0 && sched != 0 then kinit else 0
  {
    EmptyInv();
    l, created := Lists([], []), 0;
    if kinit != 0 {
      l, created := LoadInv(EMPTY, l, created, kinit, KERNEL, 0);
      if idle != 0 {
        var s1 := Create(Register(EMPTY, kinit, KERNEL), kinit, 0);
        l, created := LoadInv(s1, l, created, idle, KERNEL.(stack := true), idleStack);
        if sched != 0 {
          var s2 := Create(Register(s1, idle, KERNEL.(stack := true)), idle, idleStack);
          l, created := LoadInv(s2, l, created, sched, KERNEL.(stack := true), schedStack);
          var s3 := Create(Register(s2, sched, KERNEL.(stack := true)), sched, schedStack);
          AdoptInv(s3, l, created, kinit);
        }
      }
    }
  }

  lemma AdoptInv(s: Sched, l: Lists, created: nat, p: nat)
    requires Inv(s, l, created) && s.current == 0 && p in l.active
    ensures Inv(s.(current := p), l, created)
  {
    var t := s.(current := p);
    LinkedIs(s.links, s.active, l.active);
    forall q | q in l.active ensures ActiveOk(t, q) { assert ActiveOk(s, q); }
    forall q | q in l.inactive ensures InactiveOk(t, q) { assert InactiveOk(s, q); }
    assert forall q :: Assigned(t, l, q) ==> Assigned(s, l, q);
  }
}

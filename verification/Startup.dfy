/** What `scheduler_init` (scheduler.c) leaves, whichever allocations fail, and what a
    process carries from its registration to its creation. */
module Startup {
  import opened Words
  import opened Links
  import opened Processes
  import opened ProcessRuns

  /** A process registered with the caller's flags and created on `stack` as the one
      with number `id`. */
  function Created(flags: Flags, id: nat, stack: nat): Process
  {
    Process(Flags(flags.kernel, flags.stack, false, flags.kill, flags.error), id, 0, if flags.stack then stack else 0)
  }

  /** One whose stack could not be allocated: neither created nor to be created. */
  function Failed(flags: Flags): Process
  {
    Process(Flags(flags.kernel, flags.stack, false, flags.kill, flags.error), 0, 0, 0)
  }

  /** A new process registered and served at once: it ends up last in the active list,
      under the next pid, with the flags and the stack it was given; or, without a
      stack, last in the inactive list for good. Nobody else is touched. */
  lemma LoadOutcome(s: Sched, l: Lists, p: nat, flags: Flags, stack: nat)
    requires Well(s, l) && p != 0 && p !in s.procs && s.count < WORD
    ensures var t := Create(Register(s, p, flags), p, stack);
      var fails := flags.stack && stack == 0;
      && Well(t, if fails then Lists(l.active, l.inactive + [p]) else Lists(l.active + [p], l.inactive))
      && t.Proc(p) == (if fails then Failed(flags) else Created(flags, s.count, stack))
      && t.count == (if fails then s.count else (s.count + 1) % WORD)
      && t.current == s.current && (forall q :: q != p ==> t.Proc(q) == s.Proc(q))
      && t.procs.Keys == s.procs.Keys + {p}
  {
    LoadLists(s, l, p, flags, stack);
    LoadRecord(s, p, flags, stack);
    LinkedIs(s.links, s.active, l.active);
  }

  lemma LoadLists(s: Sched, l: Lists, p: nat, flags: Flags, stack: nat)
    requires Well(s, l) && p != 0 && p !in s.procs
    ensures Well(Create(Register(s, p, flags), p, stack),
      if flags.stack && stack == 0 then Lists(l.active, l.inactive + [p]) else Lists(l.active + [p], l.inactive))
  {
    RegisterWell(s, l, p, flags);
    var r, k := Register(s, p, flags), l.(inactive := l.inactive + [p]);
    assert p !in l.inactive && p in k.inactive;
    CreateWell(r, k, p, stack);
    LastOut(l.inactive, p);
  }

  lemma LoadRecord(s: Sched, p: nat, flags: Flags, stack: nat)
    requires p != 0
    ensures var t := Create(Register(s, p, flags), p, stack);
      var fails := flags.stack && stack == 0;
      && t.Proc(p) == (if fails then Failed(flags) else Created(flags, s.count, stack))
      && t.count == (if fails then s.count else (s.count + 1) % WORD)
      && (s.current != p ==> t.current == s.current) && (forall q :: q != p ==> t.Proc(q) == s.Proc(q))
      && t.procs.Keys == s.procs.Keys + {p}
  {
  }

  lemma {:induction false} LastOut(s: seq<nat>, p: nat)
    requires p !in s
    ensures Without(s + [p], p) == s
  {
    if s != [] {
      LastOut(s[1..], p);
      assert (s + [p])[1..] == s[1..] + [p];
    }
  }

  /** The services that come up, in the order of their start, and those that fail. */
  function UpList(kinit: nat, idle: nat, sched: nat, idleUp: bool, schedUp: bool): Lists
  {
    Lists([kinit] + (if idleUp then [idle] else []) + (if schedUp then [sched] else []),
          (if idleUp then [] else [idle]) + (if schedUp then [] else [sched]))
  }

  /** All three records allocated: active are the init process, the idle process and
      the scheduler process, in this order, under pids 0, 1 and 2, as far as their
      stacks could be allocated; the others stay inactive for good; the init process
      is current. */
  lemma InitOutcome(kinit: nat, idle: nat, sched: nat, idleStack: nat, schedStack: nat)
    requires kinit != 0 && idle != 0 && sched != 0 && kinit != idle && kinit != sched && idle != sched
    ensures var s := Init(kinit, idle, sched, idleStack, schedStack);
      var l := UpList(kinit, idle, sched, idleStack != 0, schedStack != 0);
      && Well(s, l) && s.current == kinit && s.count == |l.active|
      && s.Proc(kinit) == Process(Flags(true, false, false, false, false), 0, 0, 0)
      && s.Proc(idle) == OwnStack(idleStack, 1)
      && s.Proc(sched) == OwnStack(schedStack, if idleStack != 0 then 2 else 1)
  {
    var s1, l1 := Create(Register(EMPTY, kinit, KERNEL), kinit, 0), Lists([kinit], []);
    FirstUp(kinit);
    NextUp(s1, l1, idle, idleStack);
    var s2 := Create(Register(s1, idle, KERNEL.(stack := true)), idle, idleStack);
    NextUp(s2, Joined(l1, idle, idleStack != 0), sched, schedStack);
    UpJoined(kinit, idle, sched, idleStack != 0, schedStack != 0);
    Adopted(Create(Register(s2, sched, KERNEL.(stack := true)), sched, schedStack),
            UpList(kinit, idle, sched, idleStack != 0, schedStack != 0), kinit);
  }

  lemma UpJoined(kinit: nat, idle: nat, sched: nat, idleUp: bool, schedUp: bool)
    ensures Joined(Joined(Lists([kinit], []), idle, idleUp), sched, schedUp) ==
      UpList(kinit, idle, sched, idleUp, schedUp)
  {
    assert [kinit] + [] + [] == [kinit] && [kinit] + [] + [sched] == [kinit] + [sched];
  }

  lemma Adopted(s: Sched, l: Lists, p: nat)
    requires Well(s, l) && p in l.active
    ensures Well(s.(current := p), l) && forall q :: s.(current := p).Proc(q) == s.Proc(q)
  {
  }

  function Joined(l: Lists, p: nat, up: bool): Lists
  {
    if up then Lists(l.active + [p], l.inactive) else Lists(l.active, l.inactive + [p])
  }

  lemma FirstUp(kinit: nat)
    requires kinit != 0
    ensures var s := Create(Register(EMPTY, kinit, KERNEL), kinit, 0);
      && Well(s, Lists([kinit], [])) && s.count == 1 && s.current == 0 && s.procs.Keys == {kinit}
      && s.Proc(kinit) == Process(Flags(true, false, false, false, false), 0, 0, 0)
  {
    EmptyInv();
    LoadOutcome(EMPTY, Lists([], []), kinit, KERNEL, 0);
    assert [] + [kinit] == [kinit];
  }

  /** One more service with a stack of its own. */
  lemma NextUp(s: Sched, l: Lists, p: nat, stack: nat)
    requires Well(s, l) && p != 0 && p !in s.procs && s.count < WORD - 1 && s.current == 0
    ensures var t := Create(Register(s, p, KERNEL.(stack := true)), p, stack);
      && Well(t, Joined(l, p, stack != 0)) && t.Proc(p) == OwnStack(stack, s.count)
      && t.count == s.count + (if stack != 0 then 1 else 0)
      && t.current == 0 && (forall q :: q != p ==> t.Proc(q) == s.Proc(q)) && t.procs.Keys == s.procs.Keys + {p}
  {
    LoadOutcome(s, l, p, KERNEL.(stack := true), stack);
  }

  /** The record of a service with its own stack. */
  function OwnStack(stack: nat, id: nat): Process
  {
    if stack != 0 then Process(Flags(true, true, false, false, false), id, 0, stack)
    else Process(Flags(true, true, false, false, false), 0, 0, 0)
  }

  /** A record that cannot be allocated ends the start-up: what was started before
      stays, nothing is current. */
  lemma InitCutShort(kinit: nat, idle: nat, sched: nat, idleStack: nat, schedStack: nat)
    requires kinit == 0 || idle == 0 || sched == 0
    requires kinit != 0 ==> kinit != idle
    ensures var s := Init(kinit, idle, sched, idleStack, schedStack);
      && s.current == 0
      && (kinit == 0 ==> Well(s, Lists([], [])) && s.count == 0)
      && (kinit != 0 && idle == 0 ==> Well(s, Lists([kinit], [])) && s.count == 1)
      && (kinit != 0 && idle != 0 && idleStack != 0 ==> Well(s, Lists([kinit, idle], [])) && s.count == 2)
      && (kinit != 0 && idle != 0 && idleStack == 0 ==> Well(s, Lists([kinit], [idle])) && s.count == 1)
  {
    EmptyInv();
    if kinit != 0 {
      FirstUp(kinit);
      if idle != 0 {
        NextUp(Create(Register(EMPTY, kinit, KERNEL), kinit, 0), Lists([kinit], []), idle, idleStack);
        assert [kinit] + [idle] == [kinit, idle] && [] + [idle] == [idle];
      }
    }
  }
}

/** Deregistering processes: `proc_deregister` (scheduler.c) edits the active list
    whether or not the process is in it. When the lists survive that, and when the
    invariant of all runs does. */
module Unloading {
  import opened Words
  import opened Links
  import opened Processes
  import opened ProcessRuns

  // ---- deregistering a process that is not active ----

  lemma NextDiffers(f: Fields, e: Ends, s: seq<nat>, p: nat)
    requires Linked(f, e, s) && p in s
    ensures f.Next(p) != p
  {
    LinkedIs(f, e, s);
    var i :| 0 <= i < |s| && s[i] == p;
    assert f.Next(s[i]) == After(s, i);
  }

  lemma HeadFirst(f: Fields, e: Ends, s: seq<nat>)
    requires Linked(f, e, s) && e.head != 0
    ensures f.Prev(e.head) == 0
  {
    LinkedIs(f, e, s);
  }

  /** A process linked to itself is in no well-formed list. */
  lemma SelfLoop(s: Sched, l: Lists, p: nat)
    requires Well(s, l) && p in s.procs
    ensures s.links.Next(p) != p
  {
    if p in l.active {
      NextDiffers(s.links, s.active, l.active, p);
    } else {
      NextDiffers(s.links, s.inactive, l.inactive, p);
    }
  }

  /** The last inactive process is linked to itself. */
  lemma DeregisterLast(s: Sched, l: Lists, p: nat, k: Lists)
    requires Well(s, l) && p in l.inactive && !s.Proc(p).flags.kill && s.links.Next(p) == 0
    ensures !Well(Deregister(s, p), k)
  {
    LinkedIs(s.links, s.inactive, l.inactive);
    var i :| 0 <= i < |l.inactive| && l.inactive[i] == p;
    assert s.inactive.tail == p;
    assert Deregister(s, p).links.Next(p) == p;
    if Well(Deregister(s, p), k) { SelfLoop(Deregister(s, p), k, p); }
  }

  /** The first inactive process stays at the head with a predecessor. */
  lemma DeregisterFirst(s: Sched, l: Lists, p: nat, k: Lists)
    requires Well(s, l) && p in l.inactive && !s.Proc(p).flags.kill && s.links.Next(p) != 0 && s.links.Prev(p) == 0
    ensures !Well(Deregister(s, p), k)
  {
    LinkedIs(s.links, s.inactive, l.inactive);
    var i :| 0 <= i < |l.inactive| && l.inactive[i] == p;
    var t := Deregister(s, p);
    assert i == 0 && s.inactive.head == p;
    assert s.inactive.tail != p && s.inactive.tail != 0;
    assert t.inactive.head == p && t.links.Prev(p) == s.inactive.tail;
    if Well(t, k) {
      HeadFirst(t.links, t.inactive, k.inactive);
    }
  }

  /** In the middle of the inactive list the edit moves the process to its end. */
  lemma DeregisterMiddle(s: Sched, l: Lists, p: nat)
    requires Well(s, l) && p in l.inactive && !s.Proc(p).flags.kill && s.links.Next(p) != 0 && s.links.Prev(p) != 0
    ensures Well(Deregister(s, p), l.(inactive := Without(l.inactive, p) + [p]))
  {
    RemoveKeeps(s.links, s.inactive, l.inactive, p, s.active, l.active);
    var (f, e) := Remove(s.links, s.inactive, p);
    assert Remove(s.links, s.active, p) == (f, s.active) && e == s.inactive;
    AppendKeeps(f, s.inactive, Without(l.inactive, p), p, s.active, l.active);
  }

  /** `proc_deregister` of a live process leaves well-formed lists exactly when
      it has been deregistered before, is active, or has a neighbour on both
      sides. */
  lemma DeregisterIff(s: Sched, l: Lists, p: nat)
    requires Well(s, l) && p in s.procs
    ensures (exists k :: Well(Deregister(s, p), k)) <==>
      s.Proc(p).flags.kill || p in l.active || (s.links.Next(p) != 0 && s.links.Prev(p) != 0)
  {
    if s.Proc(p).flags.kill {
      assert Well(Deregister(s, p), l);
    } else if p in l.active {
      DeregisterWell(s, l, p);
    } else if s.links.Next(p) == 0 {
      forall k ensures !Well(Deregister(s, p), k) { DeregisterLast(s, l, p, k); }
    } else if s.links.Prev(p) == 0 {
      forall k ensures !Well(Deregister(s, p), k) { DeregisterFirst(s, l, p, k); }
    } else {
      DeregisterMiddle(s, l, p);
    }
  }

  /** The shortest failure: a process deregistered before it was created. */
  lemma DeregisterTooEarly(p: nat, flags: Flags, k: Lists)
    requires p != 0 && !flags.kill
    ensures !Well(Deregister(Register(EMPTY, p, flags), p), k)
  {
    EmptyInv();
    RegisterWell(EMPTY, Lists([], []), p, flags);
    DeregisterLast(Register(EMPTY, p, flags), Lists([], [p]), p, k);
  }

  // ---- the invariant ----

  /** The lists are determined by the links. */
  lemma WellUnique(s: Sched, l: Lists, k: Lists)
    requires Well(s, l) && Well(s, k)
    ensures l == k
  {
    LinkedUnique(s.links, s.active, l.active, k.active);
    LinkedUnique(s.links, s.inactive, l.inactive, k.inactive);
  }

  /** When a process may be deregistered: it is active or has been deregistered
      before; or it has a neighbour on both sides of the inactive list, its creation
      has failed, and pid 0, which its record still carries, has been given out but
      belongs to nobody, or pids repeat anyway. */
  ghost predicate MayDeregister(s: Sched, l: Lists, created: nat, p: nat)
  {
    || s.Proc(p).flags.kill || p in l.active
    || (&& s.links.Next(p) != 0 && s.links.Prev(p) != 0 && !s.Proc(p).flags.create
        && (created > WORD || (created > 0 && forall q :: Assigned(s, l, q) ==> s.Proc(q).id != 0)))
  }

  /** A middle process asked to be created gets CREATE and KILL together. */
  lemma CreateAndKill(s: Sched, l: Lists, p: nat, k: Lists)
    requires Well(s, l) && p in l.inactive && s.Proc(p).flags.create && !s.Proc(p).flags.kill
    ensures !(Well(Deregister(s, p), k) && StatesOk(Deregister(s, p), k))
  {
    var t := Deregister(s, p);
    if Well(t, k) && StatesOk(t, k) {
      assert p != 0 by { LinkedIs(s.links, s.inactive, l.inactive); }
      assert t.Proc(p).flags.kill && t.Proc(p).flags.create && p in t.procs;
      NotBoth(t, k, p);
    }
  }

  lemma NotBoth(t: Sched, k: Lists, p: nat)
    requires Well(t, k) && StatesOk(t, k) && p in t.procs
    ensures !(t.Proc(p).flags.kill && t.Proc(p).flags.create)
  {
    if p in k.active { assert ActiveOk(t, p); } else { assert InactiveOk(t, p); }
  }

  /** A middle process whose creation failed keeps flags and quantum in order. */
  lemma FailedStates(s: Sched, l: Lists, p: nat)
    requires Well(s, l) && StatesOk(s, l) && p in l.inactive && !s.Proc(p).flags.kill && !s.Proc(p).flags.create
    requires s.links.Next(p) != 0 && s.links.Prev(p) != 0
    ensures StatesOk(Deregister(s, p), l.(inactive := Without(l.inactive, p) + [p]))
  {
    var t, m := Deregister(s, p), l.(inactive := Without(l.inactive, p) + [p]);
    LinkedIs(s.links, s.inactive, l.inactive);
    WithoutMembers(l.inactive, p);
    forall q | q in m.active ensures ActiveOk(t, q) { assert ActiveOk(s, q); }
    forall q | q in m.inactive ensures InactiveOk(t, q) { assert InactiveOk(s, q); }
  }

  /** Its pid 0 now counts as assigned. */
  lemma FailedAssigned(s: Sched, l: Lists, p: nat, q: nat)
    requires Well(s, l) && StatesOk(s, l) && p in l.inactive && !s.Proc(p).flags.kill
    ensures var t, m := Deregister(s, p), l.(inactive := Without(l.inactive, p) + [p]);
      && (Assigned(t, m, q) <==> q == p || Assigned(s, l, q))
      && t.Proc(q).id == s.Proc(q).id && t.count == s.count
      && s.Proc(p).id == 0 && !Assigned(s, l, p)
  {
    LinkedIs(s.links, s.inactive, l.inactive);
    WithoutMembers(l.inactive, p);
    assert InactiveOk(s, p);
  }

  lemma FailedPidsIff(s: Sched, l: Lists, created: nat, p: nat)
    requires Inv(s, l, created) && p in l.inactive && !s.Proc(p).flags.kill
    ensures PidsOk(Deregister(s, p), l.(inactive := Without(l.inactive, p) + [p]), created) <==>
      created > WORD || (created > 0 && forall q :: Assigned(s, l, q) ==> s.Proc(q).id != 0)
  {
    var t, m := Deregister(s, p), l.(inactive := Without(l.inactive, p) + [p]);
    forall q
      ensures Assigned(t, m, q) <==> q == p || Assigned(s, l, q)
      ensures t.Proc(q).id == s.Proc(q).id && t.count == s.count && s.Proc(p).id == 0 && !Assigned(s, l, p)
    {
      FailedAssigned(s, l, p, q);
    }
    if created <= WORD && PidsOk(t, m, created) {
      assert Assigned(t, m, p);
      forall q | Assigned(s, l, q) ensures s.Proc(q).id != 0 { assert Assigned(t, m, q); }
    }
  }

  /** `proc_deregister` of a live process keeps the invariant of all runs if and only
      if the process may be deregistered. */
  lemma DeregisterInvIff(s: Sched, l: Lists, created: nat, p: nat)
    requires Inv(s, l, created) && p in s.procs
    ensures (exists k :: Inv(Deregister(s, p), k, created)) <==> MayDeregister(s, l, created, p)
  {
    var t, m := Deregister(s, p), l.(inactive := Without(l.inactive, p) + [p]);
    if s.Proc(p).flags.kill {
      assert Inv(t, l, created);
    } else if p in l.active {
      StepInv(s, l, Leave(p), created);
      assert Inv(t, Moved(s, l, Leave(p)), created);
    } else if s.links.Next(p) == 0 || s.links.Prev(p) == 0 {
      DeregisterIff(s, l, p);
    } else if s.Proc(p).flags.create {
      forall k ensures !Inv(t, k, created) { CreateAndKill(s, l, p, k); }
    } else {
      DeregisterMiddle(s, l, p);
      FailedStates(s, l, p);
      FailedPidsIff(s, l, created, p);
      assert Inv(t, m, created) <==> PidsOk(t, m, created);
      forall k | Inv(t, k, created) ensures Inv(t, m, created) { WellUnique(t, k, m); }
    }
  }

  // ---- a process that can never be unloaded ----

  /** Deregistering a process that still waits for its creation: the service loop
      then makes it active with KILL set. */
  lemma ActiveWithKill(s: Sched, l: Lists, p: nat, stack: nat) returns (m: Lists)
    requires Well(s, l) && p in l.inactive && s.Proc(p).flags.create && !s.Proc(p).flags.kill
    requires s.links.Next(p) != 0 && s.links.Prev(p) != 0 && (s.Proc(p).flags.stack ==> stack != 0)
    ensures var u := Service(Deregister(s, p), p, stack);
      Well(u, m) && p in m.active && u.Proc(p).flags.kill
  {
    DeregisterMiddle(s, l, p);
    assert p != 0 by { LinkedIs(s.links, s.inactive, l.inactive); }
    var t, k := Deregister(s, p), l.(inactive := Without(l.inactive, p) + [p]);
    StepWell(t, k, Serve(p, stack));
    m := Moved(t, k, Serve(p, stack));
  }

  lemma KillStays(s: Sched, l: Lists, e: Event, p: nat)
    requires Well(s, l) && Legal(s, l, e) && p in l.active && s.Proc(p).flags.kill
    ensures p in Moved(s, l, e).active && Step(s, e).Proc(p).flags.kill
  {
    LinkedIs(s.links, s.active, l.active);
    if Unloads(s, e) { WithoutMembers(l.active, e.p); }
    if e.Timer? { TickProc(s, p); }
  }

  /** An active process with KILL set stays active in every run: `proc_deregister`
      returns early for ever. */
  lemma {:induction false} NeverUnloaded(s: Sched, l: Lists, es: seq<Event>, p: nat)
    requires Well(s, l) && LegalRun(s, l, es) && p in l.active && s.Proc(p).flags.kill
    ensures p in RunLists(s, l, es).active && Deregister(Run(s, es), p) == Run(s, es)
    decreases |es|
  {
    if |es| > 0 {
      StepWell(s, l, es[0]);
      KillStays(s, l, es[0], p);
      NeverUnloaded(Step(s, es[0]), Moved(s, l, es[0]), es[1..], p);
    }
  }
}

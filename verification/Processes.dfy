/** The two process lists of the scheduler (scheduler.c), the life cycle of a
    process between them, and the timer tick. Each operation is a function on
    the scheduler's fields; the invariants say what the fields represent. */
module Processes {
  import opened Words
  import opened Links

  /** The flag bits that steer the life cycle: CREATE, KILL and ERROR are the
      service bits, the others come from the caller. */
  datatype Flags = Flags(kernel: bool, stack: bool, create: bool, kill: bool, error: bool)

  datatype Process = Process(flags: Flags, id: nat, ticks: nat, stack: nat)

  /** `memset(proc, 0, sizeof(process_t))` */
  const BLANK := Process(Flags(false, false, false, false, false), 0, 0, 0)

  /** `scheduler_t` and the process records by address. The current pointer of
      the inactive list is always NULL. */
  datatype Sched = Sched(
    active: Ends, current: nat, count: nat, inactive: Ends, links: Fields, procs: map<nat, Process>)
  {
    function Proc(p: nat): Process { if p in procs then procs[p] else BLANK }
    function SetProc(p: nat, q: Process): Sched { this.(procs := procs[p := q]) }
  }

  const EMPTY := Sched(Ends(0, 0), 0, 0, Ends(0, 0), Fields(map[], map[]), map[])

  // ---- list edits ----

  function AppendActive(s: Sched, p: nat): Sched
  {
    var (f, e) := Append(s.links, s.active, p);
    s.(links := f, active := e)
  }

  function AppendInactive(s: Sched, p: nat): Sched
  {
    var (f, e) := Append(s.links, s.inactive, p);
    s.(links := f, inactive := e)
  }

  /** Removing the current process leaves no current process. */
  function RemoveActive(s: Sched, p: nat): Sched
  {
    var (f, e) := Remove(s.links, s.active, p);
    s.(links := f, active := e, current := if s.current == p then 0 else s.current)
  }

  function RemoveInactive(s: Sched, p: nat): Sched
  {
    var (f, e) := Remove(s.links, s.inactive, p);
    s.(links := f, inactive := e)
  }

  // ---- operations ----

  /** `proc_register`; `p` is the address `process_create` got, 0 when it failed. */
  function Register(s: Sched, p: nat, flags: Flags): Sched
  {
    if p == 0 then s else
    AppendInactive(s.SetProc(p, BLANK.(flags := flags.(create := true))), p)
  }

  predicate CreateFails(s: Sched, p: nat, stack: nat)
  {
    s.Proc(p).flags.stack && stack == 0
  }

  /** The record of a process once created. */
  function Started(q: Process, id: nat, stack: nat): Process
  {
    q.(flags := q.flags.(create := false), id := id, stack := if q.flags.stack then stack else 0)
  }

  /** `create_proc`; `stack` is what `kmalloc` returned for the stack. A failure
      has already cleared CREATE and leaves the process in the inactive list. */
  function Create(s: Sched, p: nat, stack: nat): Sched
  {
    if CreateFails(s, p, stack) then
      s.SetProc(p, s.Proc(p).(flags := s.Proc(p).flags.(create := false), stack := 0))
    else
      var t := s.SetProc(p, Started(s.Proc(p), s.count, stack)).(count := (s.count + 1) % WORD);
      AppendActive(RemoveInactive(t, p), p)
  }

  /** `destroy_proc` */
  function Destroy(s: Sched, p: nat): Sched
  {
    var t := RemoveInactive(s, p);
    t.(procs := t.procs - {p})
  }

  /** One turn of the loop of `scheduler_proc` on an inactive process. */
  function Service(s: Sched, p: nat, stack: nat): Sched
  {
    var flags := s.Proc(p).flags;
    if flags.create then Create(s, p, stack)
    else if flags.kill || flags.error then Destroy(s, p)
    else s
  }

  /** `proc_deregister` */
  function Deregister(s: Sched, p: nat): Sched
  {
    if p == 0 || s.Proc(p).flags.kill then s else
    var t := AppendInactive(RemoveActive(s, p), p);
    t.SetProc(p, t.Proc(p).(flags := t.Proc(p).flags.(kill := true)))
  }

  /** `process_update`: a quantum is two ticks. */
  function Update(q: Process): (Process, bool)
  {
    if q.ticks + 1 < 2 then (q.(ticks := q.ticks + 1), false) else (q.(ticks := 0), true)
  }

  /** What `scheduler_switch` returns: whether to switch, from whom and to whom. */
  datatype Verdict = Stay | Switch(current: nat, next: nat)

  /** The head stands in for a missing current process. */
  function Adopt(s: Sched): nat
  {
    if s.current == 0 then s.active.head else s.current
  }

  function Successor(s: Sched, p: nat): nat
  {
    if s.links.Next(p) != 0 then s.links.Next(p) else s.active.head
  }

  /** `scheduler_switch` */
  function Tick(s: Sched): (Sched, Verdict)
  {
    var p := Adopt(s);
    if p == 0 then (s, Stay) else
    var (q, expired) := Update(s.Proc(p));
    var t := s.SetProc(p, q).(current := p);
    if !expired then (t, Stay) else
    var next := Successor(t, p);
    (t.(current := next), if next != p then Switch(p, next) else Stay)
  }

  // ---- what the fields represent ----

  datatype Lists = Lists(active: seq<nat>, inactive: seq<nat>)

  ghost predicate Apart(l: Lists)
  {
    forall p :: p in l.active ==> p !in l.inactive
  }

  /** A process record exists exactly for the members of the lists: nothing
      destroyed is reachable and nothing live is lost. */
  ghost predicate Members(s: Sched, l: Lists)
  {
    forall p :: p in s.procs <==> p in l.active || p in l.inactive
  }

  /** Two well-formed lists without a common process, the current one active. */
  ghost predicate Well(s: Sched, l: Lists)
  {
    && Linked(s.links, s.active, l.active) && Linked(s.links, s.inactive, l.inactive)
    && Apart(l) && Members(s, l)
    && (s.current != 0 ==> s.current in l.active)
  }

  function Without(s: seq<nat>, p: nat): (r: seq<nat>)
  {
    if s == [] then [] else if s[0] == p then s[1..] else [s[0]] + Without(s[1..], p)
  }

  lemma {:induction false} WithoutIs(s: seq<nat>, p: nat, i: nat)
    requires Distinct(s) && i < |s| && s[i] == p
    ensures Without(s, p) == s[..i] + s[i + 1..]
  {
    if i > 0 {
      assert s[0] != p;
      WithoutIs(s[1..], p, i - 1);
      assert s[1..][..i - 1] == s[1..i] && s[1..][i..] == s[i + 1..];
    }
  }

  lemma {:induction false} WithoutMembers(s: seq<nat>, p: nat)
    requires Distinct(s)
    ensures forall q :: q in Without(s, p) <==> q in s && q != p
  {
    if s != [] && s[0] != p { WithoutMembers(s[1..], p); }
    if s != [] && s[0] == p { assert s == [p] + s[1..]; }
  }

  // ---- every operation keeps the lists ----

  /** Append to one list: the other, whose nodes it does not touch, stays. */
  lemma AppendKeeps(f: Fields, e: Ends, s: seq<nat>, p: nat, e': Ends, t: seq<nat>)
    requires Linked(f, e, s) && Linked(f, e', t) && p != 0 && p !in s && p !in t
    requires forall q :: q in t ==> q !in s
    ensures Linked(Append(f, e, p).0, Append(f, e, p).1, s + [p])
    ensures Linked(Append(f, e, p).0, e', t)
  {
    AppendLinked(f, e, s, p);
    AppendFrame(f, e, s, p, t);
    LinkedFrame(f, Append(f, e, p).0, e', t);
  }

  lemma RemoveKeeps(f: Fields, e: Ends, s: seq<nat>, p: nat, e': Ends, t: seq<nat>)
    requires Linked(f, e, s) && Linked(f, e', t) && p in s
    requires forall q :: q in t ==> q !in s
    ensures Linked(Remove(f, e, p).0, Remove(f, e, p).1, Without(s, p))
    ensures Linked(Remove(f, e, p).0, e', t)
    ensures forall q :: q in Without(s, p) <==> q in s && q != p
    ensures p != 0
  {
    var i :| 0 <= i < |s| && s[i] == p;
    LinkedIs(f, e, s);
    WithoutIs(s, p, i);
    WithoutMembers(s, p);
    RemoveLinked(f, e, s, i);
    RemoveFrame(f, e, s, i, t);
    LinkedFrame(f, Remove(f, e, p).0, e', t);
  }

  lemma RegisterWell(s: Sched, l: Lists, p: nat, flags: Flags)
    requires Well(s, l) && p != 0 && p !in s.procs
    ensures Well(Register(s, p, flags), l.(inactive := l.inactive + [p]))
  {
    AppendKeeps(s.links, s.inactive, l.inactive, p, s.active, l.active);
  }

  lemma CreateWell(s: Sched, l: Lists, p: nat, stack: nat)
    requires Well(s, l) && p in l.inactive
    ensures Well(Create(s, p, stack),
      if CreateFails(s, p, stack) then l else Lists(l.active + [p], Without(l.inactive, p)))
  {
    if !CreateFails(s, p, stack) {
      RemoveKeeps(s.links, s.inactive, l.inactive, p, s.active, l.active);
      var (f, e) := Remove(s.links, s.inactive, p);
      AppendKeeps(f, s.active, l.active, p, e, Without(l.inactive, p));
    }
  }

  lemma DestroyWell(s: Sched, l: Lists, p: nat)
    requires Well(s, l) && p in l.inactive
    ensures Well(Destroy(s, p), l.(inactive := Without(l.inactive, p)))
  {
    RemoveKeeps(s.links, s.inactive, l.inactive, p, s.active, l.active);
  }

  lemma DeregisterWell(s: Sched, l: Lists, p: nat)
    requires Well(s, l) && p in l.active && !s.Proc(p).flags.kill
    ensures Well(Deregister(s, p), Lists(Without(l.active, p), l.inactive + [p]))
  {
    RemoveKeeps(s.links, s.active, l.active, p, s.inactive, l.inactive);
    var (f, e) := Remove(s.links, s.active, p);
    AppendKeeps(f, s.inactive, l.inactive, p, e, Without(l.active, p));
  }

  lemma SuccessorActive(s: Sched, l: Lists)
    requires Well(s, l) && Adopt(s) != 0
    ensures Adopt(s) in l.active && Successor(s, Adopt(s)) in l.active
  {
    LinkedIs(s.links, s.active, l.active);
    var p := Adopt(s);
    assert p in l.active;
    var i :| 0 <= i < |l.active| && l.active[i] == p;
    assert s.links.Next(p) == After(l.active, i);
  }

  lemma TickWell(s: Sched, l: Lists)
    requires Well(s, l)
    ensures Well(Tick(s).0, l)
  {
    if Adopt(s) != 0 { SuccessorActive(s, l); }
  }
}

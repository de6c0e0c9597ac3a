/** Context switching: what the timer interrupt does to the CPU and to the saved
    contexts, and that kernel processes resume where they were interrupted. */
module Switching {
  import opened Links
  import opened Processes
  import opened ProcessRuns

  /** The register state of a process running in kernel mode. */
  datatype Cpu = Cpu(
    eax: nat, ecx: nat, edx: nat, ebx: nat, esp: nat, ebp: nat, esi: nat, edi: nat,
    eip: nat, eflags: nat, cs: nat, ss: nat, ds: nat, es: nat, fs: nat, gs: nat, cr3: nat)

  /** `context_t` followed by `interrupt_frame_t` */
  datatype Context = Context(
    cr3: nat, gs: nat, fs: nat, ds: nat, ss: nat, es: nat,
    edi: nat, esi: nat, ebp: nat, esp: nat, ebx: nat, edx: nat, ecx: nat, eax: nat,
    eip: nat, cs: nat, eflags: nat)

  function ContextOf(c: Cpu): Context
  {
    Context(c.cr3, c.gs, c.fs, c.ds, c.ss, c.es, c.edi, c.esi, c.ebp, c.esp, c.ebx, c.edx, c.ecx, c.eax,
            c.eip, c.cs, c.eflags)
  }

  function Restore(k: Context): Cpu
  {
    Cpu(k.eax, k.ecx, k.edx, k.ebx, k.esp, k.ebp, k.esi, k.edi,
        k.eip, k.eflags, k.cs, k.ss, k.ds, k.es, k.fs, k.gs, k.cr3)
  }

  /** Room below the stack pointer for the interrupt frame and the handler. */
  const ROOM: nat := 64

  predicate KernelCpu(c: Cpu)
  {
    c.cs % 4 == 0 && c.esp >= ROOM
  }

  const DEFAULT_STACK: nat := 0x10_0000

  /** What the link step and the machine provide: selectors of the kernel, the
      address of the start-up trampoline. */
  datatype Kernel = Kernel(kcode: nat, kdata: nat, kstack: nat, startup: nat)

  /** The context `create_proc` builds for a kernel process with a stack: the
      argument and a zero return address lie on top of it. */
  function FreshContext(k: Kernel, stack: nat, cr3: nat): Context
  {
    var top := stack + DEFAULT_STACK - 8;
    Context(cr3, k.kdata, k.kdata, k.kdata, k.kstack, k.kdata, 0, 0, top, top, 0, 0, 0, 0, k.startup, k.kcode, 0x202)
  }

  datatype System = System(sched: Sched, contexts: map<nat, Context>, cpu: Cpu)

  /** The timer interrupt: save into the old process, load from the new one. */
  function TimerInterrupt(s: System): System
  {
    match Tick(s.sched)
    case (t, Stay) => s.(sched := t)
    case (t, Switch(current, next)) =>
      var contexts := s.contexts[current := ContextOf(s.cpu)];
      System(t, contexts, if next in contexts then Restore(contexts[next]) else s.cpu)
  }

  datatype SysEvent =
    | Life(event: Event, cr3: nat)
    | Compute(cpu: Cpu)
    | Interrupt

  function SysStep(k: Kernel, s: System, e: SysEvent): System
  {
    match e
    case Life(event, cr3) =>
      var contexts :=
        if Creates(s.sched, event) then s.contexts[event.p := FreshContext(k, event.stack, cr3)] else s.contexts;
      s.(sched := Step(s.sched, event), contexts := contexts)
    case Compute(cpu) => s.(cpu := cpu)
    case Interrupt => TimerInterrupt(s)
  }

  function SysMoved(s: System, l: Lists, e: SysEvent): Lists
  {
    if e.Life? then Moved(s.sched, l, e.event) else l
  }

  /** Life cycle events among kernel processes with stacks; computation in kernel
      mode with room on the stack; the current process is not unloaded. */
  ghost predicate SysLegal(s: System, l: Lists, e: SysEvent)
  {
    match e
    case Life(event, cr3) =>
      && Legal(s.sched, l, event) && !event.Timer?
      && (event.Arrive? ==> event.flags.kernel && event.flags.stack)
      && (Unloads(s.sched, event) ==> event.p != s.sched.current)
    case Compute(cpu) => KernelCpu(cpu)
    case Interrupt => true
  }

  // ---- the CPU state each process was interrupted with ----

  function SavedStep(saved: map<nat, Cpu>, s: System, e: SysEvent): map<nat, Cpu>
  {
    match e
    case Life(event, cr3) => if Creates(s.sched, event) then saved - {event.p} else saved
    case Compute(cpu) => saved
    case Interrupt => if s.sched.current != 0 then saved[s.sched.current := s.cpu] else saved
  }

  /** A process that waits: a kernel context, and if it has been interrupted before,
      the one it was interrupted with. */
  ghost predicate Parked(s: System, saved: map<nat, Cpu>, p: nat)
  {
    && p in s.contexts && KernelCpu(Restore(s.contexts[p]))
    && (p in saved ==> s.contexts[p] == ContextOf(saved[p]))
  }

  ghost predicate Stacked(s: Sched, l: Lists)
  {
    forall p :: p in l.inactive && s.Proc(p).flags.create ==> s.Proc(p).flags.stack
  }

  ghost predicate Faithful(s: System, l: Lists, saved: map<nat, Cpu>)
  {
    && Well(s.sched, l) && StatesOk(s.sched, l) && Stacked(s.sched, l)
    && s.sched.current != 0 && s.sched.current in s.contexts && KernelCpu(s.cpu)
    && (forall p :: p in l.active && p != s.sched.current ==> Parked(s, saved, p))
  }

  lemma TickCases(s: Sched, l: Lists)
    requires Well(s, l) && s.current != 0
    ensures Tick(s).0.current in l.active && Tick(s).0.current != 0
    ensures match Tick(s).1
      case Stay => Tick(s).0.current == s.current
      case Switch(c, n) => c == s.current && n == Tick(s).0.current && n != c
  {
    LinkedIs(s.links, s.active, l.active);
    SuccessorActive(s, l);
  }

  /** The interrupt resumes the new current process exactly as it was interrupted. */
  lemma InterruptResumes(s: System, l: Lists, saved: map<nat, Cpu>)
    requires Faithful(s, l, saved)
    ensures var t, now := TimerInterrupt(s), SavedStep(saved, s, Interrupt);
      t.sched.current in now ==> t.cpu == now[t.sched.current]
  {
    TickCases(s.sched, l);
    var n := Tick(s.sched).0.current;
    if n != s.sched.current { assert Parked(s, saved, n); }
  }

  lemma InterruptFaithful(s: System, l: Lists, saved: map<nat, Cpu>)
    requires Faithful(s, l, saved)
    ensures Faithful(TimerInterrupt(s), l, SavedStep(saved, s, Interrupt))
  {
    var t, now := TimerInterrupt(s), SavedStep(saved, s, Interrupt);
    TickCases(s.sched, l);
    StepWell(s.sched, l, Timer);
    StepStates(s.sched, l, Timer);
    StackedTick(s.sched, l);
    assert t.sched == Tick(s.sched).0;
    assert t.sched.current != s.sched.current ==> Parked(s, saved, t.sched.current);
    forall p | p in l.active && p != t.sched.current ensures Parked(t, now, p) {
      if p != s.sched.current { assert Parked(s, saved, p); }
    }
  }

  lemma StackedTick(s: Sched, l: Lists)
    requires Well(s, l) && Stacked(s, l)
    ensures Stacked(Tick(s).0, l)
  {
    LinkedIs(s.links, s.active, l.active);
    LinkedIs(s.links, s.inactive, l.inactive);
    forall p | p in l.inactive ensures Tick(s).0.Proc(p) == s.Proc(p) { TickProc(s, p); }
  }

  lemma LifeFaithful(k: Kernel, s: System, l: Lists, saved: map<nat, Cpu>, e: SysEvent)
    requires Faithful(s, l, saved) && SysLegal(s, l, e) && e.Life? && k.kcode % 4 == 0
    ensures Faithful(SysStep(k, s, e), SysMoved(s, l, e), SavedStep(saved, s, e))
  {
    var t, m, now := SysStep(k, s, e), SysMoved(s, l, e), SavedStep(saved, s, e);
    var event := e.event;
    StepWell(s.sched, l, event);
    StepStates(s.sched, l, event);
    MovedMembers(s.sched, l, event);
    assert t.sched.current == s.sched.current;
    forall p | p in m.inactive && t.sched.Proc(p).flags.create ensures t.sched.Proc(p).flags.stack {
      if p != event.p { assert p in l.inactive; }
    }
    forall p | p in m.active && p != t.sched.current ensures Parked(t, now, p) {
      if Creates(s.sched, event) && p == event.p {
        assert event.stack > 0;
      } else {
        assert Parked(s, saved, p);
      }
    }
  }

  lemma SysStepFaithful(k: Kernel, s: System, l: Lists, saved: map<nat, Cpu>, e: SysEvent)
    requires Faithful(s, l, saved) && SysLegal(s, l, e) && k.kcode % 4 == 0
    ensures Faithful(SysStep(k, s, e), SysMoved(s, l, e), SavedStep(saved, s, e))
  {
    match e
    case Life(event, cr3) => LifeFaithful(k, s, l, saved, e);
    case Compute(cpu) =>
      forall p | p in l.active && p != s.sched.current ensures Parked(SysStep(k, s, e), saved, p) {
        assert Parked(s, saved, p);
      }
    case Interrupt => InterruptFaithful(s, l, saved);
  }

  // ---- runs ----

  function SysRun(k: Kernel, s: System, es: seq<SysEvent>): System
    decreases |es|
  {
    if |es| == 0 then s else SysRun(k, SysStep(k, s, es[0]), es[1..])
  }

  ghost predicate SysLegalRun(k: Kernel, s: System, l: Lists, es: seq<SysEvent>)
    decreases |es|
  {
    |es| == 0 || (SysLegal(s, l, es[0]) && SysLegalRun(k, SysStep(k, s, es[0]), SysMoved(s, l, es[0]), es[1..]))
  }

  function SavedRun(k: Kernel, saved: map<nat, Cpu>, s: System, es: seq<SysEvent>): map<nat, Cpu>
    decreases |es|
  {
    if |es| == 0 then saved else SavedRun(k, SavedStep(saved, s, es[0]), SysStep(k, s, es[0]), es[1..])
  }

  /** In every reachable state each waiting process holds the context it was
      interrupted with. */
  lemma {:induction false} RunFaithful(k: Kernel, s: System, l: Lists, saved: map<nat, Cpu>, es: seq<SysEvent>)
      returns (l': Lists)
    requires Faithful(s, l, saved) && SysLegalRun(k, s, l, es) && k.kcode % 4 == 0
    ensures Faithful(SysRun(k, s, es), l', SavedRun(k, saved, s, es))
    decreases |es|
  {
    l' := l;
    if |es| > 0 {
      SysStepFaithful(k, s, l, saved, es[0]);
      l' := RunFaithful(k, SysStep(k, s, es[0]), SysMoved(s, l, es[0]), SavedStep(saved, s, es[0]), es[1..]);
    }
  }

  /** The kernel init process runs on the boot stack and gets none of its own. */
  function StartContexts(k: Kernel, kinit: nat, idle: nat, sched: nat, idleStack: nat, schedStack: nat,
      cr3: nat): map<nat, Context>
  {
    map[kinit := FreshContext(k, 0, cr3).(esp := 0, ebp := 0)]
      [idle := FreshContext(k, idleStack, cr3)][sched := FreshContext(k, schedStack, cr3)]
  }

  /** After `scheduler_init` the running code is the kernel init process and the
      other two wait with fresh contexts. */
  lemma StartFaithful(k: Kernel, kinit: nat, idle: nat, sched: nat, idleStack: nat, schedStack: nat, cr3: nat, cpu: Cpu)
      returns (l: Lists)
    requires kinit != 0 && idle != 0 && sched != 0 && kinit != idle && kinit != sched && idle != sched
    requires k.kcode % 4 == 0 && KernelCpu(cpu)
    ensures var contexts := StartContexts(k, kinit, idle, sched, idleStack, schedStack, cr3);
      Faithful(System(Init(kinit, idle, sched, idleStack, schedStack), contexts, cpu), l, map[])
  {
    var created: nat;
    l, created := InitInv(kinit, idle, sched, idleStack, schedStack);
    var contexts := StartContexts(k, kinit, idle, sched, idleStack, schedStack, cr3);
    var s := System(Init(kinit, idle, sched, idleStack, schedStack), contexts, cpu);
    StartWell(s, l, created, kinit, idle, sched);
  }

  lemma StartWell(s: System, l: Lists, created: nat, kinit: nat, idle: nat, sched: nat)
    requires Inv(s.sched, l, created) && NoneRequested(s.sched)
    requires s.sched.current == kinit != 0 && forall p :: p in s.sched.procs ==> p in {kinit, idle, sched}
    requires KernelCpu(s.cpu) && kinit in s.contexts
    requires forall p :: p in {idle, sched} ==> p in s.contexts && KernelCpu(Restore(s.contexts[p]))
    ensures Faithful(s, l, map[])
  {
    forall p | p in l.active && p != s.sched.current ensures Parked(s, map[], p) {
      assert p in s.sched.procs;
    }
  }

  /** `p` stays active and is not current in any state of the run. */
  ghost predicate Away(k: Kernel, s: System, es: seq<SysEvent>, p: nat)
    decreases |es|
  {
    && s.sched.current != p
    && (|es| > 0 ==>
        && !(es[0].Life? && Unloads(s.sched, es[0].event) && es[0].event.p == p)
        && Away(k, SysStep(k, s, es[0]), es[1..], p))
  }

  lemma {:induction false} AwayRun(k: Kernel, s: System, l: Lists, saved: map<nat, Cpu>, es: seq<SysEvent>, p: nat)
      returns (l': Lists, saved': map<nat, Cpu>)
    requires Faithful(s, l, saved) && SysLegalRun(k, s, l, es) && k.kcode % 4 == 0
    requires Away(k, s, es, p) && p in l.active && p in saved
    ensures Faithful(SysRun(k, s, es), l', saved') && p in l'.active && SysRun(k, s, es).sched.current != p
    ensures p in saved' && saved'[p] == saved[p]
    decreases |es|
  {
    if |es| == 0 {
      l', saved' := l, saved;
    } else {
      var e := es[0];
      SysStepFaithful(k, s, l, saved, e);
      if e.Life? { StaysActive(s.sched, l, e.event, p); }
      l', saved' := AwayRun(k, SysStep(k, s, e), SysMoved(s, l, e), SavedStep(saved, s, e), es[1..], p);
    }
  }

  lemma StaysActive(s: Sched, l: Lists, e: Event, p: nat)
    requires Well(s, l) && Legal(s, l, e) && p in l.active && !(Unloads(s, e) && e.p == p)
    ensures p in Moved(s, l, e).active && !(Creates(s, e) && e.p == p)
  {
    LinkedIs(s.links, s.active, l.active);
    if Unloads(s, e) { WithoutMembers(l.active, e.p); }
  }

  /** A kernel process that is interrupted resumes with exactly the registers,
      segments, stack pointer, cr3 and flags it had, whatever the others compute
      and however processes come and go meanwhile. */
  lemma Resumes(k: Kernel, s: System, l: Lists, saved: map<nat, Cpu>, es: seq<SysEvent>, p: nat)
    requires Faithful(s, l, saved) && k.kcode % 4 == 0 && s.sched.current == p
    requires var t := TimerInterrupt(s);
      && SysLegalRun(k, t, l, es)
      && (t.sched.current != p ==> Away(k, t, es, p))
      && (t.sched.current == p ==> es == [])
    ensures var t := SysRun(k, TimerInterrupt(s), es);
      if TimerInterrupt(s).sched.current == p then TimerInterrupt(s).cpu == s.cpu
      else TimerInterrupt(t).sched.current == p ==> TimerInterrupt(t).cpu == s.cpu
  {
    var t := TimerInterrupt(s);
    InterruptFaithful(s, l, saved);
    InterruptResumes(s, l, saved);
    if t.sched.current != p {
      var l', saved' := AwayRun(k, t, l, SavedStep(saved, s, Interrupt), es, p);
      InterruptResumes(SysRun(k, t, es), l', saved');
    }
  }

  // ---- the first run of a process ----

  /** A process on its way to its first instruction: in the start-up code, on top of
      its own stack, with interrupts enabled and the kernel's segments. */
  predicate Launched(k: Kernel, c: Cpu, stack: nat, cr3: nat)
  {
    && c.eip == k.startup && c.cs == k.kcode && c.eflags == 0x202
    && c.esp == stack + 0x10_0000 - 8 && c.ebp == c.esp && c.ss == k.kstack && c.cr3 == cr3
    && c.ds == k.kdata && c.es == k.kdata && c.fs == k.kdata && c.gs == k.kdata
    && c.eax == 0 && c.ebx == 0 && c.ecx == 0 && c.edx == 0 && c.esi == 0 && c.edi == 0
  }

  /** While `p` is active and not current nothing writes its context. */
  lemma {:induction false} AwayContext(k: Kernel, s: System, l: Lists, saved: map<nat, Cpu>, es: seq<SysEvent>, p: nat)
    requires Faithful(s, l, saved) && SysLegalRun(k, s, l, es) && k.kcode % 4 == 0
    requires Away(k, s, es, p) && p in l.active && p in s.contexts
    ensures var t := SysRun(k, s, es);
      && p in t.contexts && t.contexts[p] == s.contexts[p] && t.sched.current != p
      && exists l', saved' :: Faithful(t, l', saved')
    decreases |es|
  {
    if |es| > 0 {
      var e := es[0];
      SysStepFaithful(k, s, l, saved, e);
      StepContext(k, s, l, saved, e, p);
      AwayContext(k, SysStep(k, s, e), SysMoved(s, l, e), SavedStep(saved, s, e), es[1..], p);
    }
  }

  lemma StepContext(k: Kernel, s: System, l: Lists, saved: map<nat, Cpu>, e: SysEvent, p: nat)
    requires Faithful(s, l, saved) && SysLegal(s, l, e) && p in l.active && p in s.contexts && s.sched.current != p
    requires !(e.Life? && Unloads(s.sched, e.event) && e.event.p == p)
    ensures var t := SysStep(k, s, e);
      p in t.contexts && t.contexts[p] == s.contexts[p] && p in SysMoved(s, l, e).active
  {
    if e.Life? { StaysActive(s.sched, l, e.event, p); }
    if e.Interrupt? { TickCases(s.sched, l); }
  }

  /** A process created by the service loop begins, when it is first switched to, at
      the start-up code on the top of its own stack, whatever happens before. */
  lemma FirstRun(k: Kernel, s: System, l: Lists, saved: map<nat, Cpu>, p: nat, stack: nat, cr3: nat, es: seq<SysEvent>)
    requires Faithful(s, l, saved) && k.kcode % 4 == 0
    requires var e := Life(Serve(p, stack), cr3);
      && SysLegal(s, l, e) && Creates(s.sched, e.event)
      && SysLegalRun(k, SysStep(k, s, e), SysMoved(s, l, e), es) && Away(k, SysStep(k, s, e), es, p)
    ensures var t := TimerInterrupt(SysRun(k, SysStep(k, s, Life(Serve(p, stack), cr3)), es));
      t.sched.current == p ==> Launched(k, t.cpu, stack, cr3)
  {
    var e := Life(Serve(p, stack), cr3);
    var s1, l1 := SysStep(k, s, e), SysMoved(s, l, e);
    SysStepFaithful(k, s, l, saved, e);
    assert p in l1.active && s1.contexts[p] == FreshContext(k, stack, cr3);
    AwayContext(k, s1, l1, SavedStep(saved, s, e), es, p);
    var u := SysRun(k, s1, es);
    var l', saved' :| Faithful(u, l', saved');
    TickCases(u.sched, l');
  }

  // ---- unloading the current process ----

  /** With no current process, the next tick adopts the head of the list without
      switching and the one after it switches away from the head. */
  lemma AdoptHead(s: Sched, l: Lists)
    requires Well(s, l) && StatesOk(s, l) && s.current == 0 && |l.active| >= 2
    ensures Tick(s).1 == Stay
    ensures Tick(Tick(s).0).1 == Switch(l.active[0], l.active[1])
  {
    LinkedIs(s.links, s.active, l.active);
    var head := l.active[0];
    assert head in l.active && ActiveOk(s, head);
    assert s.links.Next(l.active[0]) == l.active[1] && l.active[1] != head;
  }

  lemma Unloaded(s: Sched, l: Lists)
    requires Well(s, l) && StatesOk(s, l) && s.current != 0
    ensures var t, m := Deregister(s, s.current), Moved(s, l, Leave(s.current));
      && m.active == Without(l.active, s.current) && |m.active| == |l.active| - 1
      && Well(t, m) && StatesOk(t, m) && t.current == 0
  {
    var p := s.current;
    assert ActiveOk(s, p);
    LinkedIs(s.links, s.active, l.active);
    var i :| 0 <= i < |l.active| && l.active[i] == p;
    WithoutIs(l.active, p, i);
    StepWell(s, l, Leave(p));
    StepStates(s, l, Leave(p));
  }

  /** The state after a process is unloaded, an interrupt, more computation up to
      `c` and a second interrupt. */
  function AfterUnload(k: Kernel, s: System, p: nat, cr3: nat, c: Cpu): System
  {
    TimerInterrupt(SysStep(k, TimerInterrupt(SysStep(k, s, Life(Leave(p), cr3))), Compute(c)))
  }

  /** What the two interrupts do once the current process is unloaded and two or
      more are left: the first adopts the head of the list without switching, the
      second saves the unloaded process into the head's context. */
  lemma UnloadSteps(k: Kernel, s: System, l: Lists, saved: map<nat, Cpu>, cr3: nat, c: Cpu)
    requires Faithful(s, l, saved) && |l.active| >= 3
    ensures var m := Moved(s.sched, l, Leave(s.sched.current));
      var t := AfterUnload(k, s, s.sched.current, cr3, c);
      && |m.active| >= 2 && m.active == Without(l.active, s.sched.current)
      && Well(t.sched, m) && StatesOk(t.sched, m)
      && t.sched == Tick(Tick(Deregister(s.sched, s.sched.current)).0).0
      && t.sched.current == m.active[1] != m.active[0]
      && t.contexts == s.contexts[m.active[0] := ContextOf(c)]
      && (m.active[1] in s.contexts ==> t.cpu == Restore(s.contexts[m.active[1]]))
  {
    Unloaded(s.sched, l);
    var u, m := Deregister(s.sched, s.sched.current), Moved(s.sched, l, Leave(s.sched.current));
    AdoptHead(u, m);
    StepWell(u, m, Timer);
    StepStates(u, m, Timer);
    StepWell(Tick(u).0, m, Timer);
    StepStates(Tick(u).0, m, Timer);
    SwitchTarget(Tick(u).0);
    LinkedIs(u.links, u.active, m.active);
  }

  lemma SwitchTarget(s: Sched)
    requires Tick(s).1.Switch?
    ensures Tick(s).0.current == Tick(s).1.next
  {
  }

  /** Who waits after the unload waited before it. */
  lemma StillParked(s: System, l: Lists, saved: map<nat, Cpu>, q: nat)
    requires Faithful(s, l, saved) && q in Without(l.active, s.sched.current)
    ensures q in l.active && q != s.sched.current && Parked(s, saved, q)
  {
    LinkedIs(s.sched.links, s.sched.active, l.active);
    WithoutMembers(l.active, s.sched.current);
  }

  /** Two or more processes left: after the second interrupt the system is in order
      again, except that the head of the list will resume as the unloaded process
      instead of where it was interrupted itself. */
  lemma UnloadMany(k: Kernel, s: System, l: Lists, saved: map<nat, Cpu>, cr3: nat, c: Cpu)
    requires Faithful(s, l, saved) && |l.active| >= 3 && KernelCpu(c)
    ensures var m := Moved(s.sched, l, Leave(s.sched.current));
      m.active != [] && Faithful(AfterUnload(k, s, s.sched.current, cr3, c), m, saved[m.active[0] := c])
  {
    UnloadSteps(k, s, l, saved, cr3, c);
    var m, t := Moved(s.sched, l, Leave(s.sched.current)), AfterUnload(k, s, s.sched.current, cr3, c);
    StillParked(s, l, saved, m.active[1]);
    UnloadStacked(s.sched, l);
    assert t.sched.current != 0 by { LinkedIs(t.sched.links, t.sched.active, m.active); }
    Inverse(c);
    forall q | q in m.active && q != t.sched.current ensures Parked(t, saved[m.active[0] := c], q) {
      if q != m.active[0] { StillParked(s, l, saved, q); }
    }
  }

  lemma UnloadStacked(s: Sched, l: Lists)
    requires Well(s, l) && StatesOk(s, l) && Stacked(s, l) && s.current != 0
    ensures var u, m := Deregister(s, s.current), Moved(s, l, Leave(s.current));
      Stacked(Tick(Tick(u).0).0, m)
  {
    Unloaded(s, l);
    var u, m := Deregister(s, s.current), Moved(s, l, Leave(s.current));
    assert ActiveOk(s, s.current);
    assert Stacked(u, m);
    StackedTick(u, m);
    StepWell(u, m, Timer);
    StackedTick(Tick(u).0, m);
  }

  /** One process left, or none: no later interrupt ever switches, so that process
      is current for ever while its context is never loaded and the unloaded one
      keeps the CPU. */
  lemma UnloadFew(k: Kernel, s: System, l: Lists, saved: map<nat, Cpu>, cr3: nat, es: seq<SysEvent>)
    requires Faithful(s, l, saved) && |l.active| <= 2 && Quiet(es)
    ensures var t := SysRun(k, SysStep(k, s, Life(Leave(s.sched.current), cr3)), es);
      && t.contexts == s.contexts && TimerInterrupt(t).cpu == t.cpu && TimerInterrupt(t).contexts == s.contexts
      && (|l.active| == 2 ==> TimerInterrupt(t).sched.current == Without(l.active, s.sched.current)[0])
  {
    Unloaded(s.sched, l);
    var m := Moved(s.sched, l, Leave(s.sched.current));
    var u := SysStep(k, s, Life(Leave(s.sched.current), cr3));
    QuietAlone(k, u, m, es);
    TickAlone(SysRun(k, u, es).sched, m);
  }

  /** Only computation and interrupts. */
  predicate Quiet(es: seq<SysEvent>)
  {
    forall i :: 0 <= i < |es| ==> !es[i].Life?
  }

  lemma TickAlone(s: Sched, l: Lists)
    requires Well(s, l) && |l.active| <= 1
    ensures Tick(s).1 == Stay && (|l.active| == 1 ==> Tick(s).0.current == l.active[0])
  {
    LinkedIs(s.links, s.active, l.active);
    if Adopt(s) != 0 { SuccessorActive(s, l); }
  }

  lemma {:induction false} QuietAlone(k: Kernel, s: System, l: Lists, es: seq<SysEvent>)
    requires Well(s.sched, l) && |l.active| <= 1 && Quiet(es)
    ensures var t := SysRun(k, s, es); Well(t.sched, l) && t.contexts == s.contexts
    decreases |es|
  {
    if |es| > 0 {
      TickAlone(s.sched, l);
      TickWell(s.sched, l);
      QuietAlone(k, SysStep(k, s, es[0]), l, es[1..]);
    }
  }

  // ---- exactly when unloading is safe ----

  /** Whose code the CPU executes after an interrupt: it changes only by a switch. */
  function OnCpu(s: System, r: nat): nat
  {
    match Tick(s.sched).1
    case Stay => r
    case Switch(_, next) => next
  }

  /** Every active process other than the one on the CPU, `r`, holds the context it
      was interrupted with. */
  ghost predicate Sound(s: System, l: Lists, saved: map<nat, Cpu>, r: nat)
  {
    forall q :: q in l.active && q != r && q in saved ==> q in s.contexts && s.contexts[q] == ContextOf(saved[q])
  }

  /** The same two interrupts with the process on the CPU followed: does everybody
      hold their own context afterwards? */
  ghost predicate SoundAfter(k: Kernel, s: System, l: Lists, saved: map<nat, Cpu>, p: nat, cr3: nat, c: Cpu)
  {
    var s1 := SysStep(k, s, Life(Leave(p), cr3));
    var r1 := OnCpu(s1, s.sched.current);
    var s2 := SysStep(k, TimerInterrupt(s1), Compute(c));
    Sound(TimerInterrupt(s2), Moved(s.sched, l, Leave(p)), saved[s.sched.current := s.cpu][r1 := c], OnCpu(s2, r1))
  }

  lemma FaithfulCpu(s: System, l: Lists, saved: map<nat, Cpu>)
    requires Faithful(s, l, saved)
    ensures OnCpu(s, s.sched.current) == TimerInterrupt(s).sched.current
    ensures Sound(s, l, saved, s.sched.current)
  {
    TickCases(s.sched, l);
    forall q | q in l.active && q != s.sched.current && q in saved
      ensures q in s.contexts && s.contexts[q] == ContextOf(saved[q])
    {
      assert Parked(s, saved, q);
    }
  }

  lemma UnloadOther(k: Kernel, s: System, l: Lists, saved: map<nat, Cpu>, p: nat, cr3: nat, c: Cpu)
    requires Faithful(s, l, saved) && p in l.active && p != s.sched.current && k.kcode % 4 == 0 && KernelCpu(c)
    ensures SoundAfter(k, s, l, saved, p, cr3, c)
  {
    var e, m := Life(Leave(p), cr3), Moved(s.sched, l, Leave(p));
    LifeFaithful(k, s, l, saved, e);
    var s1 := SysStep(k, s, e);
    assert s1.sched.current == s.sched.current && s1.cpu == s.cpu;
    var saved1 := SavedStep(saved, s1, Interrupt);
    InterruptFaithful(s1, m, saved);
    FaithfulCpu(s1, m, saved);
    var s2 := SysStep(k, TimerInterrupt(s1), Compute(c));
    SysStepFaithful(k, TimerInterrupt(s1), m, saved1, Compute(c));
    InterruptFaithful(s2, m, saved1);
    FaithfulCpu(s2, m, saved1);
    FaithfulCpu(TimerInterrupt(s2), m, SavedStep(saved1, s2, Interrupt));
  }

  lemma UnloadClobbers(k: Kernel, s: System, l: Lists, saved: map<nat, Cpu>, cr3: nat, c: Cpu)
    requires Faithful(s, l, saved) && |l.active| >= 3 && Without(l.active, s.sched.current) != []
    requires var head := Without(l.active, s.sched.current)[0]; head in saved && c != saved[head]
    ensures !SoundAfter(k, s, l, saved, s.sched.current, cr3, c)
  {
    var p := s.sched.current;
    UnloadSteps(k, s, l, saved, cr3, c);
    var m := Moved(s.sched, l, Leave(p));
    var head := m.active[0];
    StillParked(s, l, saved, head);
    Unloaded(s.sched, l);
    AdoptHead(Deregister(s.sched, p), m);
    Inverse(c);
    Inverse(saved[head]);
  }

  /** With two or more processes left and the head interrupted before, unloading `p`
      lets everybody resume, whatever runs until the second interrupt, if and only
      if `p` is not the current process. */
  lemma UnloadSafeIff(k: Kernel, s: System, l: Lists, saved: map<nat, Cpu>, p: nat, cr3: nat)
    requires Faithful(s, l, saved) && p in l.active && |l.active| >= 3 && k.kcode % 4 == 0
    requires Without(l.active, p) != [] && Without(l.active, p)[0] in saved
    ensures (forall c :: KernelCpu(c) ==> SoundAfter(k, s, l, saved, p, cr3, c)) <==> p != s.sched.current
  {
    if p != s.sched.current {
      forall c | KernelCpu(c) ensures SoundAfter(k, s, l, saved, p, cr3, c) {
        UnloadOther(k, s, l, saved, p, cr3, c);
      }
    } else {
      var d := saved[Without(l.active, p)[0]];
      StillParked(s, l, saved, Without(l.active, p)[0]);
      Inverse(d);
      var c := d.(eax := d.eax + 1);
      UnloadClobbers(k, s, l, saved, cr3, c);
    }
  }

  lemma Inverse(c: Cpu)
    ensures Restore(ContextOf(c)) == c
  {
  }
}

/** The context switch handler (cswitch.asm) instruction by instruction: the
    registers, the stack in memory and the process contexts. */
module Cswitch {
  import opened Switching
  import opened Processes
  import Scheduler

  /** The stack by dword address. */
  type Memory = map<nat, nat>

  function Word32(m: Memory, a: nat): nat
  {
    if a in m then m[a] else 0
  }

  /** Offsets of the saved registers from the frame pointer: `pusha` below the
      frame the interrupt pushed. */
  ghost predicate FrameAt(m: Memory, f: nat, c: Cpu)
  {
    && Word32(m, f) == c.edi && Word32(m, f + 4) == c.esi && Word32(m, f + 8) == c.ebp
    && Word32(m, f + 12) == c.esp - 12 && Word32(m, f + 16) == c.ebx && Word32(m, f + 20) == c.edx
    && Word32(m, f + 24) == c.ecx && Word32(m, f + 28) == c.eax
    && Word32(m, f + 32) == c.eip && Word32(m, f + 36) == c.cs && Word32(m, f + 40) == c.eflags
  }

  /** The stack from `base` up is the same. */
  ghost predicate Above(m: Memory, n: Memory, base: nat)
  {
    forall a :: a >= base ==> Word32(m, a) == Word32(n, a)
  }

  lemma AboveTrans(m: Memory, n: Memory, o: Memory, low: nat, base: nat)
    requires low <= base && Above(m, n, low) && Above(n, o, base)
    ensures Above(m, o, base)
  {
  }

  lemma FrameKept(m: Memory, n: Memory, f: nat, c: Cpu)
    requires FrameAt(m, f, c) && Above(m, n, f)
    ensures FrameAt(n, f, c)
  {
  }

  /** What a called function leaves behind: it owns the caller-saved registers and
      the stack below the stack pointer. */
  datatype Scratch = Scratch(eax: nat, ecx: nat, edx: nat, below: Memory)

  function Clobbered(m: Memory, esp: nat, below: Memory): Memory
  {
    (map a | a in m && a >= esp :: m[a]) + (map a | a in below && a < esp :: below[a])
  }

  /** The upper half of a dword stays when 16 bits are stored. */
  function Store16(was: nat, v: nat): nat
  {
    was / 0x1_0000 * 0x1_0000 + v % 0x1_0000
  }

  class Machine {
    var cpu: Cpu
    var mem: Memory
    var contexts: map<nat, Context>

    constructor (cpu: Cpu, mem: Memory, contexts: map<nat, Context>)
      ensures this.cpu == cpu && this.mem == mem && this.contexts == contexts
    {
      this.cpu, this.mem, this.contexts := cpu, mem, contexts;
    }

    method Push(v: nat)
      requires cpu.esp >= 4
      modifies this`cpu, this`mem
      ensures cpu == old(cpu).(esp := old(cpu).esp - 4) && mem == old(mem)[cpu.esp := v]
    {
      cpu := cpu.(esp := cpu.esp - 4);
      mem := mem[cpu.esp := v];
    }

    method Pop() returns (v: nat)
      modifies this`cpu
      ensures v == Word32(mem, old(cpu).esp) && cpu == old(cpu).(esp := old(cpu).esp + 4)
    {
      v := Word32(mem, cpu.esp);
      cpu := cpu.(esp := cpu.esp + 4);
    }

    /** The context part of `create_proc` for a kernel process: the record is still
        blank; with a stack of its own the argument and a zero return address go on
        top of it, and both stack registers point there. */
    method BuildContext(k: Kernel, p: nat, ownStack: bool, stack: nat, cr3: nat)
      modifies this`contexts, this`mem
      ensures contexts == old(contexts)[p := if ownStack then FreshContext(k, stack, cr3)
                                             else FreshContext(k, stack, cr3).(esp := 0, ebp := 0)]
      ensures ownStack ==>
        var top := stack + DEFAULT_STACK - 8;
        && Word32(mem, top) == 0 && Word32(mem, top + 4) == p
        && forall a :: a != top && a != top + 4 ==> Word32(mem, a) == Word32(old(mem), a)
      ensures !ownStack ==> mem == old(mem)
    {
      var c := Context(0, 0, 0, 0, 0, 0, 0, 0, 0, 0, 0, 0, 0, 0, 0, 0, 0);
      c := c.(es := k.kdata, ds := k.kdata, fs := k.kdata, gs := k.kdata);
      c := c.(ss := k.kstack);
      if ownStack {
        var top := stack + DEFAULT_STACK;
        top := top - 4;
        mem := mem[top := p];
        top := top - 4;
        mem := mem[top := 0];
        c := c.(esp := top, ebp := top);
      } else {
        c := c.(esp := 0, ebp := 0);
      }
      c := c.(eip := k.startup, cs := k.kcode, eflags := 0x202);
      c := c.(cr3 := cr3);
      contexts := contexts[p := c];
    }

    /** What the CPU pushes when it is interrupted in kernel mode. */
    method EnterInterrupt()
      requires KernelCpu(cpu)
      modifies this`cpu, this`mem
      ensures cpu == old(cpu).(esp := old(cpu).esp - 12)
      ensures Word32(mem, cpu.esp) == cpu.eip && Word32(mem, cpu.esp + 4) == cpu.cs
      ensures Word32(mem, cpu.esp + 8) == cpu.eflags
    {
      Push(cpu.eflags);
      Push(cpu.cs);
      Push(cpu.eip);
    }

    method Pusha()
      requires cpu.esp >= 32
      modifies this`cpu, this`mem
      ensures cpu == old(cpu).(esp := old(cpu).esp - 32)
      ensures Word32(mem, cpu.esp) == cpu.edi && Word32(mem, cpu.esp + 4) == cpu.esi &&
        Word32(mem, cpu.esp + 8) == cpu.ebp
      ensures Word32(mem, cpu.esp + 12) == old(cpu).esp && Word32(mem, cpu.esp + 16) == cpu.ebx
      ensures Word32(mem, cpu.esp + 20) == cpu.edx && Word32(mem, cpu.esp + 24) == cpu.ecx &&
        Word32(mem, cpu.esp + 28) == cpu.eax
      ensures Above(old(mem), mem, old(cpu).esp)
    {
      var esp := cpu.esp;
      PushFour(cpu.eax, cpu.ecx, cpu.edx, cpu.ebx);
      PushFour(esp, cpu.ebp, cpu.esi, cpu.edi);
    }

    method PushFour(a: nat, b: nat, c: nat, d: nat)
      requires cpu.esp >= 16
      modifies this`cpu, this`mem
      ensures cpu == old(cpu).(esp := old(cpu).esp - 16)
      ensures Word32(mem, cpu.esp) == d && Word32(mem, cpu.esp + 4) == c
      ensures Word32(mem, cpu.esp + 8) == b && Word32(mem, cpu.esp + 12) == a
      ensures Above(old(mem), mem, old(cpu).esp)
    {
      Push(a);
      Push(b);
      Push(c);
      Push(d);
    }

    /** `popa` skips the saved stack pointer. */
    method Popa()
      modifies this`cpu
      ensures var f := old(cpu).esp;
        cpu == old(cpu).(edi := Word32(mem, f), esi := Word32(mem, f + 4), ebp := Word32(mem, f + 8),
          ebx := Word32(mem, f + 16), edx := Word32(mem, f + 20), ecx := Word32(mem, f + 24),
          eax := Word32(mem, f + 28),
          esp := f + 32)
    {
      var edi := Pop();
      var esi := Pop();
      var ebp := Pop();
      var _ := Pop();
      var ebx := Pop();
      var edx := Pop();
      var ecx := Pop();
      var eax := Pop();
      cpu := cpu.(edi := edi, esi := esi, ebp := ebp, ebx := ebx, edx := edx, ecx := ecx, eax := eax);
    }

    /** `iret` within kernel mode. */
    method Iret()
      modifies this`cpu
      ensures var f := old(cpu).esp;
        cpu == old(cpu).(eip := Word32(mem, f), cs := Word32(mem, f + 4), eflags := Word32(mem, f + 8), esp := f + 12)
    {
      var eip := Pop();
      var cs := Pop();
      var eflags := Pop();
      cpu := cpu.(eip := eip, cs := cs, eflags := eflags);
    }

    /** A call into C. */
    method Call(scratch: Scratch)
      modifies this`cpu, this`mem
      ensures cpu == old(cpu).(eax := scratch.eax, ecx := scratch.ecx, edx := scratch.edx)
      ensures Above(old(mem), mem, cpu.esp)
    {
      cpu := cpu.(eax := scratch.eax, ecx := scratch.ecx, edx := scratch.edx);
      mem := Clobbered(mem, cpu.esp, scratch.below);
    }

    /** `cswitch_save`: the frame at `frame` and the live segment registers go into
        the context of `p`. A process interrupted in user mode gets only the low
        half of its stack pointer. */
    method CswitchSave(p: nat, frame: nat)
      requires p in contexts
      modifies this`contexts
      ensures p in contexts && contexts == old(contexts)[p := contexts[p]]
      ensures contexts[p].(esp := 0, ss := 0) == Context(
        cpu.cr3, cpu.gs, cpu.fs, cpu.ds, 0, cpu.es,
        Word32(mem, frame), Word32(mem, frame + 4), Word32(mem, frame + 8), 0, Word32(mem, frame + 16),
        Word32(mem, frame + 20), Word32(mem, frame + 24), Word32(mem, frame + 28),
        Word32(mem, frame + 32), Word32(mem, frame + 36), Word32(mem, frame + 40))
      ensures Word32(mem, frame + 36) % 4 == 0 ==>
        contexts[p].ss == cpu.ss && contexts[p].esp == Word32(mem, frame + 12) + 12
      ensures Word32(mem, frame + 36) % 4 != 0 ==>
        var was, esp := old(contexts)[p].esp, Word32(mem, frame + 44);
        && contexts[p].ss == Word32(mem, frame + 48) % 0x1_0000 && contexts[p].esp == Store16(was, esp)
        && (contexts[p].esp == esp <==> was / 0x1_0000 == esp / 0x1_0000)
    {
      var k := contexts[p];
      k := k.(eflags := Word32(mem, frame + 40));
      k := k.(cs := Word32(mem, frame + 36));
      k := k.(eip := Word32(mem, frame + 32));
      if Word32(mem, frame + 36) % 4 == 0 {
        k := k.(ss := cpu.ss);
        k := k.(esp := Word32(mem, frame + 12) + 12);
      } else {
        k := k.(ss := Word32(mem, frame + 48) % 0x1_0000);
        k := k.(esp := Store16(k.esp, Word32(mem, frame + 44)));
      }
      k := k.(eax := Word32(mem, frame + 28), ecx := Word32(mem, frame + 24), edx := Word32(mem, frame + 20));
      k := k.(ebx := Word32(mem, frame + 16), ebp := Word32(mem, frame + 8));
      k := k.(esi := Word32(mem, frame + 4), edi := Word32(mem, frame));
      k := k.(es := cpu.es, ds := cpu.ds, fs := cpu.fs, gs := cpu.gs);
      k := k.(cr3 := cpu.cr3);
      contexts := contexts[p := k];
    }

    /** `cswitch_load`, kernel mode: the three pushes rebuild the frame that `iret`
        consumes, on the stack of the process itself. */
    method CswitchLoad(p: nat)
      requires p in contexts && KernelCpu(Restore(contexts[p]))
      modifies this`cpu, this`mem
      ensures cpu == Restore(contexts[p])
    {
      var k := contexts[p];
      cpu := cpu.(cr3 := k.cr3);
      cpu := cpu.(ss := k.ss, esp := k.esp);
      Push(k.eflags);
      Push(k.cs);
      Push(k.eip);
      cpu := cpu.(es := k.es, ds := k.ds, fs := k.fs, gs := k.gs);
      cpu := cpu.(eax := k.eax, ecx := k.ecx, edx := k.edx, ebx := k.ebx, ebp := k.ebp, esi := k.esi, edi := k.edi);
      Iret();
    }

    /** Interrupt entry, `pusha` and the space for two pointers. */
    method BuildFrame()
      requires KernelCpu(cpu)
      modifies this`cpu, this`mem
      ensures FrameAt(mem, cpu.ebp, old(cpu))
      ensures cpu == old(cpu).(ebp := old(cpu).esp - 44, esp := old(cpu).esp - 52)
    {
      EnterInterrupt();
      Pusha();
      cpu := cpu.(ebp := cpu.esp);
      cpu := cpu.(esp := cpu.esp - 8);
    }

    /** The timer interrupt in kernel mode with its handler `cswitch_handler`:
        `verdict` is what `scheduler_switch` decides, `eoi` and `call` what the two
        calls leave behind. The instructions do to registers and contexts what
        `Switching.TimerInterrupt` does. */
    method TimerHandler(verdict: Verdict, eoi: Scratch, call: Scratch)
      requires KernelCpu(cpu)
      requires verdict.Switch? ==>
        && verdict.current in contexts && verdict.next in contexts && verdict.current != verdict.next
        && KernelCpu(Restore(contexts[verdict.next]))
      modifies this
      ensures match verdict
        case Stay => contexts == old(contexts) && cpu == old(cpu)
        case Switch(p, n) => contexts == old(contexts)[p := ContextOf(old(cpu))] && cpu == Restore(old(contexts)[n])
    {
      BuildFrame();
      ghost var built := mem;
      Call(eoi);
      AboveTrans(built, mem, mem, cpu.esp, cpu.ebp);
      FrameKept(built, mem, cpu.ebp, old(cpu));
      cpu := cpu.(eax := cpu.ebp - 4, edx := cpu.ebp - 8);
      ghost var ready := mem;
      SchedulerSwitch(verdict, call);
      FrameKept(ready, mem, cpu.ebp, old(cpu));
      if cpu.eax == 0 {
        RestoreCurrent(old(cpu));
      } else {
        SwitchContext(old(cpu));
      }
    }

    /** Inside the handler: the frame of the interrupted state `c` is on the stack
        and the registers it does not hold are still in the CPU. */
    ghost predicate Entered(c: Cpu)
      reads this
    {
      && KernelCpu(c) && FrameAt(mem, cpu.ebp, c) && cpu.ebp == c.esp - 44 && cpu.esp == cpu.ebp - 8
      && (cpu.ss, cpu.ds, cpu.es, cpu.fs, cpu.gs, cpu.cr3) == (c.ss, c.ds, c.es, c.fs, c.gs, c.cr3)
    }

    /** `.restore` */
    method RestoreCurrent(ghost c: Cpu)
      requires Entered(c)
      modifies this`cpu
      ensures cpu == c
    {
      cpu := cpu.(esp := cpu.esp + 8);
      Popa();
      Iret();
    }

    /** `.switch` */
    method SwitchContext(ghost c: Cpu)
      requires Entered(c)
      requires var p, n := Word32(mem, cpu.ebp - 4), Word32(mem, cpu.ebp - 8);
        p in contexts && n in contexts && p != n && KernelCpu(Restore(contexts[n]))
      modifies this
      ensures var p, n := Word32(old(mem), old(cpu).ebp - 4), Word32(old(mem), old(cpu).ebp - 8);
        contexts == old(contexts)[p := ContextOf(c)] && cpu == Restore(old(contexts)[n])
    {
      CswitchSave(Word32(mem, cpu.ebp - 4), cpu.ebp);
      assert contexts[Word32(mem, cpu.ebp - 4)] == ContextOf(c);
      CswitchLoad(Word32(mem, cpu.ebp - 8));
    }

    /** The call of `scheduler_switch`: the two pointers lie below the frame, their
        addresses in eax and edx. */
    method SchedulerSwitch(verdict: Verdict, call: Scratch)
      requires cpu.esp >= 8 && cpu.ebp == cpu.esp + 8 && cpu.eax == cpu.ebp - 4 && cpu.edx == cpu.ebp - 8
      modifies this`cpu, this`mem
      ensures cpu == old(cpu).(eax := if verdict.Switch? then 1 else 0, ecx := call.ecx, edx := call.edx)
      ensures Above(old(mem), mem, cpu.ebp)
      ensures verdict.Switch? ==>
        Word32(mem, cpu.ebp - 4) == verdict.current && Word32(mem, cpu.ebp - 8) == verdict.next
    {
      var current, next := cpu.eax, cpu.edx;
      Push(cpu.edx);
      Push(cpu.eax);
      ghost var pushed := mem;
      Call(call);
      AboveTrans(pushed, mem, mem, cpu.esp, cpu.ebp);
      ghost var called := mem;
      if verdict.Switch? {
        mem := mem[current := verdict.current];
        mem := mem[next := verdict.next];
      }
      assert Above(called, mem, cpu.ebp);
      AboveTrans(pushed, called, mem, cpu.ebp, cpu.ebp);
      assert Above(old(mem), pushed, cpu.ebp);
      AboveTrans(old(mem), pushed, mem, cpu.ebp, cpu.ebp);
      cpu := cpu.(eax := if verdict.Switch? then 1 else 0);
      cpu := cpu.(esp := cpu.esp + 8);
    }
  }

  ghost function SystemOf(sched: Scheduler.ProcessScheduler, m: Machine): System
    reads sched, m
  {
    System(sched.State(), m.contexts, m.cpu)
  }

  /** One timer interrupt of the whole machine: `scheduler_switch` and the handler
      together are the step of the system. */
  method TimerTick(sched: Scheduler.ProcessScheduler, m: Machine, eoi: Scratch, call: Scratch, ghost l: Lists,
      ghost saved: map<nat, Cpu>)
    requires Faithful(SystemOf(sched, m), l, saved)
    modifies sched, m
    ensures SystemOf(sched, m) == TimerInterrupt(old(SystemOf(sched, m)))
  {
    TickCases(sched.State(), l);
    ghost var before := sched.State();
    assert forall p :: p in l.active && p != before.current ==> Parked(SystemOf(sched, m), saved, p);
    var verdict := sched.SchedulerSwitch(l);
    m.TimerHandler(verdict, eoi, call);
  }

  /** A user stack that has grown across a 64 KB boundary since the last save is
      saved with the wrong upper half. */
  lemma UserStackLost()
    ensures Store16(0x1F_FFF8, 0x1E_FFFC) == 0x1F_FFFC
  {
  }
}

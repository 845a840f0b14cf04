/** The pre-emptive scheduler of `labs/14-ss-equiv-deux/code/equiv-threads.c`: its handlers
    over the shared run queue, the current thread and the single mismatch register, proved
    to take the steps of EquivSpec with choice 0. */
module EquivThreads {
  import opened Words
  import opened Cpu
  import opened MiniStep
  import opened IntrusiveQueue
  import opened EquivSpec
  import opened EquivProofs

  const STACK_SIZE := 8192 * 8

  lemma {:induction false} RunSnoc(env: Env, s: Sys, picks: seq<nat>, pick: nat)
    ensures SysRun(env, s, picks + [pick]) == SysStep(env, SysRun(env, s, picks), pick)
    decreases |picks|
  {
    if picks == [] {
      assert [pick][1..] == [];
    } else {
      assert (picks + [pick])[1..] == picks[1..] + [pick];
      RunSnoc(env, SysStep(env, s, picks[0]), picks[1..], pick);
    }
  }

  lemma RunOneMore(env: Env, s: Sys, n: nat)
    ensures SysRun(env, s, Zeros(n + 1)) == SysStep(env, SysRun(env, s, Zeros(n)), 0)
  {
    RunSnoc(env, s, Zeros(n), 0);
    assert Zeros(n + 1) == Zeros(n) + [0];
  }

  /** What SysStep does when the current thread gives up the processor to the queue's head. */
  lemma YieldStep(env: Env, s: Sys, t: Thread)
    requires s.Running() && Step(env, s.ring[0], s.bvr) == Yield(t)
    ensures var ring := s.ring[1..] + [t];
      SysStep(env, s, 0) == s.(ring := ring, bvr := ring[0].ctx.Pc(), uart := s.uart + Printed(s.ring[0], t))
  {
    var ring := s.ring[1..] + [t];
    assert [ring[0]] + ring[..0] + ring[1..] == ring;
  }

  /** What SysStep does when the current thread exits. */
  lemma ExitStep(env: Env, s: Sys, t: Thread)
    requires s.Running() && Step(env, s.ring[0], s.bvr) == Exit(t)
    ensures var s' := s.(ring := s.ring[1..], done := s.done + [t]);
      SysStep(env, s, 0) == if s'.ring == [] then s'.(phase := EquivSpec.Finished)
                            else s'.(bvr := s'.ring[0].ctx.Pc())
  {
    var ring := s.ring[1..];
    assert ring != [] ==> [ring[0]] + ring[..0] + ring[1..] == ring;
  }

  /** What SysStep does when the current thread's fetch faults. */
  lemma FaultStep(env: Env, s: Sys)
    requires s.Running() && s.ring[0].ctx.Pc() != s.bvr
    ensures var t := s.ring[0];
      var t' := t.(instCnt := Add32(t.instCnt, 1), hash := env.hash(t.ctx.regs, t.hash), snaps := t.snaps + [t.ctx.regs]);
      var ring := s.ring[1..] + [t'];
      SysStep(env, s, 0) == if t.ctx.Pc() == env.ssOnExit then s.(phase := Halted(LeftToMiniStep))
                            else s.(ring := ring, bvr := ring[0].ctx.Pc())
  {
    if s.ring[0].ctx.Pc() == env.ssOnExit {
      assert s.ring[0 := s.ring[0]] == s.ring;
    } else {
      YieldStep(env, s, PrefetchFault(env, s.ring[0]).t);
      assert s.uart + [] == s.uart;
    }
  }

  /** What SysStep does when the current thread goes on, or dies by an exception. */
  lemma ExecStep(env: Env, s: Sys)
    requires s.Running() && s.ring[0].ctx.Pc() == s.bvr
    ensures match env.exec(s.ring[0].ctx)
      case Next(ctx) => SysStep(env, s, 0) == s.(ring := [s.ring[0].(ctx := ctx)] + s.ring[1..])
      case Swi(ctx) => Step(env, s.ring[0], s.bvr) == Syscall(s.ring[0].(ctx := ctx))
      case Abort => SysStep(env, s, 0) == s.(phase := Halted(Exception))
  {
    assert forall t: Thread :: s.ring[0 := t] == [t] + s.ring[1..];
    assert s.ring[0 := s.ring[0]] == s.ring;
  }

  class Kernel {
    const env: Env
    const dbg: Debug
    const runq: Queue<Thread>           // equiv_runq
    var cur: Node?<Thread>              // cur_thread
    var cpu: Regs                       // what the processor holds while user code runs
    var uart: seq<(Word, Byte)>         // printed since the run began, and by whom
    var phase: EquivSpec.Phase

    var ntids: Word

    ghost var exited: seq<Node<Thread>> // in the order they exited during the last run
    ghost var pool: set<Node<Thread>>   // the threads of this run, or queued for the next one

    ghost predicate Valid()
      reads this, dbg, runq, runq.spine
    {
      && dbg.Valid() && runq.Valid()
      && (forall n :: n in runq.spine ==> n in pool)
      && (forall n :: n in exited ==> n in pool)
      && forall n :: n in exited ==> n !in runq.spine
    }

    constructor (env: Env)
      ensures Valid() && fresh(dbg) && fresh(runq)
      ensures this.env == env && runq.spine == [] && !dbg.on && pool == {} && exited == []
      ensures phase == EquivSpec.Finished && uart == []
    {
      this.env := env;
      dbg := new Debug();
      runq := new Queue<Thread>();
      cur, cpu, uart, phase := null, FreshRegs(0, 0, 0, 0, 0), [], EquivSpec.Finished;
      ntids, exited, pool := 1, [], {};
    }

    /** equiv_run is under way; unless it is over, a current thread is in neither list. */
    ghost predicate Active()
      reads this, dbg, runq, runq.spine
    {
      && Valid() && dbg.on && cur != null && cur in pool
      && if phase == EquivSpec.Finished then runq.spine == [] else cur !in runq.spine && cur !in exited
    }

    /** The current thread with the registers the processor holds. */
    ghost function Live(): Thread
      requires cur != null
      reads this, cur
    {
      cur.d.(ctx := Context(cpu, cur.d.ctx.mem))
    }

    ghost function Abs(): Sys
      requires Active()
      reads this, dbg, runq, runq.spine, pool
    {
      var ring := if phase == EquivSpec.Finished then [] else [Live()] + Payloads(runq.spine);
      Sys(ring, dbg.bvr0, Payloads(exited), phase, uart)
    }

    /** Handlers never add, drop or rename a thread. */
    twostate predicate SameThreads()
      reads this, pool
    {
      && pool == old(pool)
      && (forall n :: n in pool && old(allocated(n)) ==> n.d.tid == old(n.d.tid))
    }

    /** mismatch_run, without the wait for the UART. */
    method MismatchRun(r: Regs)
      requires dbg.on
      modifies this`cpu, dbg`bcr0, dbg`bvr0
      ensures dbg.Valid() && cpu == r && dbg.bvr0 == r[REGS_PC]
    {
      var _ := dbg.MismatchPcSet(r[REGS_PC]);
      cpu := r;
    }

    /** equiv_schedule: the current thread's registers are saved. */
    method Schedule()
      requires Active() && phase == EquivSpec.User
      modifies this`cur, this`cpu, dbg`bcr0, dbg`bvr0, runq, pool`next
      ensures Active()
      ensures [cur] + runq.spine == old(runq.spine) + [old(cur)]
      ensures cpu == cur.d.ctx.regs && dbg.bvr0 == cur.d.ctx.Pc()
    {
      var th := runq.Pop();
      if th != null {
        runq.Append(cur);
        cur := th;
      }
      MismatchRun(cur.d.ctx.regs);
    }

    /** The same seen from outside: the ring `s` describes goes on at its head. */
    method Yields(ghost s: Sys)
      requires Active() && phase == EquivSpec.User
      requires s.ring == Payloads(runq.spine) + [cur.d] && s.done == Payloads(exited)
      requires s.phase == User && s.uart == uart
      modifies this`cur, this`cpu, dbg`bcr0, dbg`bvr0, runq, pool`next
      ensures Active()
      ensures Abs() == s.(bvr := s.ring[0].ctx.Pc())
    {
      Schedule();
      assert Live() == cur.d;
      assert Payloads([cur] + runq.spine) == [cur.d] + Payloads(runq.spine);
      assert Payloads([cur] + runq.spine) == s.ring;
      assert Payloads(exited) == s.done;
    }

    /** equiv_hash_handler up to its call of equiv_schedule; `s` is the state it is entered in. */
    method HashRegs(ghost s: Sys)
      requires Active() && phase == EquivSpec.User && s == Abs()
      modifies cur`d
      ensures Active() && s.ring[1..] == Payloads(runq.spine) && s.done == Payloads(exited)
      ensures var t := s.ring[0];
        cur.d == t.(instCnt := Add32(t.instCnt, 1), hash := env.hash(t.ctx.regs, t.hash), snaps := t.snaps + [t.ctx.regs])
    {
      var th := cur;
      var t := th.d.(ctx := Context(cpu, th.d.ctx.mem));
      th.d := t.(instCnt := Add32(t.instCnt, 1), hash := env.hash(t.ctx.regs, t.hash), snaps := t.snaps + [cpu]);
      assert Payloads(runq.spine) == s.ring[1..];
      assert Payloads(exited) == s.done;
    }

    /** mismatch_fault, and equiv_hash_handler when the fault is not at ss_on_exit. */
    method PrefetchAbort()
      requires Active() && phase == EquivSpec.User && dbg.Faults(cpu[REGS_PC])
      modifies this`cur, this`cpu, this`phase, dbg`bcr0, dbg`bvr0, runq, pool
      ensures Active() && SameThreads()
      ensures Abs() == SysStep(env, old(Abs()), 0)
    {
      hide SysStep, Step;
      ghost var s := Abs();
      FaultStep(env, s);
      if cpu[REGS_PC] == env.ssOnExit {
        phase := Halted(LeftToMiniStep);
        assert Abs().ring == s.ring;
        return;
      }
      HashRegs(s);
      Yields(s.(ring := s.ring[1..] + [cur.d]));
    }

    /** Everything but the current thread is as in `s`. */
    ghost predicate Around(s: Sys)
      reads this, dbg, runq, runq.spine, pool
    {
      && Active() && phase == s.phase == EquivSpec.User && s.ring != []
      && s.ring[1..] == Payloads(runq.spine) && s.done == Payloads(exited)
      && s.bvr == dbg.bvr0 && s.uart == uart
    }

    /** The event after `s` was a system call of the current thread, whose registers are saved. */
    ghost predicate InSyscall(s: Sys)
      reads this, dbg, runq, runq.spine, pool
    {
      && Around(s) && cur.d.ctx.regs == cpu
      && Step(env, s.ring[0], s.bvr) == Syscall(cur.d)
      && cur.d.out == s.ring[0].out && cur.d.tid == s.ring[0].tid
    }

    method Putc(ghost s: Sys)
      requires InSyscall(s) && Syscall(cur.d).Yield?
      modifies this`cur, this`cpu, this`phase, this`uart, this`exited, dbg`bcr0, dbg`bvr0, runq, pool
      ensures Active() && SameThreads()
      ensures Abs() == SysStep(env, s, 0)
    {
      hide SysStep, Step;
      var th := cur;
      var c := ByteOf(th.d.ctx.regs[1]);
      uart := uart + [(th.d.tid, c)];
      th.d := th.d.(out := th.d.out + [c]);
      assert Payloads(runq.spine) == s.ring[1..];
      assert Payloads(exited) == s.done;
      YieldStep(env, s, th.d);
      Yields(s.(ring := s.ring[1..] + [th.d], uart := uart));
    }

    method Stop(ghost s: Sys, why: Why)
      requires InSyscall(s) && Syscall(cur.d) == Die(cur.d, why)
      modifies this`phase
      ensures Active() && Abs() == SysStep(env, s, 0) && phase == Halted(why)
    {
      phase := Halted(why);
      assert Live() == cur.d;
      assert [cur.d] + s.ring[1..] == s.ring[0 := cur.d];
    }

    /** Pops the run queue: its head is current now, or there is nothing left to run. */
    method TakeNext()
      requires Valid() && dbg.on && phase == EquivSpec.User
      requires runq.spine == [] ==> cur != null && cur in pool
      modifies this`cur, this`phase, runq
      ensures Active()
      ensures old(runq.spine) == [] ==> phase == EquivSpec.Finished && cur == old(cur)
      ensures old(runq.spine) != [] ==> phase == EquivSpec.User && [cur] + runq.spine == old(runq.spine)
    {
      var next := runq.Pop();
      if next == null {
        phase := EquivSpec.Finished;
      } else {
        cur := next;
      }
    }

    /** The exit call, once the hash has been accepted: `s` is what is left without `cur`. */
    method NextOrDone(ghost s: Sys)
      requires Active() && phase == s.phase == EquivSpec.User && s.bvr == dbg.bvr0 && s.uart == uart
      requires s.ring == Payloads(runq.spine) && s.done == Payloads(exited) + [cur.d]
      modifies this`cur, this`cpu, this`phase, this`exited, dbg`bcr0, dbg`bvr0, runq
      ensures Active() && exited == old(exited + [cur])
      ensures if old(runq.spine) == [] then phase == EquivSpec.Finished
              else phase == EquivSpec.User && [cur] + runq.spine == old(runq.spine)
      ensures Abs() == if s.ring == [] then s.(phase := EquivSpec.Finished) else s.(bvr := s.ring[0].ctx.Pc())
    {
      exited := exited + [cur];
      TakeNext();
      assert Payloads(exited) == s.done;
      if phase == EquivSpec.User {
        assert s.ring == Payloads([cur] + runq.spine) == [cur.d] + Payloads(runq.spine);
        Resume(s);
      }
    }

    method Resume(ghost s: Sys)
      requires Active() && phase == s.phase == EquivSpec.User
      requires s.ring == [cur.d] + Payloads(runq.spine) && s.done == Payloads(exited) && s.uart == uart
      modifies this`cpu, dbg`bcr0, dbg`bvr0
      ensures Active()
      ensures Abs() == s.(bvr := s.ring[0].ctx.Pc())
    {
      MismatchRun(cur.d.ctx.regs);
      assert Live() == cur.d;
    }

    /** equiv_syscall_handler, entered by the event after `s`. */
    method SyscallHandler(ghost s: Sys)
      requires Around(s)
      requires Step(env, s.ring[0], s.bvr) == Syscall(Live())
      requires cur.d.out == s.ring[0].out && cur.d.tid == s.ring[0].tid
      modifies this`cur, this`cpu, this`phase, this`uart, this`exited, dbg`bcr0, dbg`bvr0, runq, pool
      ensures Active() && SameThreads()
      ensures Abs() == SysStep(env, s, 0)
    {
      SaveRegs(s);
      var sysno := cpu[0];
      var err := StackError(cur.d);
      if err.0 {
        Stop(s, err.1);
      } else if sysno == EQUIV_PUTC {
        Putc(s);
      } else if sysno == EQUIV_EXIT {
        ExitCall(s);
      } else {
        Stop(s, BadSyscall);
      }
    }

    method SaveRegs(ghost s: Sys)
      requires Around(s)
      requires Step(env, s.ring[0], s.bvr) == Syscall(Live())
      requires cur.d.out == s.ring[0].out && cur.d.tid == s.ring[0].tid
      modifies cur`d
      ensures InSyscall(s) && cur.d == old(Live())
    {
      cur.d := cur.d.(ctx := Context(cpu, cur.d.ctx.mem));
      assert Payloads(runq.spine) == s.ring[1..];
      assert Payloads(exited) == s.done;
    }

    /** Call 0, whatever the exit code in r1. */
    method ExitCall(ghost s: Sys)
      requires InSyscall(s) && !StackError(cur.d).0 && cpu[0] == EQUIV_EXIT
      modifies this`cur, this`cpu, this`phase, this`uart, this`exited, dbg`bcr0, dbg`bvr0, runq, pool
      ensures Active() && SameThreads()
      ensures Abs() == SysStep(env, s, 0)
      ensures var d := old(cur.d);
        if d.expected == 0 || d.expected == d.hash then
          && exited == old(exited + [cur]) && old(cur).d == d.(expected := d.hash)
          && (if old(runq.spine) == [] then phase == EquivSpec.Finished
              else phase == EquivSpec.User && [cur] + runq.spine == old(runq.spine))
        else phase == Halted(HashMismatch) && cur == old(cur) && runq.spine == old(runq.spine)
    {
      hide SysStep, Step;
      if cur.d.expected == 0 {
        cur.d := cur.d.(expected := cur.d.hash);
      } else if cur.d.expected != cur.d.hash {
        Stop(s, HashMismatch);
        return;
      }
      Accepted(s);
    }

    /** The rest of the exit call; the hash was right or has just been taken. */
    method Accepted(ghost s: Sys)
      requires Around(s) && Step(env, s.ring[0], s.bvr) == Exit(cur.d)
      modifies this`cur, this`cpu, this`phase, this`exited, dbg`bcr0, dbg`bvr0, runq
      ensures Active() && exited == old(exited + [cur])
      ensures if old(runq.spine) == [] then phase == EquivSpec.Finished
              else phase == EquivSpec.User && [cur] + runq.spine == old(runq.spine)
      ensures Abs() == SysStep(env, s, 0)
    {
      hide SysStep, Step;
      ExitStep(env, s, cur.d);
      NextOrDone(s.(ring := s.ring[1..], done := s.done + [cur.d]));
    }

    /** What happens next in user mode: the fetch faults, or the instruction is executed and
        perhaps traps. */
    method UserEvent()
      requires Active() && phase == EquivSpec.User
      modifies this`cur, this`cpu, this`phase, this`uart, this`exited, dbg`bcr0, dbg`bvr0, runq, pool
      ensures Active() && SameThreads()
      ensures Abs() == SysStep(env, old(Abs()), 0)
    {
      hide SysStep, Step;
      if dbg.Faults(cpu[REGS_PC]) {
        PrefetchAbort();
      } else {
        Execute();
      }
    }

    method Execute()
      requires Active() && phase == EquivSpec.User && !dbg.Faults(cpu[REGS_PC])
      modifies this`cur, this`cpu, this`phase, this`uart, this`exited, dbg`bcr0, dbg`bvr0, runq, pool
      ensures Active() && SameThreads()
      ensures Abs() == SysStep(env, old(Abs()), 0)
    {
      hide SysStep, Step, Syscall;
      ghost var s := Abs();
      ExecStep(env, s);
      match env.exec(Context(cpu, cur.d.ctx.mem)) {
        case Next(ctx) => Completed(s, ctx);
        case Swi(ctx) => Trapped(s, ctx);
        case Abort => Except(s);
      }
    }

    method Completed(ghost s: Sys, ctx: Context)
      requires Active() && phase == EquivSpec.User && s == Abs()
      modifies this`cpu, cur`d
      ensures Active() && SameThreads()
      ensures Abs() == s.(ring := [s.ring[0].(ctx := ctx)] + s.ring[1..])
    {
      Executed(s, ctx);
      assert Abs().ring == [Live()] + s.ring[1..];
    }

    method Trapped(ghost s: Sys, ctx: Context)
      requires Active() && phase == EquivSpec.User && s == Abs()
      requires Step(env, s.ring[0], s.bvr) == Syscall(s.ring[0].(ctx := ctx))
      modifies this`cur, this`cpu, this`phase, this`uart, this`exited, dbg`bcr0, dbg`bvr0, runq, pool
      ensures Active() && SameThreads()
      ensures Abs() == SysStep(env, s, 0)
    {
      hide SysStep, Step, Syscall;
      Executed(s, ctx);
      SyscallHandler(s);
    }

    /** An exception the kernel has no handler for. */
    method Except(ghost s: Sys)
      requires Active() && phase == EquivSpec.User && s == Abs()
      modifies this`phase
      ensures Active() && Abs() == s.(phase := Halted(Exception))
    {
      phase := Halted(Exception);
      assert Abs().ring == s.ring;
    }

    method Executed(ghost s: Sys, ctx: Context)
      requires Active() && phase == EquivSpec.User && s == Abs()
      modifies this`cpu, cur`d
      ensures Around(s) && Live() == s.ring[0].(ctx := ctx)
      ensures cur.d.out == old(cur.d).out && cur.d.tid == old(cur.d).tid
    {
      cpu := ctx.regs;
      cur.d := cur.d.(ctx := Context(cur.d.ctx.regs, ctx.mem));
      assert Payloads(runq.spine) == s.ring[1..];
      assert Payloads(exited) == s.done;
    }

    /** The first part of equiv_run: stepping is on and the queue's head is current. */
    method Prepare()
      requires Valid() && !dbg.on && runq.spine != []
      modifies this, dbg, runq
      ensures Active() && phase == EquivSpec.User && [cur] + runq.spine == old(runq.spine)
      ensures exited == [] && uart == [] && ntids == old(ntids)
      ensures pool == set n | n in old(runq.spine)
    {
      pool := set n | n in runq.spine;
      exited, uart, phase := [], [], EquivSpec.User;
      dbg.MismatchOn();
      TakeNext();
    }

    /** The switch to the first thread. */
    method Begin()
      requires Valid() && !dbg.on && runq.spine != []
      modifies this, dbg, runq
      ensures Active() && phase == EquivSpec.User && ntids == old(ntids)
      ensures pool == set n | n in old(runq.spine)
      ensures Abs() == Boot(old(Payloads(runq.spine)))
    {
      ghost var boot := Boot(Payloads(runq.spine));
      Prepare();
      assert boot.ring == Payloads([cur] + runq.spine) == [cur.d] + Payloads(runq.spine);
      Resume(boot);
    }

    /** User code and handlers taking turns until the last thread has exited or the kernel
        panics. `ns` counts the events the threads still need. */
    method Loop(ghost ns: seq<nat>) returns (ghost n: nat)
      requires Active() && phase == EquivSpec.User && Needs(env, Abs(), ns)
      modifies this`cur, this`cpu, this`phase, this`uart, this`exited, dbg`bcr0, dbg`bvr0, runq, pool
      ensures Active() && SameThreads() && phase != EquivSpec.User && n <= Sum(ns)
      ensures Abs() == SysRun(env, old(Abs()), Zeros(n))
    {
      ghost var boot, needs := Abs(), ns;
      n := 0;
      assert SysRun(env, boot, Zeros(0)) == boot;
      while phase == EquivSpec.User
        invariant Active() && SameThreads()
        invariant Abs() == SysRun(env, boot, Zeros(n))
        invariant phase == EquivSpec.User ==> Needs(env, Abs(), needs) && Sum(needs) + n == Sum(ns)
        invariant n <= Sum(ns)
        decreases if phase == EquivSpec.User then Sum(needs) + 1 else 0
      {
        needs := StepUsesOne(env, Abs(), 0, needs);
        UserEvent();
        RunOneMore(env, boot, n);
        n := n + 1;
      }
    }

    /** equiv_run; `ns` counts the events the threads need, and `final` is the state in which
        control comes back or the kernel panics. False for the panic on an empty queue. No
        thread outside the queue is touched. */
    method EquivRun(ghost ns: seq<nat>) returns (ok: bool, ghost final: Sys, ghost n: nat)
      requires Valid() && !dbg.on && phase == EquivSpec.Finished
      requires runq.spine != [] ==> Needs(env, Boot(Payloads(runq.spine)), ns)
      modifies this, dbg, runq, runq.spine
      ensures ok <==> old(runq.spine) != []
      ensures !ok ==> Valid() && !dbg.on && runq.spine == []
      ensures ntids == old(ntids) && forall m :: m in old(runq.spine) ==> m.d.tid == old(m.d.tid)
      ensures ok ==>
        && Valid() && n <= Sum(ns) && pool == (set m | m in old(runq.spine))
        && final == SysRun(env, Boot(old(Payloads(runq.spine))), Zeros(n))
        && phase == final.phase != EquivSpec.User && uart == final.uart && Payloads(exited) == final.done
        && (phase == EquivSpec.Finished ==> runq.spine == [] && !dbg.on)
    {
      ok := runq.head != null;
      n, final := 0, Sys([], 0, [], EquivSpec.Finished, []);
      if ok {
        final, n := RunAll(ns);
      }
    }

    method RunAll(ghost ns: seq<nat>) returns (ghost final: Sys, ghost n: nat)
      requires Valid() && !dbg.on && runq.spine != [] && Needs(env, Boot(Payloads(runq.spine)), ns)
      modifies this, dbg, runq, runq.spine
      ensures ntids == old(ntids) && forall m :: m in old(runq.spine) ==> m.d.tid == old(m.d.tid)
      ensures Valid() && n <= Sum(ns) && pool == (set m | m in old(runq.spine))
      ensures final == SysRun(env, Boot(old(Payloads(runq.spine))), Zeros(n))
      ensures phase == final.phase != EquivSpec.User && uart == final.uart && Payloads(exited) == final.done
      ensures phase == EquivSpec.Finished ==> runq.spine == [] && !dbg.on
    {
      hide SysRun, SysStep, Needs, Sum, Zeros, Boot, dbg.Faults;
      Begin();
      n := Loop(ns);
      final := Abs();
      if phase == EquivSpec.Finished {
        dbg.MismatchOff();
      }
    }

    /** equiv_fork; `base` is the block the allocator returns and `mem` what it finds there. */
    method Fork(fn: Word, arg: Word, expected: Word, base: Word, mem: Mem) returns (th: Node<Thread>)
      requires Valid() && base % 8 == 0 && base + STACK_SIZE < TWO32
      modifies this`ntids, this`pool, runq
      ensures Valid() && fresh(th) && pool == old(pool) + {th}
      ensures runq.spine == [th] + old(runq.spine) && ntids == Add32(old(ntids), 1)
      ensures th.d.tid == old(ntids) && th.d.fn == fn && th.d.arg == arg && th.d.expected == expected
      ensures th.d.stackStart == base && th.d.stackEnd == base + STACK_SIZE == base + 65536
      ensures th.d == Refreshed(env, th.d, mem) && !StackError(th.d).0
    {
      var t := Thread(ntids, fn, arg, base, base + STACK_SIZE, Context(FreshRegs(0, 0, 0, 0, 0), mem),
                      expected, 0, 0, [], []);
      ntids := Add32(ntids, 1);
      th := new Node(Refreshed(env, t, mem));
      pool := pool + {th};
      runq.Push(th);
    }

    /** equiv_fork_nostack: the same with a stack that is only the address 0. */
    method ForkNostack(fn: Word, arg: Word, expected: Word, base: Word, mem: Mem) returns (th: Node<Thread>)
      requires Valid() && base % 8 == 0 && base + STACK_SIZE < TWO32
      modifies this`ntids, this`pool, runq
      ensures Valid() && fresh(th) && pool == old(pool) + {th}
      ensures runq.spine == [th] + old(runq.spine) && ntids == Add32(old(ntids), 1)
      ensures th.d.tid == old(ntids) && th.d.fn == fn && th.d.arg == arg && th.d.expected == expected
      ensures th.d.stackStart == 0 && th.d.stackEnd == 0
      ensures th.d == Refreshed(env, th.d, mem) && !StackError(th.d).0
    {
      th := Fork(fn, arg, expected, base, mem);
      th.d := th.d.(ctx := Context(th.d.ctx.regs[REGS_SP := 0], mem), stackStart := 0, stackEnd := 0);
    }

    /** equiv_refresh of a thread that is not on the run queue. */
    method Refresh(th: Node<Thread>, mem: Mem)
      requires Valid() && th !in runq.spine && phase == EquivSpec.Finished
      requires th.d.stackStart <= th.d.stackEnd
      modifies this`exited, this`pool, runq, th
      ensures Valid() && runq.spine == [th] + old(runq.spine) && pool == old(pool) + {th}
      ensures th.d == Refreshed(env, old(th.d), mem) && !StackError(th.d).0
    {
      th.d := Refreshed(env, th.d, mem);
      exited, pool := [], pool + {th};
      runq.Push(th);
    }
  }
}

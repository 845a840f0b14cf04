/** What `labs/14-ss-equiv-deux/code/equiv-threads.c` does, as pure state machines: one
    thread run alone, and the whole system under an arbitrary choice of the next thread.
    The real scheduler always makes choice 0. */
module EquivSpec {
  import opened Words
  import opened Cpu

  const EQUIV_EXIT := 0
  const EQUIV_PUTC := 1

  /** The machine around the threads. `hash` is the fold of fast_hash_inc32 over one
      register block; nothing is assumed about it. */
  datatype Env = Env(exec: Exec, hash: (Regs, Word) -> Word, ssOnExit: Word, equivExit: Word, cpsr: Word)

  /** An `eq_th_t` together with its private memory. `snaps` and `out` are history: the
      register blocks folded into `hash` and the bytes the thread printed. */
  datatype Thread = Thread(
    tid: Word, fn: Word, arg: Word, stackStart: Word, stackEnd: Word,
    ctx: Context, expected: Word, hash: Word, instCnt: Word,
    snaps: seq<Regs>, out: seq<Byte>)

  datatype Why = StackTooSmall | StackTooHigh | BadSyscall | HashMismatch | Exception | LeftToMiniStep

  /** equiv_regs_init and equiv_refresh: the thread as it is put on the run queue, with the
      private memory it will find. */
  function Refreshed(env: Env, t: Thread, mem: Mem): Thread {
    t.(ctx := Context(FreshRegs(t.arg, t.fn, t.stackEnd, env.equivExit, env.cpsr), mem),
       instCnt := 0, hash := 0, snaps := [], out := [])
  }

  /// One event of the current thread.

  datatype Event = Go(t: Thread) | Yield(t: Thread) | Exit(t: Thread) | Die(t: Thread, why: Why)

  /** mismatch_fault and equiv_hash_handler. */
  function PrefetchFault(env: Env, t: Thread): Event {
    if t.ctx.Pc() == env.ssOnExit then Die(t, LeftToMiniStep)
    else Yield(t.(instCnt := Add32(t.instCnt, 1), hash := env.hash(t.ctx.regs, t.hash),
                  snaps := t.snaps + [t.ctx.regs]))
  }

  /** check_sp. */
  function StackError(t: Thread): (r: (bool, Why)) {
    var sp := t.ctx.regs[REGS_SP];
    if sp < t.stackStart then (true, StackTooSmall)
    else if sp > t.stackEnd then (true, StackTooHigh)
    else (false, StackTooHigh)
  }

  function ByteOf(w: Word): Byte { w % 256 }

  /** equiv_syscall_handler; `t` already holds the saved registers. */
  function Syscall(t: Thread): Event {
    if StackError(t).0 then Die(t, StackError(t).1)
    else if t.ctx.regs[0] == EQUIV_PUTC then Yield(t.(out := t.out + [ByteOf(t.ctx.regs[1])]))
    else if t.ctx.regs[0] == EQUIV_EXIT then
      if t.expected == 0 then Exit(t.(expected := t.hash))
      else if t.expected == t.hash then Exit(t)
      else Die(t, HashMismatch)
    else Die(t, BadSyscall)
  }

  /** One user-mode event with the mismatch register at `bvr`. */
  function Step(env: Env, t: Thread, bvr: Word): Event {
    if t.ctx.Pc() != bvr then PrefetchFault(env, t)
    else match env.exec(t.ctx)
      case Next(ctx) => Go(t.(ctx := ctx))
      case Swi(ctx) => Syscall(t.(ctx := ctx))
      case Abort => Die(t, Exception)
  }

  /// A thread run alone.

  datatype Status = Live | Exited | Dead(why: Why)

  datatype Solo = Solo(t: Thread, bvr: Word, st: Status)

  function SoloStep(env: Env, z: Solo): Solo {
    if z.st != Live then z
    else match Step(env, z.t, z.bvr)
      case Go(t) => Solo(t, z.bvr, Live)
      case Yield(t) => Solo(t, t.ctx.Pc(), Live)
      case Exit(t) => Solo(t, t.ctx.Pc(), Exited)
      case Die(t, why) => Solo(t, z.bvr, Dead(why))
  }

  function SoloRun(env: Env, z: Solo, n: nat): Solo
    decreases n
  {
    if n == 0 then z else SoloRun(env, SoloStep(env, z), n - 1)
  }

  /** A thread waiting to be switched to: mismatch_run will arm its own pc. */
  function Waiting(t: Thread): Solo { Solo(t, t.ctx.Pc(), Live) }

  /// The system.

  datatype Phase = User | Finished | Halted(why: Why)

  /** `ring` is the current thread followed by the run queue. */
  datatype Sys = Sys(ring: seq<Thread>, bvr: Word, done: seq<Thread>, phase: Phase, uart: seq<(Word, Byte)>) {
    predicate Running() { phase == User && ring != [] }
  }

  /** Switches to the chosen member of the ring, or to its head if there is no such member. */
  function Dispatch(s: Sys, pick: nat): (s': Sys)
    requires s.ring != []
  {
    var i := if pick < |s.ring| then pick else 0;
    s.(ring := [s.ring[i]] + s.ring[..i] + s.ring[i + 1..], bvr := s.ring[i].ctx.Pc())
  }

  function Printed(t: Thread, t': Thread): seq<(Word, Byte)> {
    if |t'.out| == |t.out| + 1 then [(t.tid, t'.out[|t.out|])] else []
  }

  function SysStep(env: Env, s: Sys, pick: nat): Sys {
    if !s.Running() then s
    else match Step(env, s.ring[0], s.bvr)
      case Go(t) => s.(ring := s.ring[0 := t])
      case Yield(t) => Dispatch(s.(ring := s.ring[1..] + [t], uart := s.uart + Printed(s.ring[0], t)), pick)
      case Exit(t) =>
        var s' := s.(ring := s.ring[1..], done := s.done + [t]);
        if s'.ring == [] then s'.(phase := Finished) else Dispatch(s', pick)
      case Die(t, why) => s.(ring := s.ring[0 := t], phase := Halted(why))
  }

  function SysRun(env: Env, s: Sys, picks: seq<nat>): Sys
    decreases |picks|
  {
    if picks == [] then s else SysRun(env, SysStep(env, s, picks[0]), picks[1..])
  }

  /** How many of the events of a run belong to thread `tid`. */
  function EventsOf(env: Env, s: Sys, picks: seq<nat>, tid: Word): nat
    decreases |picks|
  {
    if picks == [] then 0
    else (if s.Running() && s.ring[0].tid == tid then 1 else 0)
         + EventsOf(env, SysStep(env, s, picks[0]), picks[1..], tid)
  }

  /** What equiv_run starts from. */
  function Boot(ring: seq<Thread>): Sys
    requires ring != []
  {
    Sys(ring, ring[0].ctx.Pc(), [], User, [])
  }

  /** The choices of the real scheduler. */
  function Zeros(n: nat): seq<nat> {
    seq(n, _ => 0)
  }
}

/** The user-level processor, seen as one deterministic step on a thread's own
    registers and private memory. */
module Cpu {
  import opened Words

  const REGS_SP := 13
  const REGS_LR := 14
  const REGS_PC := 15
  const REGS_CPSR := 16

  /** `regs_t`: r0 to r15 and the status register. */
  type Regs = s: seq<Word> | |s| == 17 witness seq(17, _ => 0)

  type Mem = map<Word, Byte>

  /** What a thread owns while it runs. */
  datatype Context = Context(regs: Regs, mem: Mem) {
    function Pc(): Word { regs[REGS_PC] }
  }

  /** Executing one instruction either completes, enters the kernel by `swi` (the
      saved pc is then the next instruction) or raises any other exception. */
  datatype Outcome = Next(ctx: Context) | Swi(ctx: Context) | Abort

  type Exec = Context -> Outcome

  /** Registers that are zero except for the ones a fresh run sets. */
  function FreshRegs(r0: Word, pc: Word, sp: Word, lr: Word, cpsr: Word): (r: Regs)
    ensures r[0] == r0 && r[REGS_PC] == pc && r[REGS_SP] == sp && r[REGS_LR] == lr && r[REGS_CPSR] == cpsr
    ensures forall i :: 0 < i < REGS_SP ==> r[i] == 0
  {
    [r0, 0, 0, 0, 0, 0, 0, 0, 0, 0, 0, 0, 0, sp, lr, pc, cpsr]
  }

  /** An unstepped run: each context is what executing the previous one gives. */
  ghost predicate Trajectory(exec: Exec, tr: seq<Context>) {
    |tr| > 0 && forall i :: 0 <= i < |tr| - 1 ==> exec(tr[i]) == Next(tr[i + 1])
  }

  /** The processor is deterministic: two runs from one context agree as far as both go. */
  lemma {:induction false} TrajectoryUnique(exec: Exec, a: seq<Context>, b: seq<Context>, i: nat)
    requires Trajectory(exec, a) && Trajectory(exec, b) && a[0] == b[0]
    requires i < |a| && i < |b|
    ensures a[i] == b[i]
  {
    if i > 0 {
      TrajectoryUnique(exec, a, b, i - 1);
      assert Next(a[i]) == exec(a[i - 1]) == Next(b[i]);
    }
  }
}

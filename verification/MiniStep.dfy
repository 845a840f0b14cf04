/** The single-step engine of `labs/14-ss-equiv-deux/code/mini-step.c`: the mismatch
    breakpoint faults on every user fetch whose pc differs from BVR0. */
module MiniStep {
  import opened Words
  import opened Cpu

  /// The stepped run as a state machine.

  datatype Phase = Running | Finished | Stuck

  /** `tr` is what was executed so far, its last context being the current one; `log` is
      the list of pcs the step handler was given. */
  datatype Stepper = Stepper(bvr: Word, log: seq<Word>, tr: seq<Context>, phase: Phase) {
    function Cur(): Context
      requires tr != []
    {
      tr[|tr| - 1]
    }
  }

  /** mismatch_on leaves BVR0 at 0. */
  function Start(ctx: Context): Stepper {
    Stepper(0, [], [ctx], Running)
  }

  /** One event: a prefetch abort handled by mismatch_fault, or one executed instruction. */
  function Tick(exec: Exec, ssOnExit: Word, m: Stepper): (m': Stepper)
    requires m.tr != []
    ensures m'.tr != []
  {
    if m.phase != Running then m
    else if m.Cur().Pc() != m.bvr then
      if m.Cur().Pc() == ssOnExit then m.(phase := Finished)
      else m.(bvr := m.Cur().Pc(), log := m.log + [m.Cur().Pc()])
    else match exec(m.Cur())
      case Next(ctx) => m.(tr := m.tr + [ctx])
      case _ => m.(phase := Stuck)
  }

  function Run(exec: Exec, ssOnExit: Word, m: Stepper, k: nat): (m': Stepper)
    requires m.tr != []
    ensures m'.tr != []
  {
    if k == 0 then m else Tick(exec, ssOnExit, Run(exec, ssOnExit, m, k - 1))
  }

  /// What the handler should see: the executed pcs without consecutive repeats.

  function Pcs(tr: seq<Context>): (p: seq<Word>)
    ensures |p| == |tr|
  {
    seq(|tr|, i requires 0 <= i < |tr| => tr[i].Pc())
  }

  /** `pcs` with every element dropped that equals the one before it, `prev` standing
      before the first. */
  function Collapse(prev: Word, pcs: seq<Word>): seq<Word>
    decreases |pcs|
  {
    if pcs == [] then []
    else if pcs[0] == prev then Collapse(prev, pcs[1..])
    else [pcs[0]] + Collapse(pcs[0], pcs[1..])
  }

  /** The same with nothing standing before the first. */
  function Dedup(pcs: seq<Word>): seq<Word> {
    if pcs == [] then [] else [pcs[0]] + Collapse(pcs[0], pcs[1..])
  }

  function LastOr(prev: Word, pcs: seq<Word>): Word {
    if pcs == [] then prev else pcs[|pcs| - 1]
  }

  lemma {:induction false} CollapseSnoc(prev: Word, pcs: seq<Word>, x: Word)
    ensures Collapse(prev, pcs + [x]) == Collapse(prev, pcs) + if x == LastOr(prev, pcs) then [] else [x]
    decreases |pcs|
  {
    if pcs == [] {
      assert pcs + [x] == [x];
      assert [x][1..] == [];
    } else {
      assert (pcs + [x])[1..] == pcs[1..] + [x];
      CollapseSnoc(pcs[0], pcs[1..], x);
    }
  }

  /** No two neighbours in the collapsed list are equal, and it starts with something
      other than `prev`. */
  lemma {:induction false} CollapseHasNoRepeats(prev: Word, pcs: seq<Word>)
    ensures var c := Collapse(prev, pcs);
      (c != [] ==> c[0] != prev) && forall i :: 0 < i < |c| ==> c[i - 1] != c[i]
    decreases |pcs|
  {
    if pcs != [] {
      CollapseHasNoRepeats(pcs[0], pcs[1..]);
    }
  }

  lemma {:induction false} FirstPcReported(pcs: seq<Word>)
    ensures Collapse(0, pcs) == Dedup(pcs) <==> pcs == [] || pcs[0] != 0
  {
  }

  /// Transparency.

  ghost predicate Tracks(exec: Exec, ssOnExit: Word, start: Context, m: Stepper) {
    && Trajectory(exec, m.tr) && m.tr[0] == start
    && m.bvr != ssOnExit
    && (forall i :: 0 <= i < |m.tr| - 1 ==> m.tr[i].Pc() != ssOnExit)
    && (var before := Pcs(m.tr[..|m.tr| - 1]);
        if m.phase != Finished && m.Cur().Pc() == m.bvr then m.log == Collapse(0, before + [m.bvr])
        else (m.log == Collapse(0, before) && m.bvr == LastOr(0, before)))
    && (m.phase == Finished ==> m.Cur().Pc() == ssOnExit)
    && (m.phase == Stuck ==> !exec(m.Cur()).Next?)
  }

  lemma TickTracks(exec: Exec, ssOnExit: Word, start: Context, m: Stepper)
    requires m.tr != [] && Tracks(exec, ssOnExit, start, m)
    ensures Tracks(exec, ssOnExit, start, Tick(exec, ssOnExit, m))
  {
    var m' := Tick(exec, ssOnExit, m);
    var before := Pcs(m.tr[..|m.tr| - 1]);
    var pc := m.Cur().Pc();
    if m.phase == Running && pc != m.bvr && pc != ssOnExit {
      CollapseSnoc(0, before, pc);
    } else if m.phase == Running && pc == m.bvr && exec(m.Cur()).Next? {
      assert m'.tr[..|m'.tr| - 1] == m.tr;
      assert Pcs(m.tr) == before + [pc];
      CollapseSnoc(0, before + [pc], m'.Cur().Pc());
    }
  }

  /** Single-stepping is transparent, for every program, terminating or not: after any
      number of events what was executed is a run of the unstepped code, and the handler
      was given its pcs in order with consecutive repeats collapsed. */
  lemma {:induction false} SteppingIsTransparent(exec: Exec, ssOnExit: Word, start: Context, k: nat)
    requires ssOnExit != 0
    ensures Tracks(exec, ssOnExit, start, Run(exec, ssOnExit, Start(start), k))
  {
    if k == 0 {
      CollapseSnoc(0, [], start.Pc());
      assert [] + [start.Pc()] == [start.Pc()];
    } else {
      SteppingIsTransparent(exec, ssOnExit, start, k - 1);
      TickTracks(exec, ssOnExit, start, Run(exec, ssOnExit, Start(start), k - 1));
    }
  }

  /** The pcs of the instructions that were executed or cleared for execution. */
  function Reached(m: Stepper): seq<Word>
    requires m.tr != []
  {
    Pcs(if m.phase != Finished && m.Cur().Pc() == m.bvr then m.tr else m.tr[..|m.tr| - 1])
  }

  /** At any moment of any run, terminating or not, the handler was given every one of those
      pcs, repeats collapsed, exactly when the code did not start at address 0. */
  lemma NothingMissedIff(exec: Exec, ssOnExit: Word, start: Context, k: nat)
    requires ssOnExit != 0
    ensures var m := Run(exec, ssOnExit, Start(start), k);
      m.log == Dedup(Reached(m)) <==> Reached(m) == [] || start.Pc() != 0
  {
    SteppingIsTransparent(exec, ssOnExit, start, k);
    var m := Run(exec, ssOnExit, Start(start), k);
    if m.phase != Finished && m.Cur().Pc() == m.bvr {
      assert Reached(m) == Pcs(m.tr[..|m.tr| - 1]) + [m.bvr];
    }
    FirstPcReported(Reached(m));
  }

  /** The unstepped code runs from `start` to its first arrival at ss_on_exit. */
  ghost predicate CompleteRun(exec: Exec, ssOnExit: Word, start: Context, tr: seq<Context>) {
    && Trajectory(exec, tr) && tr[0] == start
    && tr[|tr| - 1].Pc() == ssOnExit
    && forall i :: 0 <= i < |tr| - 1 ==> tr[i].Pc() != ssOnExit
  }

  function Armed(m: Stepper): nat
    requires m.tr != []
  {
    if m.Cur().Pc() == m.bvr then 1 else 0
  }

  /** While the run goes on it is inside `tr`, and every event moves it forward. */
  lemma {:induction false} Progress(exec: Exec, ssOnExit: Word, start: Context, tr: seq<Context>, k: nat)
    requires ssOnExit != 0 && CompleteRun(exec, ssOnExit, start, tr)
    ensures var m := Run(exec, ssOnExit, Start(start), k);
      && |m.tr| <= |tr| && m.tr == tr[..|m.tr|]
      && m.phase != Stuck
      && (m.phase == Finished ==> m.tr == tr)
      && (m.phase == Running ==> 2 * (|m.tr| - 1) + Armed(m) >= k)
  {
    hide Collapse, LastOr, Pcs;
    if k > 0 {
      Progress(exec, ssOnExit, start, tr, k - 1);
      SteppingIsTransparent(exec, ssOnExit, start, k - 1);
      var m := Run(exec, ssOnExit, Start(start), k - 1);
      assert m.Cur() == tr[|m.tr| - 1];
      if m.phase == Running && Armed(m) == 1 {
        assert |m.tr| < |tr|;
        assert exec(m.Cur()) == Next(tr[|m.tr|]);
        assert Tick(exec, ssOnExit, m).tr == tr[..|m.tr| + 1];
      } else if m.phase == Running && m.Cur().Pc() == ssOnExit {
        assert |m.tr| == |tr|;
      }
    }
  }

  /** What the engine's loop needs of the event after `k` others. */
  lemma NextEvent(exec: Exec, ssOnExit: Word, start: Context, tr: seq<Context>, k: nat)
    requires ssOnExit != 0 && CompleteRun(exec, ssOnExit, start, tr)
    ensures var m := Run(exec, ssOnExit, Start(start), k);
      m.phase == Running ==>
        && k <= 2 * |tr|
        && (Armed(m) == 1 ==> exec(m.Cur()).Next?)
        && Tick(exec, ssOnExit, m) == Run(exec, ssOnExit, Start(start), k + 1)
  {
    Progress(exec, ssOnExit, start, tr, k);
    Progress(exec, ssOnExit, start, tr, k + 1);
  }

  /** How the run ends. */
  lemma FinishedRun(exec: Exec, ssOnExit: Word, start: Context, tr: seq<Context>, k: nat)
    requires ssOnExit != 0 && CompleteRun(exec, ssOnExit, start, tr)
    requires Run(exec, ssOnExit, Start(start), k).phase == Finished
    ensures var m := Run(exec, ssOnExit, Start(start), k);
      && m.Cur() == tr[|tr| - 1] && m.log == Collapse(0, Pcs(tr[..|tr| - 1]))
      && (m.log == Dedup(Pcs(tr[..|tr| - 1])) <==> start.Pc() != 0)
  {
    Progress(exec, ssOnExit, start, tr, k);
    SteppingIsTransparent(exec, ssOnExit, start, k);
    FirstPcReported(Pcs(tr[..|tr| - 1]));
  }

  /** The stepped run finishes exactly when the unstepped one reaches ss_on_exit, with the
      same contexts. */
  lemma FinishesIffExits(exec: Exec, ssOnExit: Word, start: Context)
    requires ssOnExit != 0
    ensures (exists k: nat :: Run(exec, ssOnExit, Start(start), k).phase == Finished)
       <==> (exists tr :: CompleteRun(exec, ssOnExit, start, tr))
    ensures forall tr, k: nat ::
              CompleteRun(exec, ssOnExit, start, tr) && Run(exec, ssOnExit, Start(start), k).phase == Finished ==>
              Run(exec, ssOnExit, Start(start), k).tr == tr
  {
    if k: nat :| Run(exec, ssOnExit, Start(start), k).phase == Finished {
      SteppingIsTransparent(exec, ssOnExit, start, k);
      assert CompleteRun(exec, ssOnExit, start, Run(exec, ssOnExit, Start(start), k).tr);
    }
    if tr :| CompleteRun(exec, ssOnExit, start, tr) {
      Progress(exec, ssOnExit, start, tr, 2 * |tr|);
      assert Run(exec, ssOnExit, Start(start), 2 * |tr|).phase == Finished;
    }
    forall tr, k: nat | CompleteRun(exec, ssOnExit, start, tr)
      && Run(exec, ssOnExit, Start(start), k).phase == Finished
      ensures Run(exec, ssOnExit, Start(start), k).tr == tr
    {
      Progress(exec, ssOnExit, start, tr, k);
    }
  }

  /// The engine itself.

  /** The fields of BCR0 that the engine touches: bit 0, bits 1-2, bits 5-8, bits 14-15 and
      bits 20-22; `other` stands for the remaining bits. */
  datatype Bcr = Bcr(enable: bool, access: nat, bytes: nat, world: nat, meaning: nat, other: Word) {
    /** Enabled in either mode, on all four bytes of the word, as an unlinked mismatch. */
    predicate Mismatch() {
      enable && access == 3 && bytes == 15 && world == 0 && meaning == 4
    }
  }

  /** What mismatch_pc_set does to the bits of BCR0. */
  function ArmedBits(b: bv32): bv32 {
    (b & !(0x70_0000 as bv32) & !(0xc000 as bv32) & !(0x1e0 as bv32)) | 0x40_0000 | 0x1e0 | 0x7
  }

  /** They come out as the fields of `Mismatch`, and the others as they were. */
  lemma ArmedFields(b: bv32)
    ensures var a := ArmedBits(b);
      && a & 1 == 1 && (a >> 1) & 3 == 3 && (a >> 5) & 0xf == 0xf && (a >> 14) & 3 == 0 && (a >> 20) & 7 == 4
      && a & 0xff8f_3e18 == b & 0xff8f_3e18
  {
  }

  class Debug {
    var on: bool     // single_step_on_p
    var bcr0: Bcr
    var bvr0: Word

    /** BCR0 is armed exactly while stepping is on. */
    ghost predicate Valid()
      reads this
    {
      if on then bcr0.Mismatch() else !bcr0.enable
    }

    constructor ()
      ensures Valid() && !on
    {
      on, bcr0, bvr0 := false, Bcr(false, 0, 0, 0, 0, 0), 0;
    }

    /** Does a user-mode fetch at `pc` raise the prefetch abort? Bit 1 of the access field
        stands for user mode; meaning 4 is a mismatch and meaning 0 a match of the whole
        address; the other meanings look at the context, which is not set here, and security
        world 0 is either one. */
    predicate Faults(pc: Word)
      reads this
    {
      && bcr0.enable && bcr0.access / 2 % 2 == 1 && bcr0.bytes == 15 && bcr0.world == 0
      && (if bcr0.meaning == 4 then pc != bvr0 else bcr0.meaning == 0 && pc == bvr0)
    }

    method MismatchPcSet(pc: Word) returns (oldPc: Word)
      requires on
      modifies this`bcr0, this`bvr0
      ensures Valid()
      ensures oldPc == old(bvr0) && bvr0 == pc
      ensures forall at: Word :: Faults(at) <==> at != pc
      ensures bcr0.other == old(bcr0).other
    {
      oldPc := bvr0;
      bcr0 := bcr0.(meaning := 4, world := 0, bytes := 15, access := 3, enable := true);
      bvr0 := pc;
    }

    method MismatchOn()
      requires !on
      modifies this
      ensures Valid() && on && bvr0 == 0
      ensures forall at: Word :: Faults(at) <==> at != 0
    {
      on := true;
      var _ := MismatchPcSet(0);
    }

    method MismatchOff()
      requires on
      modifies this`on, this`bcr0
      ensures Valid() && !on
      ensures bcr0 == old(bcr0).(enable := false)
    {
      on := false;
      bcr0 := bcr0.(enable := false);
    }

    /** Runs `fn` under single step; `log` is what the step handler is given and `last`
        where the run ends. `tr` is the run the same code has without stepping. The handler
        misses nothing exactly when `fn` is not 0. The argument `arg` is never used, so the
        start is that of `fn(arg)` exactly when it is 0; and neither is the final r0, so the
        result is what the code left there exactly when that is 0. */
    method MiniStepRun(exec: Exec, ssOnExit: Word, fn: Word, arg: Word, sp: Word, cpsr: Word, mem: Mem,
                       ghost tr: seq<Context>)
      returns (ret: Word, last: Context, log: seq<Word>)
      requires Valid() && !on && ssOnExit != 0
      requires CompleteRun(exec, ssOnExit, Context(FreshRegs(0, fn, sp, ssOnExit, cpsr), mem), tr)
      modifies this
      ensures Valid() && !on
      ensures last == tr[|tr| - 1]
      ensures log == Collapse(0, Pcs(tr[..|tr| - 1]))
      ensures log == Dedup(Pcs(tr[..|tr| - 1])) <==> fn != 0
      ensures tr[0].regs == FreshRegs(arg, fn, sp, ssOnExit, cpsr) <==> arg == 0
      ensures ret == 0 && (ret == last.regs[0] <==> tr[|tr| - 1].regs[0] == 0)
    {
      var r := FreshRegs(0, fn, sp, ssOnExit, cpsr);
      MismatchOn();
      last, log := Context(r, mem), [];
      ghost var k, start := 0, last;
      ghost var m := Start(start);
      var done := false;
      while !done
        invariant Valid() && on
        invariant m == Run(exec, ssOnExit, Start(start), k)
        invariant last == m.Cur() && log == m.log && bvr0 == m.bvr
        invariant m.phase == if done then Finished else Running
        decreases !done, 2 * |tr| - k
      {
        NextEvent(exec, ssOnExit, start, tr, k);
        if Faults(last.Pc()) {
          var pc := last.Pc();
          if pc == ssOnExit {
            done := true;
          } else {
            log := log + [pc];
            var _ := MismatchPcSet(pc);
          }
        } else {
          last := exec(last).ctx;
        }
        k, m := k + 1, Tick(exec, ssOnExit, m);
      }
      FinishedRun(exec, ssOnExit, start, tr, k);
      MismatchOff();
      ret := r[0];
    }
  }
}

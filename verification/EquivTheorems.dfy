/** What the equivalence check promises: the hash comparison at exit fails exactly when an
    expected hash is not the one of the solo run; plus output, hash contents and fairness. */
module EquivTheorems {
  import opened Words
  import opened Cpu
  import opened EquivSpec
  import opened EquivProofs

  /// The verdict at exit.

  function WithExpected(z: Solo, e: Word): Solo {
    z.(t := z.t.(expected := e))
  }

  /** The solo run from `z`, made with no expected hash, exits with its event `n`. */
  ghost predicate ExitsAt(env: Env, z: Solo, n: nat) {
    z.t.expected == 0 && StopsAt(env, z, n) && SoloRun(env, z, n).st == Exited
  }

  /** The expected hash is looked at only at exit: until then it changes nothing, and there
      it decides between the same exit and the mismatch panic. */
  lemma {:induction false} ExpectedOnlyDecidesExit(env: Env, z: Solo, e: Word, n: nat)
    requires ExitsAt(env, z, n)
    ensures StopsAt(env, WithExpected(z, e), n)
    ensures var hash := SoloRun(env, z, n).t.hash;
      if e == 0 || e == hash then SoloRun(env, WithExpected(z, e), n) == SoloRun(env, z, n)
      else SoloRun(env, WithExpected(z, e), n).st == Dead(HashMismatch)
    decreases n
  {
    var z' := SoloStep(env, z);
    ExitIsLast(env, z, n);
    if z'.st == Live {
      assert SoloStep(env, WithExpected(z, e)) == WithExpected(z', e);
      ExpectedOnlyDecidesExit(env, z', e, n - 1);
    }
  }

  lemma ExitIsLast(env: Env, z: Solo, n: nat)
    requires ExitsAt(env, z, n)
    ensures n > 0 && z.st == Live
    ensures SoloStep(env, z).st == Live ==> ExitsAt(env, SoloStep(env, z), n - 1)
    ensures SoloStep(env, z).st != Live ==> n == 1 && SoloStep(env, z) == SoloRun(env, z, n)
  {
  }

  lemma {:induction false} SoloStuck(env: Env, z: Solo, n: nat)
    requires z.st != Live
    ensures SoloRun(env, z, n) == z
    decreases n
  {
    if n > 0 {
      SoloStuck(env, z, n - 1);
    }
  }

  /** A solo run has one end: whenever it is not live it is where it stopped. */
  lemma {:induction false} OneEnd(env: Env, z: Solo, n: nat, k: nat)
    requires StopsAt(env, z, n)
    ensures SoloRun(env, z, n).st != Live
    ensures SoloRun(env, z, k).st != Live ==> SoloRun(env, z, k) == SoloRun(env, z, n)
    decreases n
  {
    var z' := SoloStep(env, z);
    if z'.st == Live {
      OneEnd(env, z', n - 1, if k > 0 then k - 1 else 0);
    } else {
      if k > 0 {
        SoloStuck(env, z', k - 1);
      }
    }
  }

  /** Thread `t` exits alone after `n` events, if it is not told what hash to expect. */
  ghost predicate ExitsAlone(env: Env, t: Thread, n: nat) {
    ExitsAt(env, WithExpected(Waiting(t), 0), n)
  }

  /** The hash the thread has when it exits alone. */
  ghost function SoloHash(env: Env, t: Thread, n: nat): Word {
    SoloRun(env, WithExpected(Waiting(t), 0), n).t.hash
  }

  ghost predicate Expects(env: Env, t: Thread, n: nat) {
    t.expected == 0 || t.expected == SoloHash(env, t, n)
  }

  lemma BootSane(ring: seq<Thread>)
    requires ring != [] && forall i, j :: 0 <= i < j < |ring| ==> ring[i].tid != ring[j].tid
    ensures Sane(Boot(ring))
    ensures forall i: nat :: i < |ring| ==> RingView(Boot(ring), i) == Waiting(ring[i]) && Holds(Boot(ring), Waiting(ring[i]))
  {
    NoRepeats(Tids(ring));
    assert Tids([]) == [];
    forall i: nat | i < |ring|
      ensures RingView(Boot(ring), i) == Waiting(ring[i]) && Holds(Boot(ring), Waiting(ring[i])) {
      assert RingView(Boot(ring), i) == Waiting(ring[i]);
    }
  }

  lemma {:induction false} NoRepeats(q: seq<Word>)
    requires forall i, j :: 0 <= i < j < |q| ==> q[i] != q[j]
    ensures forall x: Word :: multiset(q)[x] <= 1
    decreases |q|
  {
    if q != [] {
      NoRepeats(q[1..]);
      assert q == [q[0]] + q[1..];
      assert q[0] !in q[1..];
    }
  }

  lemma SoloEnds(env: Env, t: Thread, n: nat)
    requires ExitsAlone(env, t, n)
    ensures StopsAt(env, Waiting(t), n)
    ensures Expects(env, t, n) ==> SoloRun(env, Waiting(t), n) == SoloRun(env, WithExpected(Waiting(t), 0), n)
    ensures !Expects(env, t, n) ==> SoloRun(env, Waiting(t), n).st == Dead(HashMismatch)
  {
    assert WithExpected(WithExpected(Waiting(t), 0), t.expected) == Waiting(t);
    ExpectedOnlyDecidesExit(env, WithExpected(Waiting(t), 0), t.expected, n);
  }

  /** The whole check. Take any programs that exit when run alone, any hash, any order of
      the run queue and any choices of the scheduler. Once the run is over, it ended with
      every thread having exited (not with the mismatch panic, the only other way) if and
      only if every thread's expected hash is unset or the one of its solo run. */
  lemma HashCheckIsExact(env: Env, ring: seq<Thread>, ns: seq<nat>, picks: seq<nat>)
    requires ring != [] && forall i, j :: 0 <= i < j < |ring| ==> ring[i].tid != ring[j].tid
    requires |ns| == |ring| && forall i: nat :: i < |ring| ==> ExitsAlone(env, ring[i], ns[i])
    requires SysRun(env, Boot(ring), picks).phase != User
    ensures var s := SysRun(env, Boot(ring), picks);
      && s.phase in {Finished, Halted(HashMismatch)}
      && (s.phase == Finished <==> forall i: nat :: i < |ring| ==> Expects(env, ring[i], ns[i]))
  {
    var s := SysRun(env, Boot(ring), picks);
    BootSane(ring);
    NonInterference(env, Boot(ring), picks, RingView(Boot(ring), 0));
    if s.phase == Finished {
      forall i: nat | i < |ring| ensures Expects(env, ring[i], ns[i]) {
        FinishedMeansExited(env, ring, ns, picks, i);
      }
    } else {
      HaltedMeansMismatch(env, ring, ns, picks);
    }
  }

  /** And the run is over as soon as it had as many events as the solo runs together. */
  lemma EveryRunEnds(env: Env, ring: seq<Thread>, ns: seq<nat>, picks: seq<nat>)
    requires ring != []
    requires |ns| == |ring| && forall i: nat :: i < |ring| ==> ExitsAlone(env, ring[i], ns[i])
    requires |picks| >= Sum(ns)
    ensures Needs(env, Boot(ring), ns) && SysRun(env, Boot(ring), picks).phase != User
  {
    BootNeeds(env, ring, ns);
    RunStops(env, Boot(ring), picks, ns);
  }

  lemma BootNeeds(env: Env, ring: seq<Thread>, ns: seq<nat>)
    requires ring != []
    requires |ns| == |ring| && forall i: nat :: i < |ring| ==> ExitsAlone(env, ring[i], ns[i])
    ensures Needs(env, Boot(ring), ns)
  {
    forall i: nat | i < |ring| ensures StopsAt(env, RingView(Boot(ring), i), ns[i]) {
      SoloEnds(env, ring[i], ns[i]);
      assert RingView(Boot(ring), i) == Waiting(ring[i]);
    }
  }

  /** In a finished run every thread ended exactly as it ends alone. */
  lemma FinishedMeansExited(env: Env, ring: seq<Thread>, ns: seq<nat>, picks: seq<nat>, i: nat)
    requires ring != [] && forall i, j :: 0 <= i < j < |ring| ==> ring[i].tid != ring[j].tid
    requires |ns| == |ring| && i < |ring| && ExitsAlone(env, ring[i], ns[i])
    requires SysRun(env, Boot(ring), picks).phase == Finished
    ensures Expects(env, ring[i], ns[i])
    ensures SoloRun(env, WithExpected(Waiting(ring[i]), 0), ns[i]).t in SysRun(env, Boot(ring), picks).done
  {
    var b, z := Boot(ring), Waiting(ring[i]);
    var s := SysRun(env, b, picks);
    BootSane(ring);
    NonInterference(env, b, picks, z);
    var k := EventsOf(env, b, picks, z.t.tid);
    SoloEnds(env, ring[i], ns[i]);
    var j: nat :| j < |s.done| && SoloRun(env, z, k) == DoneView(s.done[j]);
    OneEnd(env, z, ns[i], k);
    assert s.done[j] == SoloRun(env, z, k).t;
  }

  lemma HaltedMeansMismatch(env: Env, ring: seq<Thread>, ns: seq<nat>, picks: seq<nat>)
    requires ring != [] && forall i, j :: 0 <= i < j < |ring| ==> ring[i].tid != ring[j].tid
    requires |ns| == |ring| && forall i: nat :: i < |ring| ==> ExitsAlone(env, ring[i], ns[i])
    requires var s := SysRun(env, Boot(ring), picks); s.phase.Halted? && Sane(s)
    ensures SysRun(env, Boot(ring), picks).phase == Halted(HashMismatch)
    ensures exists i: nat :: i < |ring| && !Expects(env, ring[i], ns[i])
  {
    var b := Boot(ring);
    var s := SysRun(env, b, picks);
    BootSane(ring);
    var z := NothingElseHeld(env, b, picks, RingView(s, 0));
    var i := PlaceOf(b, z);
    SoloEnds(env, ring[i], ns[i]);
    OneEnd(env, z, ns[i], EventsOf(env, b, picks, z.t.tid));
  }

  /// Output.

  /** What thread `tid` put on the UART. */
  function Heard(uart: seq<(Word, Byte)>, tid: Word): seq<Byte> {
    if uart == [] then []
    else Heard(uart[..|uart| - 1], tid) + if uart[|uart| - 1].0 == tid then [uart[|uart| - 1].1] else []
  }

  lemma OutputStep(env: Env, s: Sys, pick: nat, z: Solo)
    requires Sane(s) && Holds(s, z) && Heard(s.uart, z.t.tid) == z.t.out
    ensures Heard(SysStep(env, s, pick).uart, z.t.tid) == Share(env, s, z).t.out
  {
    hide Distinct, Tids;
    if s.Running() {
      if z.t.tid == s.ring[0].tid {
        HoldsUnique(s, z, RingView(s, 0));
      }
      var e := Step(env, s.ring[0], s.bvr);
      if e.Yield? && Printed(s.ring[0], e.t) != [] {
        var x := Printed(s.ring[0], e.t)[0];
        assert (s.uart + [x])[..|s.uart|] == s.uart;
        assert e.t.out == s.ring[0].out + [x.1];
      } else if e.Yield? {
        assert s.uart + [] == s.uart;
      }
    }
  }

  /** However the outputs of the threads are mixed, each thread's part of the UART stream is
      what it prints alone. */
  lemma {:induction false} OutputIsSoloOutput(env: Env, s: Sys, picks: seq<nat>, z: Solo)
    requires Sane(s) && Holds(s, z) && Heard(s.uart, z.t.tid) == z.t.out
    ensures Heard(SysRun(env, s, picks).uart, z.t.tid)
         == SoloRun(env, z, EventsOf(env, s, picks, z.t.tid)).t.out
    decreases |picks|
  {
    if picks != [] {
      StepIsSoloStep(env, s, picks[0], z);
      StepKeepsSane(env, s, picks[0]);
      ShareCounts(env, s, picks, z);
      OutputStep(env, s, picks[0], z);
      OutputIsSoloOutput(env, SysStep(env, s, picks[0]), picks[1..], Share(env, s, z));
    }
  }

  /// What the hash covers.

  function Fold(env: Env, snaps: seq<Regs>): Word {
    if snaps == [] then 0 else env.hash(snaps[|snaps| - 1], Fold(env, snaps[..|snaps| - 1]))
  }

  /** The hash is the fold of the snapshots, and the instruction count is their number. */
  ghost predicate Hashed(env: Env, t: Thread) {
    t.hash == Fold(env, t.snaps) && t.instCnt == |t.snaps| % TWO32
  }

  lemma {:induction false} HashIsFold(env: Env, z: Solo, n: nat)
    requires Hashed(env, z.t)
    ensures Hashed(env, SoloRun(env, z, n).t)
    decreases n
  {
    if n > 0 {
      var z' := SoloStep(env, z);
      if z'.t.snaps != z.t.snaps {
        assert z'.t.snaps == z.t.snaps + [z.t.ctx.regs];
        assert z'.t.snaps[..|z.t.snaps|] == z.t.snaps;
      }
      HashIsFold(env, z', n - 1);
    }
  }

  /** The register blocks at every change of pc along a run; not at its first instruction. */
  function Changes(tr: seq<Context>): seq<Regs> {
    if |tr| <= 1 then []
    else Changes(tr[..|tr| - 1])
         + if tr[|tr| - 1].Pc() == tr[|tr| - 2].Pc() then [] else [tr[|tr| - 1].regs]
  }

  lemma {:induction false} SoloRunAdd(env: Env, z: Solo, a: nat, b: nat)
    ensures SoloRun(env, z, a + b) == SoloRun(env, SoloRun(env, z, a), b)
    decreases a
  {
    if a > 0 {
      SoloRunAdd(env, SoloStep(env, z), a - 1, b);
    }
  }

  /** Along a stretch of code without system calls, a thread that is switched to executes
      the unstepped run, and its hash takes in the registers at every instruction except
      the first one and except repeats of one pc. The same holds again after a putc. */
  lemma {:induction false} StretchSnapshots(env: Env, t: Thread, tr: seq<Context>)
    requires Trajectory(env.exec, tr) && tr[0] == t.ctx
    requires forall i :: 0 <= i < |tr| ==> tr[i].Pc() != env.ssOnExit
    ensures var z := SoloRun(env, Waiting(t), |tr| - 1 + |Changes(tr)|);
      && z.st == Live && z.t.ctx == tr[|tr| - 1] && z.bvr == z.t.ctx.Pc()
      && z.t.snaps == t.snaps + Changes(tr) && z.t.out == t.out
    decreases |tr|
  {
    if |tr| > 1 {
      var before := tr[..|tr| - 1];
      StretchSnapshots(env, t, before);
      var n := |before| - 1 + |Changes(before)|;
      var z := SoloRun(env, Waiting(t), n);
      assert env.exec(before[|before| - 1]) == Next(tr[|tr| - 1]);
      var z' := SoloStep(env, z);
      assert z' == Solo(z.t.(ctx := tr[|tr| - 1]), z.bvr, Live);
      SoloRunAdd(env, Waiting(t), n, 1);
      SoloRunAdd(env, Waiting(t), n + 1, 1);
      assert SoloRun(env, z, 1) == z' && SoloRun(env, z', 1) == SoloStep(env, z');
    }
  }

  /** A putc prints, takes no snapshot, and leaves the thread as one waiting to be switched
      to, so that StretchSnapshots applies from there. */
  lemma PutcRestarts(env: Env, z: Solo, ctx: Context)
    requires z.st == Live && z.bvr == z.t.ctx.Pc() && env.exec(z.t.ctx) == Swi(ctx)
    requires ctx.regs[0] == EQUIV_PUTC && z.t.stackStart <= ctx.regs[REGS_SP] <= z.t.stackEnd
    ensures SoloStep(env, z) == Waiting(z.t.(ctx := ctx, out := z.t.out + [ctx.regs[1] % 256]))
  {
  }

  /// The other events of a thread, each from what the processor does.

  /** The processor ran `swi` with the mismatch register on this very instruction. */
  ghost predicate Calls(env: Env, z: Solo, ctx: Context) {
    z.st == Live && z.bvr == z.t.ctx.Pc() && env.exec(z.t.ctx) == Swi(ctx)
  }

  /** Call 0 exits, whatever the exit code in r1, exactly when no hash is expected or the
      expected one was computed; the thread then keeps its final registers, and all else it
      did, and expects its own hash from now on. Otherwise it is the mismatch panic. */
  lemma ExitExits(env: Env, z: Solo, ctx: Context)
    requires Calls(env, z, ctx) && ctx.regs[0] == 0
    requires z.t.stackStart <= ctx.regs[13] <= z.t.stackEnd
    ensures var z' := SoloStep(env, z);
      && (z'.st == Exited <==> z.t.expected == 0 || z.t.expected == z.t.hash)
      && (z'.st == Exited ==> z'.t == z.t.(ctx := ctx, expected := z.t.hash))
      && (z'.st != Exited ==> z'.st == Dead(HashMismatch))
  {
  }

  /** A system call is answered exactly when the stack pointer is in the stack and the number is
      0 or 1 (and the hash is right); each of the panics has its own cause. */
  lemma CallPanics(env: Env, z: Solo, ctx: Context)
    requires Calls(env, z, ctx)
    ensures var st, sp := SoloStep(env, z).st, ctx.regs[13];
      && (st == Dead(StackTooSmall) <==> sp < z.t.stackStart)
      && (st == Dead(StackTooHigh) <==> sp >= z.t.stackStart && sp > z.t.stackEnd)
      && (st == Dead(BadSyscall) <==> z.t.stackStart <= sp <= z.t.stackEnd && ctx.regs[0] > 1)
      && st != Dead(Exception) && st != Dead(LeftToMiniStep)
  {
  }

  /** Any other instruction just runs, and any other exception is a panic. */
  lemma InstructionRuns(env: Env, z: Solo)
    requires z.st == Live && z.bvr == z.t.ctx.Pc()
    ensures match env.exec(z.t.ctx)
      case Next(ctx) => SoloStep(env, z) == z.(t := z.t.(ctx := ctx))
      case Swi(_) => true
      case Abort => SoloStep(env, z).st == Dead(Exception)
  {
  }

  /** A fetch elsewhere than at the mismatch register is hashed and counted and waits for its
      turn, but at ss_on_exit it leaves the scheduler. */
  lemma FaultIsHashed(env: Env, z: Solo)
    requires z.st == Live && z.bvr != z.t.ctx.regs[15]
    ensures SoloStep(env, z) ==
      if z.t.ctx.regs[15] == env.ssOnExit then z.(st := Dead(LeftToMiniStep))
      else Waiting(z.t.(hash := env.hash(z.t.ctx.regs, z.t.hash), instCnt := (z.t.instCnt + 1) % 0x1_0000_0000,
                        snaps := z.t.snaps + [z.t.ctx.regs]))
  {
  }

  /** A forked or refreshed thread: argument, entry, stack and return address in their
      registers, zero in the others, nothing hashed or printed, everything else kept. */
  lemma RefreshedStarts(env: Env, t: Thread, mem: Mem)
    ensures var t', r := Refreshed(env, t, mem), Refreshed(env, t, mem).ctx.regs;
      && r[0] == t.arg && r[13] == t.stackEnd && r[14] == env.equivExit && r[15] == t.fn && r[16] == env.cpsr
      && (forall i :: 1 <= i <= 12 ==> r[i] == 0) && t'.ctx.mem == mem
      && t'.hash == 0 && t'.instCnt == 0 && t'.snaps == [] && t'.out == []
      && t'.(ctx := t.ctx, hash := t.hash, instCnt := t.instCnt, snaps := t.snaps, out := t.out) == t
  {
  }

  /// Fairness of the real scheduler, which always picks the head of the run queue.

  /** The threads switched to, in order, during the next `n` events. */
  function Switches(env: Env, s: Sys, n: nat): seq<Word>
    decreases n
  {
    if n == 0 || !s.Running() then []
    else
      var s' := SysStep(env, s, 0);
      (if Step(env, s.ring[0], s.bvr).Go? || !s'.Running() then [] else [s'.ring[0].tid]) + Switches(env, s', n - 1)
  }

  lemma NextRing(env: Env, s: Sys)
    requires s.Running()
    ensures var e, s' := Step(env, s.ring[0], s.bvr), SysStep(env, s, 0);
      && e.t.tid == s.ring[0].tid
      && (e.Go? ==> s'.ring == s.ring[0 := e.t])
      && (e.Yield? ==> s'.ring == s.ring[1..] + [e.t] && s'.Running())
      && (e.Exit? ==> s'.ring == s.ring[1..])
      && (e.Die? ==> !s'.Running())
  {
  }

  /** The queue is served in order: the next switches go to its members, one after another,
      whatever the threads do meanwhile. */
  lemma {:induction false} ServedInOrder(env: Env, s: Sys, n: nat, i: nat)
    requires i < |Switches(env, s, n)| && i + 1 < |s.ring|
    ensures Switches(env, s, n)[i] == s.ring[i + 1].tid
    decreases n
  {
    hide Step, SysStep;
    NextRing(env, s);
    var s' := SysStep(env, s, 0);
    var rest := Switches(env, s', n - 1);
    if Step(env, s.ring[0], s.bvr).Go? {
      assert Switches(env, s, n) == rest;
      ServedInOrder(env, s', n - 1, i);
    } else if s'.Running() {
      assert Switches(env, s, n) == [s'.ring[0].tid] + rest;
      assert s'.ring[i] == s.ring[i + 1];
      if i > 0 {
        ServedInOrder(env, s', n - 1, i - 1);
      }
    }
  }

  /** Round robin: when a thread gives up the processor, the next switches go to each member
      of the run queue exactly once, in order, and the one after them comes back to it. */
  lemma RoundRobin(env: Env, s: Sys, n: nat, i: nat)
    requires s.Running() && Step(env, s.ring[0], s.bvr).Yield?
    requires i < |Switches(env, s, n)| && i < |s.ring|
    ensures Switches(env, s, n)[i] == if i + 1 < |s.ring| then s.ring[i + 1].tid else s.ring[0].tid
  {
    hide Step, SysStep;
    NextRing(env, s);
    if i + 1 < |s.ring| {
      ServedInOrder(env, s, n, i);
    } else {
      NextRing(env, s);
      var s' := SysStep(env, s, 0);
      assert Switches(env, s, n) == [s'.ring[0].tid] + Switches(env, s', n - 1);
      assert s'.ring[i].tid == s.ring[0].tid;
      if i > 0 {
        ServedInOrder(env, s', n - 1, i - 1);
      }
    }
  }
}

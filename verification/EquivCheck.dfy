/** The check on the thread objects of one run, and what a solo run and equiv_refresh make of
    a thread. */
module EquivCheck {
  import opened Words
  import opened Cpu
  import opened IntrusiveQueue
  import opened EquivSpec
  import opened EquivProofs
  import opened EquivTheorems
  import EquivThreads

  /** A thread keeps what it was made with. */
  lemma {:induction false} SoloKeepsIdentity(env: Env, z: Solo, n: nat)
    ensures var t, t' := z.t, SoloRun(env, z, n).t;
      t'.tid == t.tid && t'.fn == t.fn && t'.arg == t.arg && t'.stackStart == t.stackStart && t'.stackEnd == t.stackEnd
    decreases n
  {
    if n > 0 {
      SoloKeepsIdentity(env, SoloStep(env, z), n - 1);
    }
  }

  /** Calibration: a fresh thread without an expected hash runs alone to its exit; after
      equiv_refresh, on the same memory, it is the fresh thread again except that it now
      expects the right hash. */
  lemma CalibratedThreadExpectsItsHash(env: Env, t: Thread, n: nat, mem: Mem)
    requires t == Refreshed(env, t, mem) && t.expected == 0 && ExitsAlone(env, t, n)
    ensures var again := Refreshed(env, SoloRun(env, Waiting(t), n).t, mem);
      && again == t.(expected := SoloHash(env, t, n))
      && ExitsAlone(env, again, n) && Expects(env, again, n)
  {
    assert WithExpected(Waiting(t), 0) == Waiting(t);
    SoloKeepsIdentity(env, Waiting(t), n);
    ExitSetsExpected(env, Waiting(t), n);
    assert WithExpected(Waiting(t.(expected := SoloHash(env, t, n))), 0) == Waiting(t);
  }

  lemma {:induction false} ExitSetsExpected(env: Env, z: Solo, n: nat)
    requires ExitsAt(env, z, n)
    ensures SoloRun(env, z, n).t.expected == SoloRun(env, z, n).t.hash
    decreases n
  {
    ExitIsLast(env, z, n);
    if SoloStep(env, z).st == Live {
      ExitSetsExpected(env, SoloStep(env, z), n - 1);
    }
  }

  /** How thread `t` exits when run alone. */
  ghost function SoloEnd(env: Env, t: Thread, n: nat): Thread {
    SoloRun(env, WithExpected(Waiting(t), 0), n).t
  }

  lemma EndsByName(env: Env, ring: seq<Thread>, ns: seq<nat>, picks: seq<nat>, i: nat) returns (j: nat)
    requires ring != [] && forall i, j :: 0 <= i < j < |ring| ==> ring[i].tid != ring[j].tid
    requires |ns| == |ring| && i < |ring| && ExitsAlone(env, ring[i], ns[i])
    requires SysRun(env, Boot(ring), picks).phase == EquivSpec.Finished
    ensures var done := SysRun(env, Boot(ring), picks).done;
      j < |done| && done[j] == SoloEnd(env, ring[i], ns[i]) && done[j].tid == ring[i].tid
  {
    FinishedMeansExited(env, ring, ns, picks, i);
    SoloKeepsTid(env, WithExpected(Waiting(ring[i]), 0), ns[i]);
    j :| j < |SysRun(env, Boot(ring), picks).done|
      && SysRun(env, Boot(ring), picks).done[j] == SoloEnd(env, ring[i], ns[i]);
  }

  /** equiv_run on threads that exit when run alone: it comes back, with an empty run queue
      and stepping off and every thread object as its solo run leaves it, if and only if
      every expected hash is unset or right; otherwise the kernel panics at a mismatch. */
  method CheckedRun(k: EquivThreads.Kernel, ghost ring: seq<Thread>, ghost ns: seq<nat>)
    requires k.Valid() && !k.dbg.on && k.phase == EquivSpec.Finished && k.runq.spine != []
    requires ring == Payloads(k.runq.spine)
    requires forall i, j :: 0 <= i < j < |ring| ==> ring[i].tid != ring[j].tid
    requires |ns| == |ring| && forall i: nat :: i < |ring| ==> ExitsAlone(k.env, ring[i], ns[i])
    modifies k, k.dbg, k.runq, k.runq.spine
    ensures k.Valid() && k.ntids == old(k.ntids)
    ensures k.phase == EquivSpec.Finished <==> forall i: nat :: i < |ring| ==> Expects(k.env, ring[i], ns[i])
    ensures k.phase != EquivSpec.Finished ==> k.phase == Halted(HashMismatch)
    ensures k.phase == EquivSpec.Finished ==> k.runq.spine == [] && !k.dbg.on
    ensures k.phase == EquivSpec.Finished ==>
      forall i: nat :: i < |ring| ==> old(k.runq.spine)[i].d == SoloEnd(k.env, ring[i], ns[i])
  {
    hide ExitsAlone, SoloEnd, SysRun, Needs, Sum, Zeros, Expects;
    ghost var nodes := k.runq.spine;
    BootNeeds(k.env, ring, ns);
    var ok, final, n := k.EquivRun(ns);
    HashCheckIsExact(k.env, ring, ns, Zeros(n));
    if k.phase == EquivSpec.Finished {
      forall i: nat | i < |ring| ensures nodes[i].d == SoloEnd(k.env, ring[i], ns[i]) {
        var j := EndsByName(k.env, ring, ns, Zeros(n), i);
        assert k.exited[j].d == final.done[j];
        assert k.exited[j] in k.pool && nodes[i] in k.pool;
        assert nodes[i].d.tid == ring[i].tid;
        assert k.exited[j] == nodes[i];
      }
    }
  }
}

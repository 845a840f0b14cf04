/** How the checks are used (`labs/14-ss-equiv-deux/code/10-equiv-test.c`): every thread runs
    alone first, which teaches it its hash, and then all are refreshed and run together. */
module EquivClient {
  import opened Words
  import opened Cpu
  import opened IntrusiveQueue
  import opened EquivSpec
  import opened EquivProofs
  import opened EquivTheorems
  import opened EquivCheck
  import opened EquivThreads

  /** A thread as it was forked without an expected hash, that exits alone after `n` events. */
  ghost predicate Fresh(env: Env, t: Thread, mem: Mem, n: nat) {
    t == Refreshed(env, t, mem) && t.expected == 0 && t.stackStart <= t.stackEnd && ExitsAlone(env, t, n)
  }

  /** That thread after its solo run and equiv_refresh on the same memory. */
  ghost function Calibrated(env: Env, t: Thread, mem: Mem, n: nat): Thread {
    Refreshed(env, SoloEnd(env, t, n), mem)
  }

  lemma CalibratedExits(env: Env, t: Thread, mem: Mem, n: nat)
    requires Fresh(env, t, mem, n)
    ensures var again := Calibrated(env, t, mem, n);
      && ExitsAlone(env, again, n) && Expects(env, again, n) && SoloEnd(env, again, n) == SoloEnd(env, t, n)
      && again.tid == t.tid
    ensures SoloEnd(env, t, n).stackStart <= SoloEnd(env, t, n).stackEnd
    ensures Calibrated(env, t, mem, n) == Refreshed(env, SoloEnd(env, t, n), mem)
  {
    hide SoloRun, Refreshed, StopsAt;
    assert WithExpected(Waiting(t), 0) == Waiting(t);
    CalibratedThreadExpectsItsHash(env, t, n, mem);
    SoloKeepsIdentity(env, Waiting(t), n);
    assert WithExpected(Waiting(t.(expected := SoloHash(env, t, n))), 0) == Waiting(t);
  }

  /** No false alarm: threads that were calibrated alone and refreshed, in any order on the run
      queue and under any choices of the scheduler, never reach the mismatch panic or any
      other, and all exit after as many events as their solo runs had together. */
  lemma CalibratedRunsMatch(env: Env, ring: seq<Thread>, mems: seq<Mem>, ns: seq<nat>, picks: seq<nat>)
    requires ring != [] && |mems| == |ring| == |ns|
    requires forall i: nat :: i < |ring| ==> Fresh(env, ring[i], mems[i], ns[i])
    requires forall i, j :: 0 <= i < j < |ring| ==> ring[i].tid != ring[j].tid
    ensures var again := seq(|ring|, i requires 0 <= i < |ring| => Calibrated(env, ring[i], mems[i], ns[i]));
      var s := SysRun(env, Boot(again), picks);
      && s.phase in {User, Finished}
      && (|picks| >= Sum(ns) ==> s.phase == Finished)
      && (s.phase == Finished ==> forall i: nat :: i < |ring| ==> SoloEnd(env, ring[i], ns[i]) in s.done)
  {
    var again := seq(|ring|, i requires 0 <= i < |ring| => Calibrated(env, ring[i], mems[i], ns[i]));
    hide Calibrated, Fresh, ExitsAlone, Expects, SysRun, SoloRun, Sum;
    forall i: nat | i < |ring|
      ensures ExitsAlone(env, again[i], ns[i]) && Expects(env, again[i], ns[i])
      ensures again[i].tid == ring[i].tid && SoloEnd(env, again[i], ns[i]) == SoloEnd(env, ring[i], ns[i])
    {
      CalibratedExits(env, ring[i], mems[i], ns[i]);
    }
    var s := SysRun(env, Boot(again), picks);
    if s.phase != User {
      HashCheckIsExact(env, again, ns, picks);
      forall i: nat | i < |ring| ensures SoloEnd(env, ring[i], ns[i]) in s.done {
        FinishedMeansExited(env, again, ns, picks, i);
      }
    }
    if |picks| >= Sum(ns) {
      EveryRunEnds(env, again, ns, picks);
    }
  }

  /// The client's calls.

  /** What a client forks, and the block and memory the thread gets. */
  datatype Program = Program(fn: Word, arg: Word, base: Word, mem: Mem) {
    predicate Fits() { base % 8 == 0 && base + STACK_SIZE < TWO32 }
  }

  function Forked(env: Env, tid: Word, p: Program): Thread
    requires p.Fits()
  {
    Refreshed(env, Thread(tid, p.fn, p.arg, p.base, p.base + STACK_SIZE, Context(FreshRegs(0, 0, 0, 0, 0), p.mem),
                          0, 0, 0, [], []), p.mem)
  }

  /** Nothing queued, stepping off, and no panic so far. */
  ghost predicate Idle(k: Kernel)
    reads k, k.dbg, k.runq, k.runq.spine
  {
    k.Valid() && !k.dbg.on && k.phase == EquivSpec.Finished && k.runq.spine == []
  }

  /** `th` ran alone from `t` and exited; it can be refreshed. */
  ghost predicate RanAlone(env: Env, th: Node<Thread>, t: Thread, mem: Mem, n: nat)
    reads th
  {
    Fresh(env, t, mem, n) && th.d == SoloEnd(env, t, n)
  }

  ghost predicate AllRanAlone(env: Env, ths: seq<Node<Thread>>, ts: seq<Thread>, mems: seq<Mem>, ns: seq<nat>)
    reads ths
  {
    && |ths| == |ts| == |mems| == |ns|
    && (forall i: nat :: i < |ths| ==> RanAlone(env, ths[i], ts[i], mems[i], ns[i]))
    && forall i, j :: 0 <= i < j < |ths| ==> ths[i] != ths[j] && ts[i].tid != ts[j].tid
  }

  /** Refreshes threads that ran alone, each on its memory, the last one first, so that they
      stand on the run queue in the order of `ths`. */
  method RefreshAll(k: Kernel, ths: seq<Node<Thread>>, ghost ts: seq<Thread>, mems: seq<Mem>, ghost ns: seq<nat>)
    requires Idle(k) && AllRanAlone(k.env, ths, ts, mems, ns)
    modifies k`exited, k`pool, k.runq, ths
    ensures k.Valid() && k.runq.spine == ths
    ensures forall i: nat :: i < |ths| ==> ths[i].d == Calibrated(k.env, ts[i], mems[i], ns[i])
  {
    hide SoloEnd, Refreshed, Fresh, ExitsAlone, Expects, StackError, Calibrated;
    var i := |ths|;
    while i > 0
      invariant 0 <= i <= |ths| && k.Valid() && k.runq.spine == ths[i..]
      invariant forall j: nat :: i <= j < |ths| ==> ths[j].d == Calibrated(k.env, ts[j], mems[j], ns[j])
      invariant forall j: nat :: j < i ==> ths[j].d == old(ths[j].d)
    {
      i := i - 1;
      CalibratedExits(k.env, ts[i], mems[i], ns[i]);
      assert ths[i].d == SoloEnd(k.env, ts[i], ns[i]);
      assert ths[i] !in ths[i + 1..] && ths[i..] == [ths[i]] + ths[i + 1..];
      k.Refresh(ths[i], mems[i]);
    }
  }

  /** A run queue whose every thread exits with the hash it expects. */
  ghost predicate AllMatch(env: Env, ring: seq<Thread>, ns: seq<nat>) {
    && |ns| == |ring| > 0 && (forall i, j :: 0 <= i < j < |ring| ==> ring[i].tid != ring[j].tid)
    && forall i: nat :: i < |ring| ==> ExitsAlone(env, ring[i], ns[i]) && Expects(env, ring[i], ns[i])
  }

  method MatchingRun(k: Kernel, ghost ring: seq<Thread>, ghost ns: seq<nat>)
    requires k.Valid() && !k.dbg.on && k.phase == EquivSpec.Finished
    requires ring == Payloads(k.runq.spine) && AllMatch(k.env, ring, ns)
    modifies k, k.dbg, k.runq, k.runq.spine
    ensures Idle(k) && k.ntids == old(k.ntids)
    ensures forall i: nat :: i < |ring| ==> old(k.runq.spine)[i].d == SoloEnd(k.env, ring[i], ns[i])
  {
    hide ExitsAlone, Expects, SoloEnd;
    CheckedRun(k, ring, ns);
  }

  /** The refreshed threads as they stand on the run queue. */
  lemma QueuedExit(env: Env, ring: seq<Thread>, ts: seq<Thread>, mems: seq<Mem>, ns: seq<nat>)
    requires |ring| == |ts| == |mems| == |ns| > 0
    requires forall i: nat :: i < |ts| ==> ring[i] == Calibrated(env, ts[i], mems[i], ns[i]) && Fresh(env, ts[i], mems[i], ns[i])
    requires forall i, j :: 0 <= i < j < |ts| ==> ts[i].tid != ts[j].tid
    ensures AllMatch(env, ring, ns)
    ensures forall i: nat :: i < |ts| ==> SoloEnd(env, ring[i], ns[i]) == SoloEnd(env, ts[i], ns[i])
  {
    hide SoloEnd, Fresh, ExitsAlone, Expects, Calibrated;
    forall i: nat | i < |ts|
      ensures ring[i].tid == ts[i].tid && ExitsAlone(env, ring[i], ns[i]) && Expects(env, ring[i], ns[i])
      ensures SoloEnd(env, ring[i], ns[i]) == SoloEnd(env, ts[i], ns[i])
    {
      CalibratedExits(env, ts[i], mems[i], ns[i]);
    }
  }

  /** Refreshing threads that ran alone, in any order, and running them together: equiv_run
      comes back, every thread ends as it does alone, and it can all be done again. */
  method RunTogether(k: Kernel, ths: seq<Node<Thread>>, ghost ts: seq<Thread>, mems: seq<Mem>, ghost ns: seq<nat>)
    requires Idle(k) && ths != [] && AllRanAlone(k.env, ths, ts, mems, ns)
    modifies k, k.dbg, k.runq, ths
    ensures Idle(k) && k.ntids == old(k.ntids)
    ensures AllRanAlone(k.env, ths, ts, mems, ns)
  {
    hide SoloEnd, Fresh, AllMatch, Calibrated;
    RefreshAll(k, ths, ts, mems, ns);
    ghost var ring := Payloads(ths);
    QueuedExit(k.env, ring, ts, mems, ns);
    MatchingRun(k, ring, ns);
  }

  /** run_single: fork without an expected hash, run, and then `again` times refresh and run. */
  method RunSingle(k: Kernel, p: Program, again: nat, ghost n: nat) returns (th: Node<Thread>)
    requires Idle(k) && p.Fits()
    requires ExitsAlone(k.env, Forked(k.env, k.ntids, p), n)
    modifies k, k.dbg, k.runq
    ensures Idle(k) && fresh(th) && k.ntids == Add32(old(k.ntids), 1)
    ensures RanAlone(k.env, th, Forked(k.env, old(k.ntids), p), p.mem, n)
  {
    hide ExitsAlone, SoloEnd, Calibrated, Refreshed, Forked;
    ghost var t := Forked(k.env, k.ntids, p);
    th := k.Fork(p.fn, p.arg, 0, p.base, p.mem);
    ForkedIs(k.env, old(k.ntids), p, th.d);
    ghost var ring := [t];
    CheckedRun(k, ring, [n]);
    var i := 0;
    while i < again
      invariant Idle(k) && fresh(th) && k.ntids == Add32(old(k.ntids), 1)
      invariant RanAlone(k.env, th, t, p.mem, n)
    {
      RunTogether(k, [th], [t], [p.mem], [n]);
      i := i + 1;
    }
  }

  lemma ForkedIs(env: Env, tid: Word, p: Program, d: Thread)
    requires p.Fits() && d == Refreshed(env, d, p.mem)
    requires d.tid == tid && d.fn == p.fn && d.arg == p.arg && d.expected == 0
    requires d.stackStart == p.base && d.stackEnd == p.base + STACK_SIZE
    ensures d == Forked(env, tid, p) && d.stackStart <= d.stackEnd
  {
  }

  lemma ForkedTid(env: Env, tid: Word, p: Program)
    requires p.Fits()
    ensures Forked(env, tid, p).tid == tid
  {
  }

  /** The chosen threads together, `rounds` times; the others are left alone. */
  method Rounds(k: Kernel, ths: seq<Node<Thread>>, order: seq<nat>, rounds: nat, ghost ts: seq<Thread>, mems: seq<Mem>, ghost ns: seq<nat>)
    requires Idle(k) && AllRanAlone(k.env, ths, ts, mems, ns)
    requires order != [] && forall j :: 0 <= j < |order| ==> order[j] < |ths|
    requires forall i, j :: 0 <= i < j < |order| ==> order[i] != order[j]
    modifies k, k.dbg, k.runq, ths
    ensures Idle(k) && AllRanAlone(k.env, ths, ts, mems, ns)
  {
    hide Fresh, SoloEnd;
    var m := |order|;
    var sel := seq(m, j requires 0 <= j < m => ths[order[j]]);
    var selMems := seq(m, j requires 0 <= j < m => mems[order[j]]);
    ghost var selTs := seq(m, j requires 0 <= j < m => ts[order[j]]);
    ghost var selNs := seq(m, j requires 0 <= j < m => ns[order[j]]);
    Apart(ths, ts, order);
    var r := 0;
    while r < rounds
      invariant Idle(k) && AllRanAlone(k.env, ths, ts, mems, ns)
    {
      RunTogether(k, sel, selTs, selMems, selNs);
      forall i: nat | i < |ths| ensures RanAlone(k.env, ths[i], ts[i], mems[i], ns[i]) {
        if j: nat :| j < m && order[j] == i {
          assert RanAlone(k.env, sel[j], selTs[j], selMems[j], selNs[j]);
        } else {
          assert ths[i] !in sel;
        }
      }
      r := r + 1;
    }
  }

  lemma Apart(ths: seq<Node<Thread>>, ts: seq<Thread>, order: seq<nat>)
    requires |ths| == |ts| && forall i, j :: 0 <= i < j < |ths| ==> ths[i] != ths[j] && ts[i].tid != ts[j].tid
    requires forall j :: 0 <= j < |order| ==> order[j] < |ths|
    requires forall i, j :: 0 <= i < j < |order| ==> order[i] != order[j]
    ensures forall i, j :: 0 <= i < j < |order| ==>
      ths[order[i]] != ths[order[j]] && ts[order[i]].tid != ts[order[j]].tid
  {
    forall i, j | 0 <= i < j < |order|
      ensures ths[order[i]] != ths[order[j]] && ts[order[i]].tid != ts[order[j]].tid
    {
      assert order[i] < order[j] || order[j] < order[i];
    }
  }

  /** The whole use: each program is forked and calibrated alone, then the threads named by
      `order` are refreshed, to stand on the run queue in that order, and run together, `rounds`
      times. It always comes back: no hash mismatch and no other panic, whatever the programs that exit, the hash and
      the order, even though they are interleaved at every instruction. */
  method EquivTest(k: Kernel, ps: seq<Program>, order: seq<nat>, rounds: nat, ghost ns: seq<nat>)
    returns (ths: seq<Node<Thread>>)
    requires Idle(k) && k.ntids + |ps| < TWO32
    requires |ns| == |ps| && forall i: nat :: i < |ps| ==> ps[i].Fits() && ExitsAlone(k.env, Forked(k.env, k.ntids + i, ps[i]), ns[i])
    requires order != [] && forall j :: 0 <= j < |order| ==> order[j] < |ps|
    requires forall i, j :: 0 <= i < j < |order| ==> order[i] != order[j]
    modifies k, k.dbg, k.runq
    ensures Idle(k) && |ths| == |ps|
    ensures forall i: nat :: i < |ps| ==> ths[i].d == SoloEnd(k.env, Forked(k.env, old(k.ntids) + i, ps[i]), ns[i])
  {
    hide ExitsAlone, Expects, SoloEnd, Calibrated, Refreshed, Fresh, Forked;
    ghost var first := k.ntids;
    ghost var ts := seq(|ps|, i requires 0 <= i < |ps| => Forked(k.env, first + i, ps[i]));
    ths := [];
    while |ths| < |ps|
      invariant |ths| <= |ps| && Idle(k) && k.ntids == first + |ths|
      invariant forall i: nat :: i < |ths| ==> fresh(ths[i]) && RanAlone(k.env, ths[i], ts[i], ps[i].mem, ns[i])
      invariant forall i, j :: 0 <= i < j < |ths| ==> ths[i] != ths[j]
    {
      var th := RunSingle(k, ps[|ths|], 0, ns[|ths|]);
      ths := ths + [th];
    }
    var mems := seq(|ps|, i requires 0 <= i < |ps| => ps[i].mem);
    forall i: nat | i < |ps| ensures ts[i].tid == first + i {
      ForkedTid(k.env, first + i, ps[i]);
    }
    Rounds(k, ths, order, rounds, ts, mems, ns);
  }
}

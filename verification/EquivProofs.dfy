/** Why interleaved threads behave as they do alone, whatever the hash, the programs, the
    order of the run queue and the choices of the scheduler. */
module EquivProofs {
  import opened Words
  import opened Cpu
  import opened EquivSpec

  /// Each live thread is in the ring exactly once.

  function Tids(ts: seq<Thread>): (r: seq<Word>)
    ensures |r| == |ts|
  {
    seq(|ts|, i requires 0 <= i < |ts| => ts[i].tid)
  }

  ghost function Census(s: Sys): multiset<Word> {
    multiset(Tids(s.ring)) + multiset(Tids(s.done))
  }

  ghost predicate Distinct(s: Sys) {
    forall x: Word :: Census(s)[x] <= 1
  }

  lemma TidsConcat(a: seq<Thread>, b: seq<Thread>)
    ensures Tids(a + b) == Tids(a) + Tids(b)
  {
  }

  lemma MoveToFront<T>(q: seq<T>, i: nat)
    requires i < |q|
    ensures multiset([q[i]] + q[..i] + q[i + 1..]) == multiset(q)
  {
    assert q == q[..i] + [q[i]] + q[i + 1..];
  }

  lemma DispatchCensus(s: Sys, pick: nat)
    requires s.ring != []
    ensures Census(Dispatch(s, pick)) == Census(s)
  {
    var i := if pick < |s.ring| then pick else 0;
    var ids := Tids(s.ring);
    MoveToFront(ids, i);
    assert Tids(Dispatch(s, pick).ring) == [ids[i]] + ids[..i] + ids[i + 1..];
  }

  lemma TailAndBack(a: seq<Thread>, b: seq<Thread>, t: Thread)
    requires a != [] && t.tid == a[0].tid
    ensures multiset(Tids(a[1..] + [t])) == multiset(Tids(a))
    ensures multiset(Tids(a[1..])) + multiset(Tids(b + [t])) == multiset(Tids(a)) + multiset(Tids(b))
    ensures Tids(a[0 := t]) == Tids(a)
  {
    assert Tids(a) == [t.tid] + Tids(a[1..]);
    TidsConcat(a[1..], [t]);
    TidsConcat(b, [t]);
    assert Tids([t]) == [t.tid];
  }

  /** No event loses, duplicates or invents a thread. */
  lemma StepKeepsCensus(env: Env, s: Sys, pick: nat)
    ensures Census(SysStep(env, s, pick)) == Census(s)
  {
    hide Tids, Dispatch;
    if s.Running() {
      match Step(env, s.ring[0], s.bvr)
      case Go(t) =>
        TailAndBack(s.ring, s.done, t);
      case Yield(t) =>
        TailAndBack(s.ring, s.done, t);
        DispatchCensus(s.(ring := s.ring[1..] + [t], uart := s.uart + Printed(s.ring[0], t)), pick);
      case Exit(t) =>
        TailAndBack(s.ring, s.done, t);
        var s' := s.(ring := s.ring[1..], done := s.done + [t]);
        if s'.ring != [] {
          DispatchCensus(s', pick);
        }
      case Die(t, why) =>
        TailAndBack(s.ring, s.done, t);
    }
  }

  lemma {:induction false} RunKeepsCensus(env: Env, s: Sys, picks: seq<nat>)
    ensures Census(SysRun(env, s, picks)) == Census(s)
    decreases |picks|
  {
    if picks != [] {
      StepKeepsCensus(env, s, picks[0]);
      RunKeepsCensus(env, SysStep(env, s, picks[0]), picks[1..]);
    }
  }

  /// Non-interference.

  /** Member `i` of the ring as a solo run would see it. */
  ghost function RingView(s: Sys, i: nat): Solo
    requires i < |s.ring|
  {
    if i > 0 then Waiting(s.ring[i])
    else Solo(s.ring[0], s.bvr, if s.phase.Halted? then Dead(s.phase.why) else Live)
  }

  ghost function DoneView(t: Thread): Solo {
    Solo(t, t.ctx.Pc(), Exited)
  }

  /** `z` is how the system currently holds one of its threads. */
  ghost predicate Holds(s: Sys, z: Solo) {
    || (exists i: nat :: i < |s.ring| && z == RingView(s, i))
    || (exists i: nat :: i < |s.done| && z == DoneView(s.done[i]))
  }

  /** The phase says whether anything is left to run. */
  ghost predicate Sane(s: Sys) {
    Distinct(s) && (s.phase == Finished <==> s.ring == [])
  }

  lemma CountTwice<T>(q: seq<T>, i: nat, j: nat)
    requires i < j < |q| && q[i] == q[j]
    ensures multiset(q)[q[i]] >= 2
  {
    assert q == q[..j] + [q[j]] + q[j + 1..];
    assert q[i] in q[..j];
  }

  lemma RepeatsCount(s: Sys, i: nat)
    requires s.ring != []
    ensures 0 < i < |s.ring| && s.ring[i].tid == s.ring[0].tid ==> Census(s)[s.ring[0].tid] >= 2
    ensures i < |s.done| && s.done[i].tid == s.ring[0].tid ==> Census(s)[s.ring[0].tid] >= 2
  {
    var ring, done := Tids(s.ring), Tids(s.done);
    if 0 < i < |s.ring| && ring[i] == ring[0] {
      CountTwice(ring, 0, i);
    }
    if i < |s.done| && done[i] == ring[0] {
      assert ring[0] in multiset(ring) && done[i] in multiset(done);
    }
  }

  /** Two places never hold the same thread. */
  lemma PlacesDiffer(s: Sys, i: nat)
    requires Distinct(s) && s.ring != []
    ensures 0 < i < |s.ring| ==> s.ring[i].tid != s.ring[0].tid
    ensures i < |s.done| ==> s.done[i].tid != s.ring[0].tid
  {
    RepeatsCount(s, i);
  }

  lemma DispatchHolds(s: Sys, pick: nat, z: Solo)
    requires s.ring != [] && s.phase == User
    requires (exists i: nat :: i < |s.ring| && z == Waiting(s.ring[i]))
          || (exists i: nat :: i < |s.done| && z == DoneView(s.done[i]))
    ensures Holds(Dispatch(s, pick), z)
  {
    var p := if pick < |s.ring| then pick else 0;
    var s' := Dispatch(s, pick);
    if i: nat :| i < |s.ring| && z == Waiting(s.ring[i]) {
      var j := if i == p then 0 else if i < p then i + 1 else i;
      assert s'.ring[j] == s.ring[i];
      assert z == RingView(s', j);
    } else {
      var i: nat :| i < |s.done| && z == DoneView(s.done[i]);
      assert s'.done[i] == s.done[i];
    }
  }

  /** One event moves the current thread one solo step and leaves every other as it was,
      although all share one mismatch register and one saved context at a time. */
  lemma StepIsSoloStep(env: Env, s: Sys, pick: nat, z: Solo)
    requires Sane(s) && Holds(s, z)
    ensures Holds(SysStep(env, s, pick), Share(env, s, z))
  {
    if s.Running() {
      var e := Step(env, s.ring[0], s.bvr);
      var s' := SysStep(env, s, pick);
      if z.t.tid == s.ring[0].tid {
        assert z == RingView(s, 0) by {
          if i: nat :| i < |s.ring| && z == RingView(s, i) {
            PlacesDiffer(s, i);
          } else {
            var i: nat :| i < |s.done| && z == DoneView(s.done[i]);
            PlacesDiffer(s, i);
            assert false;
          }
        }
        CurrentMoves(env, s, pick);
      } else {
        OtherStays(env, s, pick, z);
      }
    }
  }

  lemma CurrentMoves(env: Env, s: Sys, pick: nat)
    requires s.Running()
    ensures Holds(SysStep(env, s, pick), SoloStep(env, RingView(s, 0)))
  {
    var s' := SysStep(env, s, pick);
    match Step(env, s.ring[0], s.bvr)
    case Go(t) =>
      assert RingView(s', 0) == SoloStep(env, RingView(s, 0));
    case Yield(t) =>
      var m := s.(ring := s.ring[1..] + [t], uart := s.uart + Printed(s.ring[0], t));
      assert m.ring[|m.ring| - 1] == t;
      DispatchHolds(m, pick, Waiting(t));
    case Exit(t) =>
      var m := s.(ring := s.ring[1..], done := s.done + [t]);
      assert m.done[|m.done| - 1] == t;
      if m.ring != [] {
        DispatchHolds(m, pick, DoneView(t));
      }
    case Die(t, why) =>
      assert RingView(s', 0) == SoloStep(env, RingView(s, 0));
  }

  lemma OtherStays(env: Env, s: Sys, pick: nat, z: Solo)
    requires s.Running() && Holds(s, z) && z.t.tid != s.ring[0].tid
    ensures Holds(SysStep(env, s, pick), z)
  {
    var s' := SysStep(env, s, pick);
    var e := Step(env, s.ring[0], s.bvr);
    if i: nat :| i < |s.ring| && z == RingView(s, i) {
      match e
      case Go(t) => assert RingView(s', i) == z;
      case Yield(t) =>
        var m := s.(ring := s.ring[1..] + [t], uart := s.uart + Printed(s.ring[0], t));
        assert m.ring[i - 1] == s.ring[i];
        DispatchHolds(m, pick, z);
      case Exit(t) =>
        var m := s.(ring := s.ring[1..], done := s.done + [t]);
        assert m.ring[i - 1] == s.ring[i];
        DispatchHolds(m, pick, z);
      case Die(t, why) => assert RingView(s', i) == z;
    } else {
      var i: nat :| i < |s.done| && z == DoneView(s.done[i]);
      match e
      case Go(t) => assert s'.done[i] == s.done[i];
      case Yield(t) =>
        var m := s.(ring := s.ring[1..] + [t], uart := s.uart + Printed(s.ring[0], t));
        assert m.done[i] == s.done[i];
        DispatchHolds(m, pick, z);
      case Exit(t) =>
        var m := s.(ring := s.ring[1..], done := s.done + [t]);
        assert m.done[i] == s.done[i];
        if m.ring != [] {
          DispatchHolds(m, pick, z);
        } else {
          assert s'.done[i] == s.done[i];
        }
      case Die(t, why) => assert s'.done[i] == s.done[i];
    }
  }

  lemma StepKeepsSane(env: Env, s: Sys, pick: nat)
    requires Sane(s)
    ensures Sane(SysStep(env, s, pick))
  {
    StepKeepsCensus(env, s, pick);
  }

  /** What one system event means for thread `z`. */
  ghost function Share(env: Env, s: Sys, z: Solo): Solo {
    if s.Running() && z.t.tid == s.ring[0].tid then SoloStep(env, z) else z
  }

  lemma ShareCounts(env: Env, s: Sys, picks: seq<nat>, z: Solo)
    requires picks != []
    ensures Share(env, s, z).t.tid == z.t.tid
    ensures SoloRun(env, z, EventsOf(env, s, picks, z.t.tid))
         == SoloRun(env, Share(env, s, z), EventsOf(env, SysStep(env, s, picks[0]), picks[1..], z.t.tid))
  {
    hide Step, SysStep, SoloStep;
    StepKeepsTid(env, z);
  }

  lemma StepKeepsTid(env: Env, z: Solo)
    ensures SoloStep(env, z).t.tid == z.t.tid
  {
  }

  /** Non-interference: whatever the other threads are and whatever the scheduler picks, a
      thread that got n of the events is exactly where n events of its solo run take it:
      same registers, memory, snapshots, hash, count, output and verdict. */
  lemma {:induction false} NonInterference(env: Env, s: Sys, picks: seq<nat>, z: Solo)
    requires Sane(s) && Holds(s, z)
    ensures Holds(SysRun(env, s, picks), SoloRun(env, z, EventsOf(env, s, picks, z.t.tid)))
    ensures Sane(SysRun(env, s, picks))
    decreases |picks|
  {
    if picks != [] {
      StepIsSoloStep(env, s, picks[0], z);
      StepKeepsSane(env, s, picks[0]);
      ShareCounts(env, s, picks, z);
      NonInterference(env, SysStep(env, s, picks[0]), picks[1..], Share(env, s, z));
    }
  }

  /** Member `p` of the ring followed by the finished threads. */
  ghost function View(s: Sys, p: nat): Solo
    requires p < |s.ring| + |s.done|
  {
    if p < |s.ring| then RingView(s, p) else DoneView(s.done[p - |s.ring|])
  }

  lemma HoldsView(s: Sys, p: nat)
    requires p < |s.ring| + |s.done|
    ensures Holds(s, View(s, p)) && View(s, p).t.tid == (Tids(s.ring) + Tids(s.done))[p]
  {
  }

  lemma PlaceOf(s: Sys, z: Solo) returns (p: nat)
    requires Holds(s, z)
    ensures p < |s.ring| + |s.done| && z == View(s, p)
  {
    if i: nat :| i < |s.ring| && z == RingView(s, i) {
      p := i;
    } else {
      var i: nat :| i < |s.done| && z == DoneView(s.done[i]);
      p := |s.ring| + i;
    }
  }

  lemma HoldsUnique(s: Sys, z: Solo, z': Solo)
    requires Distinct(s) && Holds(s, z) && Holds(s, z') && z.t.tid == z'.t.tid
    ensures z == z'
  {
    var p := PlaceOf(s, z);
    var p' := PlaceOf(s, z');
    var ids := Tids(s.ring) + Tids(s.done);
    HoldsView(s, p);
    HoldsView(s, p');
    assert multiset(ids) == Census(s);
    if p < p' {
      CountTwice(ids, p, p');
    } else if p' < p {
      CountTwice(ids, p', p);
    }
  }

  /** The other direction: everything the system holds after a run is one of the threads it
      started from, advanced by its own solo steps. */
  lemma NothingElseHeld(env: Env, s: Sys, picks: seq<nat>, z': Solo) returns (z: Solo)
    requires Sane(s) && Holds(SysRun(env, s, picks), z')
    ensures Holds(s, z) && z.t.tid == z'.t.tid
    ensures z' == SoloRun(env, z, EventsOf(env, s, picks, z.t.tid))
  {
    var s' := SysRun(env, s, picks);
    RunKeepsCensus(env, s, picks);
    var ids, ids' := Tids(s.ring) + Tids(s.done), Tids(s'.ring) + Tids(s'.done);
    var p' := PlaceOf(s', z');
    HoldsView(s', p');
    assert multiset(ids) == Census(s) == Census(s') == multiset(ids');
    assert z'.t.tid in multiset(ids');
    var p: nat :| p < |ids| && ids[p] == z'.t.tid;
    HoldsView(s, p);
    z := View(s, p);
    NonInterference(env, s, picks, z);
    SoloKeepsTid(env, z, EventsOf(env, s, picks, z.t.tid));
    HoldsUnique(s', z', SoloRun(env, z, EventsOf(env, s, picks, z.t.tid)));
  }

  lemma {:induction false} SoloKeepsTid(env: Env, z: Solo, n: nat)
    ensures SoloRun(env, z, n).t.tid == z.t.tid
    decreases n
  {
    if n > 0 {
      SoloKeepsTid(env, SoloStep(env, z), n - 1);
    }
  }

  /// Termination.

  /** The solo run from `z` ends with its event number `n`. */
  ghost predicate StopsAt(env: Env, z: Solo, n: nat)
    decreases n
  {
    && n > 0 && z.st == Live
    && var z' := SoloStep(env, z); if z'.st == Live then StopsAt(env, z', n - 1) else n == 1
  }

  function Sum(ns: seq<nat>): nat {
    if ns == [] then 0 else ns[0] + Sum(ns[1..])
  }

  lemma {:induction false} SumSplit(a: seq<nat>, b: seq<nat>)
    ensures Sum(a + b) == Sum(a) + Sum(b)
  {
    if a == [] {
      assert a + b == b;
    } else {
      assert (a + b)[1..] == a[1..] + b;
      SumSplit(a[1..], b);
    }
  }

  function ToFront<T>(q: seq<T>, pick: nat): seq<T>
    requires q != []
  {
    var i := if pick < |q| then pick else 0;
    [q[i]] + q[..i] + q[i + 1..]
  }

  lemma SumMove(a: seq<nat>, x: nat, b: seq<nat>)
    ensures Sum([x] + a + b) == Sum(a + [x] + b)
  {
    SumSplit([x] + a, b);
    SumSplit([x], a);
    SumSplit(a + [x], b);
    SumSplit(a, [x]);
  }

  lemma SumToFront(ns: seq<nat>, pick: nat)
    requires ns != []
    ensures Sum(ToFront(ns, pick)) == Sum(ns)
  {
    var i := if pick < |ns| then pick else 0;
    SumMove(ns[..i], ns[i], ns[i + 1..]);
    assert ns == ns[..i] + [ns[i]] + ns[i + 1..];
  }

  /** `ns` tells how many more events each member of the ring needs. */
  ghost predicate Needs(env: Env, s: Sys, ns: seq<nat>) {
    |ns| == |s.ring| && forall i: nat :: i < |s.ring| ==> StopsAt(env, RingView(s, i), ns[i])
  }

  lemma DispatchNeeds(env: Env, s: Sys, pick: nat, ns: seq<nat>)
    requires s.ring != [] && s.phase == User && |ns| == |s.ring|
    requires forall i: nat :: i < |s.ring| ==> StopsAt(env, Waiting(s.ring[i]), ns[i])
    ensures Needs(env, Dispatch(s, pick), ToFront(ns, pick)) && Sum(ToFront(ns, pick)) == Sum(ns)
  {
    SumToFront(ns, pick);
    hide Sum, StopsAt;
    var p := if pick < |ns| then pick else 0;
    var s', ns' := Dispatch(s, pick), ToFront(ns, pick);
    forall j: nat | j < |s'.ring| ensures StopsAt(env, RingView(s', j), ns'[j]) {
      var i := if j == 0 then p else if j <= p then j - 1 else j;
      assert s'.ring[j] == s.ring[i] && ns'[j] == ns[i];
      assert RingView(s', j) == Waiting(s.ring[i]);
    }
  }

  lemma TailNeeds(env: Env, s: Sys, ns: seq<nat>, t: Thread, n: nat)
    requires s.ring != [] && Needs(env, s, ns) && StopsAt(env, Waiting(t), n)
    ensures var ring, back := s.ring[1..] + [t], ns[1..] + [n];
      forall i: nat :: i < |ring| ==> StopsAt(env, Waiting(ring[i]), back[i])
  {
  }

  /** The current thread's solo step uses up one of its events. */
  lemma HeadNeeds(env: Env, s: Sys, ns: seq<nat>)
    requires s.ring != [] && Needs(env, s, ns)
    ensures ns[0] > 0
    ensures var z := SoloStep(env, RingView(s, 0));
      if z.st == Live then StopsAt(env, z, ns[0] - 1) else ns[0] == 1
  {
  }

  /** Every event uses up one of the needed ones. */
  lemma StepUsesOne(env: Env, s: Sys, pick: nat, ns: seq<nat>) returns (ns': seq<nat>)
    requires s.Running() && Needs(env, s, ns)
    ensures Sum(ns) > 0
    ensures var s' := SysStep(env, s, pick);
      s'.phase == User ==> Needs(env, s', ns') && Sum(ns') == Sum(ns) - 1
  {
    HeadNeeds(env, s, ns);
    ns' := [];
    var e := Step(env, s.ring[0], s.bvr);
    if e.Go? {
      ns' := [ns[0] - 1] + ns[1..];
      GoNeeds(env, s, ns, e.t);
    } else if e.Yield? {
      ns' := YieldNeeds(env, s, pick, ns, e.t);
    } else if e.Exit? && |s.ring| > 1 {
      ExitNeeds(env, s, ns);
      ns' := ToFront(ns[1..], pick);
      DispatchNeeds(env, s.(ring := s.ring[1..], done := s.done + [e.t]), pick, ns[1..]);
    }
  }

  lemma YieldNeeds(env: Env, s: Sys, pick: nat, ns: seq<nat>, t: Thread) returns (ns': seq<nat>)
    requires s.Running() && Needs(env, s, ns) && ns[0] > 0
    requires Step(env, s.ring[0], s.bvr) == Yield(t) && StopsAt(env, Waiting(t), ns[0] - 1)
    ensures Needs(env, SysStep(env, s, pick), ns') && Sum(ns') == Sum(ns) - 1
  {
    var back := ns[1..] + [ns[0] - 1];
    TailNeeds(env, s, ns, t, ns[0] - 1);
    SumSplit(ns[1..], [ns[0] - 1]);
    ns' := ToFront(back, pick);
    DispatchNeeds(env, s.(ring := s.ring[1..] + [t], uart := s.uart + Printed(s.ring[0], t)), pick, back);
  }

  lemma GoNeeds(env: Env, s: Sys, ns: seq<nat>, t: Thread)
    requires s.ring != [] && s.phase == User && Needs(env, s, ns) && ns[0] > 0
    requires StopsAt(env, Solo(t, s.bvr, Live), ns[0] - 1)
    ensures Needs(env, s.(ring := s.ring[0 := t]), [ns[0] - 1] + ns[1..])
  {
  }

  lemma ExitNeeds(env: Env, s: Sys, ns: seq<nat>)
    requires s.ring != [] && Needs(env, s, ns)
    ensures forall i: nat :: i < |s.ring| - 1 ==> StopsAt(env, Waiting(s.ring[1..][i]), ns[1..][i])
  {
  }

  lemma {:induction false} StoppedStays(env: Env, s: Sys, picks: seq<nat>)
    requires !s.Running()
    ensures SysRun(env, s, picks) == s
    decreases |picks|
  {
    if picks != [] {
      StoppedStays(env, s, picks[1..]);
    }
  }

  /** Termination: if every solo run stops, so does every interleaving, after no more
      events than the solo runs have together. */
  lemma {:induction false} RunStops(env: Env, s: Sys, picks: seq<nat>, ns: seq<nat>)
    requires Needs(env, s, ns) && |picks| >= Sum(ns) && s.ring != []
    ensures SysRun(env, s, picks).phase != User
    decreases |picks|
  {
    if s.phase != User {
      StoppedStays(env, s, picks);
    } else {
      var ns' := StepUsesOne(env, s, picks[0], ns);
      var s' := SysStep(env, s, picks[0]);
      if s'.phase != User {
        StoppedStays(env, s', picks[1..]);
      } else {
        RunStops(env, s', picks[1..], ns');
      }
    }
  }
}

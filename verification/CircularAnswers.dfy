/** When the calls of `libpi/libc/circular.h` are refused, and that the others finish, with the
    other side running in between. */
module CircularAnswers {
  import opened Words
  import opened Ring
  import opened CircularConcurrent

  /// Refusals: a call comes back without having done anything exactly when it had to.

  ghost predicate PushRefused<T>(s: State<T>)
    requires Shape(|s.buf|, s.head, s.tail)
  {
    !s.p.PIdle? && ProducerNext(s).p.PIdle? && ProducerNext(s).pushed == s.pushed
  }

  /** cq_push is refused at its full test with n-1 elements unread, cq_push_n at its space check
      when the data do not fit; at no other point and for no other reason. */
  lemma PushRefusedExactly<T>(s: State<T>)
    requires Inv(s)
    ensures PushRefused(s) <==>
      || (s.p.Pushing? && !s.p.bulk && s.p.at.AtFull? && |Pending(s)| == |s.buf| - 1)
      || (s.p.PSpace? && |Pending(s)| + |s.p.data| > |s.buf| - 1)
    ensures PushRefused(s) ==> ProducerNext(s) == s.(p := PIdle)
  {
    NelemCounts(s.buf, s.head, s.tail);
  }

  ghost predicate PopRefused<T>(s: State<T>)
    requires Shape(|s.buf|, s.head, s.tail)
  {
    !s.c.CIdle? && ConsumerNext(s).c.CIdle? && ConsumerNext(s).popped == s.popped
  }

  /** cq_pop_nonblock is refused at its empty test with nothing unread, cq_pop_n_noblk at its
      count check with fewer than it wants; cq_pop_n never is. */
  lemma PopRefusedExactly<T>(s: State<T>)
    requires Inv(s)
    ensures PopRefused(s) <==>
      || (s.c.Popping? && s.c.mode.Single? && s.c.at.AtEmpty? && Pending(s) == [])
      || (s.c.CCount? && |Pending(s)| < s.c.k)
    ensures PopRefused(s) ==> ConsumerNext(s) == s.(c := CIdle)
  {
    NelemCounts(s.buf, s.head, s.tail);
    assert s.head == s.tail <==> Pending(s) == [];
  }

  /// Progress of admitted calls.

  /** How many of `actions` are steps of the producer, and of the consumer. */
  function ProducerSteps<T>(actions: seq<Action<T>>): nat {
    if actions == [] then 0 else (if actions[0].ProducerStep? then 1 else 0) + ProducerSteps(actions[1..])
  }

  function ConsumerSteps<T>(actions: seq<Action<T>>): nat {
    if actions == [] then 0 else (if actions[0].ConsumerStep? then 1 else 0) + ConsumerSteps(actions[1..])
  }

  /** No new call of the producer, or of the consumer. */
  predicate NoPush<T>(actions: seq<Action<T>>) {
    forall i :: 0 <= i < |actions| ==> !actions[i].StartPush? && !actions[i].StartPushN?
  }

  predicate NoPop<T>(actions: seq<Action<T>>) {
    forall i :: 0 <= i < |actions| ==> !actions[i].StartPop? && !actions[i].StartPopN? && !actions[i].StartPopNNoblk?
  }

  /** A push that is past its only chance of refusal, or will pass it. */
  ghost predicate Admitted<T>(s: State<T>)
    requires Shape(|s.buf|, s.head, s.tail)
  {
    s.p.Pushing? && (s.p.bulk || !s.p.at.AtFull? || |Pending(s)| < |s.buf| - 1)
  }

  /** The steps it has left: four for every element. */
  function PushLeft<T>(p: Producer<T>): int
    requires p.Pushing?
  {
    4 * (|p.data| - p.i) - match p.at case AtFull => 0 case AtCheck => 1 case AtWrite(_) => 2 case AtPublish(_) => 3
  }

  lemma PushStep<T>(s: State<T>)
    requires Inv(s) && Admitted(s)
    ensures PushLeft(s.p) > 0
    ensures var s' := ProducerNext(s);
      && Inv(s')
      && (if PushLeft(s.p) == 1 then s'.p == PIdle && s'.pushed == s.pushed + [s.p.data]
          else Admitted(s') && PushLeft(s'.p) == PushLeft(s.p) - 1 && s'.p.data == s.p.data && s'.pushed == s.pushed)
  {
    ProducerKeeps(s);
    NelemCounts(s.buf, s.head, s.tail);
  }

  /** What anything but the producer does leaves its call where it is and admitted. */
  lemma OthersLetPush<T>(s: State<T>, a: Action<T>)
    requires Inv(s) && !a.ProducerStep? && !a.StartPush? && !a.StartPushN?
    ensures var s' := Step(s, a); Inv(s') && s'.p == s.p && s'.pushed == s.pushed && |s'.buf| == |s.buf|
    ensures |Pending(Step(s, a))| <= |Pending(s)|
  {
    hide PopNext, Unread, Flat;
    StepKeeps(s, a);
    if a.ConsumerStep? {
      ConsumerKeeps(s);
      ConsumerOnly(s);
    }
  }

  lemma ConsumerOnly<T>(s: State<T>)
    requires Inv(s)
    ensures ConsumerNext(s).p == s.p && ConsumerNext(s).pushed == s.pushed
  {
  }

  lemma ProducerOnly<T>(s: State<T>)
    requires Inv(s)
    ensures ProducerNext(s).c == s.c && ProducerNext(s).popped == s.popped
  {
  }

  /** Once nothing runs on the producer's side, nothing changes there. */
  lemma {:induction false} PushIdle<T>(s: State<T>, actions: seq<Action<T>>, s': State<T>)
    requires Inv(s) && s.p.PIdle? && Reaches(s, actions, s') && NoPush(actions)
    ensures s'.p.PIdle? && s'.pushed == s.pushed
    decreases |actions|
  {
    if actions != [] {
      StepKeeps(s, actions[0]);
      if !actions[0].ProducerStep? {
        OthersLetPush(s, actions[0]);
      }
      PushIdle(Step(s, actions[0]), actions[1..], s');
    }
  }

  /** An admitted push finishes with exactly its own number of steps, whatever the consumer does
      between them, and then its data are among the pushed ones. */
  lemma {:induction false} AdmittedPushFinishes<T>(s: State<T>, actions: seq<Action<T>>, s': State<T>)
    requires Inv(s) && Admitted(s) && Reaches(s, actions, s') && NoPush(actions)
    ensures if ProducerSteps(actions) >= PushLeft(s.p) then s'.p.PIdle? && s'.pushed == s.pushed + [s.p.data]
            else s'.p.Pushing? && PushLeft(s'.p) == PushLeft(s.p) - ProducerSteps(actions) && s'.pushed == s.pushed
    decreases |actions|
  {
    hide Inv, PushNext, PopNext;
    if actions == [] {
      PushStep(s);
    } else {
      var a, s1 := actions[0], Step(s, actions[0]);
      if a.ProducerStep? {
        PushStep(s);
        if PushLeft(s.p) == 1 {
          PushIdle(s1, actions[1..], s');
        } else {
          AdmittedPushFinishes(s1, actions[1..], s');
        }
      } else {
        OthersLetPush(s, a);
        AdmittedPushFinishes(s1, actions[1..], s');
      }
    }
  }

  /** While the producer waits for its turn its call stays as it is. */
  lemma {:induction false} PushWaits<T>(s: State<T>, actions: seq<Action<T>>, s': State<T>)
    requires Inv(s) && Reaches(s, actions, s') && NoPush(actions) && ProducerSteps(actions) == 0
    ensures Inv(s') && s'.p == s.p && s'.pushed == s.pushed && |s'.buf| == |s.buf|
    decreases |actions|
  {
    hide Inv;
    if actions != [] {
      OthersLetPush(s, actions[0]);
      PushWaits(Step(s, actions[0]), actions[1..], s');
    }
  }

  /** A whole call of cq_push (`bulk` false) or cq_push_n. Whatever the consumer did before the
      producer's first step and does after it: if at that step, in state `t`, the data do not
      fit, the call is over with nothing pushed; if they do, it is over after four more steps
      of its own for each element, with all of them pushed. */
  lemma PushCall<T>(s: State<T>, data: seq<T>, bulk: bool, quiet: seq<Action<T>>, t: State<T>, rest: seq<Action<T>>, s': State<T>)
    requires Inv(s) && s.p.PIdle? && data != [] && (!bulk ==> |data| == 1)
    requires Reaches(Step(s, if bulk then StartPushN(data) else StartPush(data[0])), quiet, t)
    requires NoPush(quiet) && ProducerSteps(quiet) == 0 && NoPush(rest)
    requires Inv(t) && Reaches(Step(t, ProducerStep), rest, s')
    ensures if |Pending(t)| + |data| > |s.buf| - 1 then s'.p.PIdle? && s'.pushed == s.pushed
            else ProducerSteps(rest) >= 4 * |data| ==> s'.p.PIdle? && s'.pushed == s.pushed + [data]
  {
    hide Flat, Unread, Admitted;
    var a := if bulk then StartPushN(data) else StartPush(data[0]);
    var s1 := Step(s, a);
    StepKeeps(s, a);
    PushWaits(s1, quiet, t);
    StepKeeps(t, ProducerStep);
    assert bulk || [data[0]] == data;
    var t' := ProducerNext(t);
    PushStarts(t);
    if t'.p.PIdle? {
      PushIdle(t', rest, s');
    } else {
      AdmittedPushFinishes(t', rest, s');
    }
  }

  /** The first step of a call decides. */
  lemma PushStarts<T>(t: State<T>)
    requires Inv(t) && (t.p.PSpace? || (t.p.Pushing? && !t.p.bulk && t.p.at.AtFull?))
    ensures var t' := ProducerNext(t);
      && Inv(t') && t'.pushed == t.pushed
      && (if |Pending(t)| + |t.p.data| > |t.buf| - 1 then t'.p.PIdle?
          else Admitted(t') && t'.p.data == t.p.data && PushLeft(t'.p) <= 4 * |t.p.data|)
  {
    ProducerKeeps(t);
    NelemCounts(t.buf, t.head, t.tail);
  }

  /// The same for the consumer.

  /** A pop that finds all it still wants among the unread elements. */
  ghost predicate Supplied<T>(s: State<T>)
    requires Shape(|s.buf|, s.head, s.tail)
  {
    s.c.Popping? && |s.c.got| < s.c.k <= |s.c.got| + |Pending(s)|
  }

  /** What it will come back with. */
  ghost function Catch<T>(s: State<T>): seq<T>
    requires Shape(|s.buf|, s.head, s.tail) && Supplied(s)
  {
    s.c.got + Pending(s)[..s.c.k - |s.c.got|]
  }

  function PopLeft<T>(c: Consumer<T>): int
    requires c.Popping?
  {
    4 * (c.k - |c.got|) - match c.at case AtEmpty => 0 case AtTail => 1 case AtRead(_) => 2 case AtAdvance(_, _) => 3
  }

  lemma PopAdvances<T>(s: State<T>)
    requires Inv(s) && Supplied(s) && s.c.at.AtAdvance?
    ensures var s' := PopNext(s);
      && Inv(s')
      && (if |s.c.got| + 1 == s.c.k then s'.c == CIdle && s'.popped == s.popped + [Catch(s)]
          else s'.c == s.c.(got := s.c.got + [s.c.at.e], at := AtEmpty) && s'.popped == s.popped &&
               Supplied(s') && Catch(s') == Catch(s))
  {
    hide PushingOk, Accepted, Delivered, Unread, Flat;
    AdvanceShifts(s);
    AdvanceKeeps(s);
    AdvanceDelivers(s);
    var u, m := Pending(s), s.c.k - |s.c.got|;
    assert u[..m] == [s.c.at.e] + u[1..][..m - 1];
  }

  lemma PopLooks<T>(s: State<T>)
    requires Inv(s) && Supplied(s) && !s.c.at.AtAdvance?
    ensures var s' := PopNext(s);
      && Inv(s') && Supplied(s') && Catch(s') == Catch(s) && PopLeft(s'.c) == PopLeft(s.c) - 1 && s'.popped == s.popped
  {
    hide Flat;
    LooksKeep(s);
    assert s.head != s.tail;
  }

  lemma PopStep<T>(s: State<T>)
    requires Inv(s) && Supplied(s)
    ensures PopLeft(s.c) > 0
    ensures var s' := ConsumerNext(s);
      && Inv(s')
      && (if PopLeft(s.c) == 1 then s'.c.CIdle? && s'.popped == s.popped + [Catch(s)]
          else Supplied(s') && PopLeft(s'.c) == PopLeft(s.c) - 1 && Catch(s') == Catch(s) && s'.popped == s.popped)
  {
    hide Inv, Pending, Catch;
    if s.c.at.AtAdvance? {
      PopAdvances(s);
    } else {
      PopLooks(s);
    }
  }

  lemma OthersLetPop<T>(s: State<T>, a: Action<T>)
    requires Inv(s) && !a.ConsumerStep? && !a.StartPop? && !a.StartPopN? && !a.StartPopNNoblk?
    ensures var s' := Step(s, a); Inv(s') && s'.c == s.c && s'.popped == s.popped && Pending(s) <= Pending(s')
  {
    hide PushNext, Unread, Flat;
    StepKeeps(s, a);
    if a.ProducerStep? {
      ProducerKeeps(s);
      ProducerOnly(s);
    }
  }

  lemma OthersKeepCatch<T>(s: State<T>, a: Action<T>)
    requires Inv(s) && !a.ConsumerStep? && !a.StartPop? && !a.StartPopN? && !a.StartPopNNoblk? && Supplied(s)
    ensures var s' := Step(s, a);
      Inv(s') && s'.c == s.c && s'.popped == s.popped && Supplied(s') && Catch(s') == Catch(s)
  {
    hide Inv, Pending, Step;
    OthersLetPop(s, a);
  }

  lemma {:induction false} PopIdle<T>(s: State<T>, actions: seq<Action<T>>, s': State<T>)
    requires Inv(s) && s.c.CIdle? && Reaches(s, actions, s') && NoPop(actions)
    ensures s'.c.CIdle? && s'.popped == s.popped
    decreases |actions|
  {
    if actions != [] {
      StepKeeps(s, actions[0]);
      if !actions[0].ConsumerStep? {
        OthersLetPop(s, actions[0]);
      }
      PopIdle(Step(s, actions[0]), actions[1..], s');
    }
  }

  /** A pop that is supplied finishes with exactly its own number of steps, whatever the producer
      does between them, and comes back with the oldest elements; cq_pop_n included, which
      without supply waits. */
  lemma {:induction false} SuppliedPopFinishes<T>(s: State<T>, actions: seq<Action<T>>, s': State<T>)
    requires Inv(s) && Supplied(s) && Reaches(s, actions, s') && NoPop(actions)
    ensures if ConsumerSteps(actions) >= PopLeft(s.c) then s'.c.CIdle? && s'.popped == s.popped + [Catch(s)]
            else s'.c.Popping? && PopLeft(s'.c) == PopLeft(s.c) - ConsumerSteps(actions) && s'.popped == s.popped
    decreases |actions|
  {
    hide PushNext, PopNext, Supplied, Catch, PushingOk, PoppingOk, Accepted, Delivered, Unread;
    SuppliedPops(s);
    PopStep(s);
    if actions != [] {
      var a, s1 := actions[0], Step(s, actions[0]);
      if a.ConsumerStep? {
        if PopLeft(s.c) == 1 {
          PopIdle(s1, actions[1..], s');
        } else {
          SuppliedPopFinishes(s1, actions[1..], s');
        }
      } else {
        OthersKeepCatch(s, a);
        SuppliedPopFinishes(s1, actions[1..], s');
      }
    }
  }

  lemma SuppliedPops<T>(s: State<T>)
    requires Shape(|s.buf|, s.head, s.tail) && Supplied(s)
    ensures s.c.Popping?
  {
  }

  lemma {:induction false} PopWaits<T>(s: State<T>, actions: seq<Action<T>>, s': State<T>)
    requires Inv(s) && Reaches(s, actions, s') && NoPop(actions) && ConsumerSteps(actions) == 0
    ensures Inv(s') && s'.c == s.c && s'.popped == s.popped
    decreases |actions|
  {
    hide Inv;
    if actions != [] {
      OthersLetPop(s, actions[0]);
      PopWaits(Step(s, actions[0]), actions[1..], s');
    }
  }

  /** A whole call of cq_pop_nonblock (`counted` false) or cq_pop_n_noblk: if at the consumer's
      first step, in state `t`, fewer than `k` elements are unread, it is over with nothing
      popped; otherwise it is over after four more steps of its own for each element, with the
      `k` that were oldest in `t`. */
  lemma PopCall<T>(s: State<T>, k: nat, counted: bool, quiet: seq<Action<T>>, t: State<T>, rest: seq<Action<T>>, s': State<T>)
    requires Inv(s) && s.c.CIdle? && (!counted ==> k == 1)
    requires Reaches(Step(s, if counted then StartPopNNoblk(k) else StartPop), quiet, t)
    requires NoPop(quiet) && ConsumerSteps(quiet) == 0 && NoPop(rest)
    requires Inv(t) && Reaches(Step(t, ConsumerStep), rest, s')
    ensures if |Pending(t)| < k then s'.c.CIdle? && s'.popped == s.popped
            else ConsumerSteps(rest) >= 4 * k ==> s'.c.CIdle? && s'.popped == s.popped + [Pending(t)[..k]]
  {
    hide Flat, Unread, Supplied, Catch;
    var a := if counted then StartPopNNoblk(k) else StartPop;
    var s1 := Step(s, a);
    StepKeeps(s, a);
    PopWaits(s1, quiet, t);
    var t' := ConsumerNext(t);
    StepKeeps(t, ConsumerStep);
    PopStarts(t, k);
    if t'.c.CIdle? {
      PopIdle(t', rest, s');
    } else {
      SuppliedPopFinishes(t', rest, s');
    }
  }

  lemma PopStarts<T>(t: State<T>, k: nat)
    requires Inv(t) && (t.c == CCount(k) || (k == 1 && t.c == Popping(1, [], Single, AtEmpty)))
    ensures var t' := ConsumerNext(t);
      && Inv(t')
      && (if |Pending(t)| < k then t'.c.CIdle? && t'.popped == t.popped
          else if k == 0 then t'.c.CIdle? && t'.popped == t.popped + [Pending(t)[..k]]
          else Supplied(t') && PopLeft(t'.c) <= 4 * k && Catch(t') == Pending(t)[..k] && t'.popped == t.popped)
  {
    ConsumerKeeps(t);
    NelemCounts(t.buf, t.head, t.tail);
    assert t.head == t.tail <==> Pending(t) == [];
  }

  /** A whole call of cq_pop_n, from any moment `t` before its first step at which enough is
      unread: it takes four steps for each element and comes back with the oldest. */
  lemma PopNCall<T>(s: State<T>, k: nat, quiet: seq<Action<T>>, t: State<T>, rest: seq<Action<T>>, s': State<T>)
    requires Inv(s) && s.c.CIdle? && k > 0
    requires Reaches(Step(s, StartPopN(k)), quiet, t)
    requires NoPop(quiet) && ConsumerSteps(quiet) == 0 && NoPop(rest)
    requires Inv(t) && |Pending(t)| >= k && Reaches(t, rest, s')
    ensures ConsumerSteps(rest) >= 4 * k ==> s'.c.CIdle? && s'.popped == s.popped + [Pending(t)[..k]]
  {
    hide Flat, Unread, Supplied, Catch;
    StepKeeps(s, StartPopN(k));
    PopWaits(Step(s, StartPopN(k)), quiet, t);
    FreshPop(t);
    SuppliedPopFinishes(t, rest, s');
  }

  lemma FreshPop<T>(t: State<T>)
    requires Inv(t) && t.c.Popping? && t.c.got == [] && 0 < t.c.k <= |Pending(t)|
    ensures Supplied(t) && Catch(t) == Pending(t)[..t.c.k] && PopLeft(t.c) <= 4 * t.c.k
  {
  }

  /// Such runs exist.

  lemma {:induction false} RunGoesOn<T>(s: State<T>, actions: seq<Action<T>>) returns (s': State<T>)
    requires Inv(s)
    ensures Reaches(s, actions, s') && Inv(s')
    decreases |actions|
  {
    if actions == [] {
      s' := s;
    } else {
      StepKeeps(s, actions[0]);
      s' := RunGoesOn(Step(s, actions[0]), actions[1..]);
    }
  }

  function Steps<T>(n: nat): seq<Action<T>> {
    if n == 0 then [] else [ProducerStep] + Steps(n - 1)
  }

  lemma {:induction false} AllSteps<T>(n: nat)
    ensures NoPush<T>(Steps(n)) && ProducerSteps<T>(Steps(n)) == n
  {
    if n > 0 {
      AllSteps<T>(n - 1);
      assert Steps<T>(n)[1..] == Steps<T>(n - 1);
    }
  }

  /** A push into an empty queue of at least two cells succeeds. */
  lemma FirstPush<T>(buf: seq<T>, x: T) returns (s': State<T>)
    requires 1 < |buf| <= TWO32 && TWO32 % |buf| == 0
    ensures Reaches(ProducerNext(Step(Init(buf), StartPush(x))), Steps(4), s')
    ensures s'.p.PIdle? && s'.pushed == [[x]]
  {
    var s := Init(buf);
    assert Inv(s);
    var t := Step(s, StartPush(x));
    StepKeeps(s, StartPush(x));
    StepKeeps(t, ProducerStep);
    AllSteps<T>(4);
    s' := RunGoesOn(ProducerNext(t), Steps(4));
    hide Inv, PushNext;
    PushCall(s, [x], false, [], t, Steps(4), s');
  }
}

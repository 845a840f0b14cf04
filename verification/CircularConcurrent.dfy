/** `libpi/libc/circular.h` with one producer and one consumer running at once: the calls of
    each side are cut into steps that touch the other side's index at most once, and the
    steps of the two sides interleave in any order. */
module CircularConcurrent {
  import opened Words
  import opened Ring

  /** The points inside cq_push: before its full test, before its space assertion, before the
      write of the cell and before the write of the head; `h` is the local copy of the head. */
  datatype PushPc = AtFull | AtCheck | AtWrite(h: Word) | AtPublish(h: Word)

  /** The producer is between calls, in cq_push_n before its space check, or in cq_push of
      element `i` of `data`; `bulk` tells a cq_push_n from a lone cq_push. */
  datatype Producer<T> =
    | PIdle
    | PSpace(data: seq<T>)
    | Pushing(data: seq<T>, i: nat, bulk: bool, at: PushPc)
    | PPanic

  /** cq_pop_nonblock alone, cq_pop_n, or the cq_pop_n inside cq_pop_n_noblk. */
  datatype Mode = Single | Blocking | Counted

  /** The points inside cq_pop_nonblock: before its empty test, before the read of the tail,
      before the read of the cell and before the write of the tail. */
  datatype PopPc<T> = AtEmpty | AtTail | AtRead(t: Word) | AtAdvance(t: Word, e: T)

  /** The consumer is between calls, in cq_pop_n_noblk before its count check, or in
      cq_pop_nonblock having popped `got` of the `k` elements it wants. */
  datatype Consumer<T> =
    | CIdle
    | CCount(k: nat)
    | Popping(k: nat, got: seq<T>, mode: Mode, at: PopPc<T>)

  /** The shared cells and indices, the two program counters, and history: the data of the
      finished successful calls of each side, and whether cq_pop_n_noblk ever waited. */
  datatype State<T> = State(
    buf: seq<T>, head: Word, tail: Word,
    p: Producer<T>, c: Consumer<T>,
    pushed: seq<seq<T>>, popped: seq<seq<T>>, waited: bool)

  datatype Action<T> =
    | ProducerStep | ConsumerStep
    | StartPush(x: T) | StartPushN(data: seq<T>)
    | StartPop | StartPopN(k: nat) | StartPopNNoblk(k: nat)

  function PushNext<T>(s: State<T>): State<T>
    requires Shape(|s.buf|, s.head, s.tail) && s.p.Pushing?
  {
    var n, i, data := |s.buf|, s.p.i, s.p.data;
    match s.p.at
    case AtFull =>
      if !Full(n, s.head, s.tail) then s.(p := s.p.(at := AtCheck))
      else s.(p := if s.p.bulk then PPanic else PIdle)
    case AtCheck =>
      s.(p := if Nspace(n, s.head, s.tail) > 0 then s.p.(at := AtWrite(s.head)) else PPanic)
    case AtWrite(h) =>
      if h < n && i < |data| then s.(buf := s.buf[h := data[i]], p := s.p.(at := AtPublish(h))) else s
    case AtPublish(h) =>
      var s' := s.(head := Next(n, h));
      if i + 1 < |data| then s'.(p := s.p.(i := i + 1, at := AtFull))
      else s'.(p := PIdle, pushed := s.pushed + [data])
  }

  function ProducerNext<T>(s: State<T>): State<T>
    requires Shape(|s.buf|, s.head, s.tail)
  {
    match s.p
    case PIdle => s
    case PPanic => s
    case PSpace(data) =>
      s.(p := if Nspace(|s.buf|, s.head, s.tail) < |data| then PIdle else Pushing(data, 0, true, AtFull))
    case Pushing(_, _, _, _) => PushNext(s)
  }

  function PopNext<T>(s: State<T>): State<T>
    requires Shape(|s.buf|, s.head, s.tail) && s.c.Popping?
  {
    match s.c.at
    case AtEmpty =>
      if s.head != s.tail then s.(c := s.c.(at := AtTail))
      else if s.c.mode.Single? then s.(c := CIdle)
      else if s.c.mode.Blocking? then s
      else s.(waited := true)
    case AtTail => s.(c := s.c.(at := AtRead(s.tail)))
    case AtRead(t) => if t < |s.buf| then s.(c := s.c.(at := AtAdvance(t, s.buf[t]))) else s
    case AtAdvance(t, e) =>
      var s' := s.(tail := Next(|s.buf|, t));
      var got := s.c.got + [e];
      if |got| < s.c.k then s'.(c := s.c.(got := got, at := AtEmpty))
      else s'.(c := CIdle, popped := s.popped + [got])
  }

  function ConsumerNext<T>(s: State<T>): State<T>
    requires Shape(|s.buf|, s.head, s.tail)
  {
    match s.c
    case CIdle => s
    case CCount(k) =>
      if Nelem(|s.buf|, s.head, s.tail) < k then s.(c := CIdle)
      else if k == 0 then s.(c := CIdle, popped := s.popped + [[]])
      else s.(c := Popping(k, [], Counted, AtEmpty))
    case Popping(_, _, _, _) => PopNext(s)
  }

  function Step<T>(s: State<T>, a: Action<T>): State<T>
    requires Shape(|s.buf|, s.head, s.tail)
  {
    match a
    case ProducerStep => ProducerNext(s)
    case ConsumerStep => ConsumerNext(s)
    case StartPush(x) => if s.p.PIdle? then s.(p := Pushing([x], 0, false, AtFull)) else s
    case StartPushN(data) => if s.p.PIdle? && data != [] then s.(p := PSpace(data)) else s
    case StartPop => if s.c.CIdle? then s.(c := Popping(1, [], Single, AtEmpty)) else s
    case StartPopN(k) => if s.c.CIdle? && k > 0 then s.(c := Popping(k, [], Blocking, AtEmpty)) else s
    case StartPopNNoblk(k) => if s.c.CIdle? then s.(c := CCount(k)) else s
  }

  /** cq_init, with any cell contents. */
  function Init<T>(buf: seq<T>): State<T> {
    State(buf, 0, 0, PIdle, CIdle, [], [], false)
  }

  function Flat<T>(ss: seq<seq<T>>): seq<T> {
    if ss == [] then [] else Flat(ss[..|ss| - 1]) + ss[|ss| - 1]
  }

  /** What the producer has published so far, finished calls and the current one together. */
  function Accepted<T>(s: State<T>): seq<T> {
    Flat(s.pushed) + if s.p.Pushing? && s.p.i <= |s.p.data| then s.p.data[..s.p.i] else []
  }

  /** What the consumer has taken so far. */
  function Delivered<T>(s: State<T>): seq<T> {
    Flat(s.popped) + if s.c.Popping? then s.c.got else []
  }

  ghost function Pending<T>(s: State<T>): seq<T>
    requires Shape(|s.buf|, s.head, s.tail)
  {
    Unread(s.buf, s.head, s.tail)
  }

  ghost predicate PushingOk<T>(s: State<T>)
    requires Shape(|s.buf|, s.head, s.tail) && s.p.Pushing?
  {
    var n, u, data, i := |s.buf|, |Pending(s)|, s.p.data, s.p.i;
    && i < |data|
    && (if s.p.bulk then u + (|data| - i) <= n - 1 else |data| == 1)
    && (!s.p.at.AtFull? ==> u < n - 1)
    && (s.p.at.AtWrite? ==> s.p.at.h == s.head)
    && (s.p.at.AtPublish? ==> s.p.at.h == s.head && s.buf[s.head] == data[i])
  }

  ghost predicate PoppingOk<T>(s: State<T>)
    requires Shape(|s.buf|, s.head, s.tail) && s.c.Popping?
  {
    var u, k, got := Pending(s), s.c.k, s.c.got;
    && |got| < k && (s.c.mode.Single? ==> k == 1)
    && (s.c.mode.Counted? ==> k - |got| <= |u|)
    && (!s.c.at.AtEmpty? ==> u != [])
    && (s.c.at.AtRead? ==> s.c.at.t == s.tail)
    && (s.c.at.AtAdvance? ==> s.c.at.t == s.tail && s.c.at.e == u[0])
  }

  /** The invariant: what was accepted is what was delivered followed by what is unread. */
  ghost predicate Inv<T>(s: State<T>) {
    && Shape(|s.buf|, s.head, s.tail)
    && Accepted(s) == Delivered(s) + Pending(s)
    && s.p != PPanic && (s.p.PSpace? ==> s.p.data != []) && (s.p.Pushing? ==> PushingOk(s))
    && (s.c.Popping? ==> PoppingOk(s)) && !s.waited
  }

  lemma FlatSnoc<T>(ss: seq<seq<T>>, x: seq<T>)
    ensures Flat(ss + [x]) == Flat(ss) + x
  {
    assert (ss + [x])[..|ss|] == ss;
  }

  lemma PublishAppends<T>(s: State<T>)
    requires Inv(s) && s.p.Pushing? && s.p.at.AtPublish?
    ensures var s' := PushNext(s);
      Shape(|s'.buf|, s'.head, s'.tail) && |s'.buf| == |s.buf| && Pending(s') == Pending(s) + [s.p.data[s.p.i]]
  {
    var x := s.p.data[s.p.i];
    NelemCounts(s.buf, s.head, s.tail);
    NextIsNext(|s.buf|, s.head);
    PushAppends(s.buf, s.head, s.tail, x);
    assert s.buf[s.head := x] == s.buf;
  }

  lemma PublishAccepts<T>(s: State<T>)
    requires Inv(s) && s.p.Pushing? && s.p.at.AtPublish?
    ensures Accepted(PushNext(s)) == Accepted(s) + [s.p.data[s.p.i]] && Delivered(PushNext(s)) == Delivered(s)
  {
    hide Flat, Unread;
    var data, i := s.p.data, s.p.i;
    assert data[..i + 1] == data[..i] + [data[i]];
    if i + 1 == |data| {
      FlatSnoc(s.pushed, data);
      assert data == data[..i + 1];
    }
  }

  /** Publishing adds the element to the accepted ones and to the unread cells. */
  lemma PublishKeeps<T>(s: State<T>)
    requires Inv(s) && s.p.Pushing? && s.p.at.AtPublish?
    ensures Inv(PushNext(s)) && |PushNext(s).buf| == |s.buf|
    ensures exists x :: Pending(PushNext(s)) == Pending(s) + [x]
  {
    hide Accepted, Delivered, Unread, Next;
    PublishAppends(s);
    PublishAccepts(s);
    assert Delivered(s) + (Pending(s) + [s.p.data[s.p.i]]) == Delivered(s) + Pending(s) + [s.p.data[s.p.i]];
  }

  lemma WriteKeeps<T>(s: State<T>)
    requires Inv(s) && s.p.Pushing? && s.p.at.AtWrite?
    ensures Inv(PushNext(s)) && Pending(PushNext(s)) == Pending(s) && |PushNext(s).buf| == |s.buf|
  {
    NelemCounts(s.buf, s.head, s.tail);
    PushAppends(s.buf, s.head, s.tail, s.p.data[s.p.i]);
  }

  lemma ChecksKeep<T>(s: State<T>)
    requires Inv(s) && s.p.Pushing? && (s.p.at.AtFull? || s.p.at.AtCheck?)
    ensures Inv(PushNext(s)) && Pending(PushNext(s)) == Pending(s) && |PushNext(s).buf| == |s.buf|
  {
    hide Unread, Flat;
    NelemCounts(s.buf, s.head, s.tail);
  }

  lemma SpaceKeeps<T>(s: State<T>)
    requires Inv(s) && s.p.PSpace?
    ensures var s' := ProducerNext(s); Inv(s') && Pending(s') == Pending(s) && |s'.buf| == |s.buf|
  {
    hide Unread, Flat;
    NelemCounts(s.buf, s.head, s.tail);
    var s' := ProducerNext(s);
    assert Flat(s.pushed) + [] == Flat(s.pushed);
    assert Accepted(s') == Accepted(s) && Delivered(s') == Delivered(s);
  }

  /** One producer step keeps the invariant and adds at most one element at the end: no
      unread cell is overwritten. */
  lemma ProducerKeeps<T>(s: State<T>)
    requires Inv(s)
    ensures var s' := ProducerNext(s);
      Inv(s') && |s'.buf| == |s.buf| && (Pending(s') == Pending(s) || exists x :: Pending(s') == Pending(s) + [x])
  {
    hide Inv, PushNext, Unread;
    match s.p
    case PIdle =>
    case PPanic =>
    case PSpace(_) => SpaceKeeps(s);
    case Pushing(_, _, _, at) =>
      match at {
        case AtFull => ChecksKeep(s);
        case AtCheck => ChecksKeep(s);
        case AtWrite(_) => WriteKeeps(s);
        case AtPublish(_) => PublishKeeps(s);
      }
  }

  lemma AdvanceDelivers<T>(s: State<T>)
    requires Inv(s) && s.c.Popping? && s.c.at.AtAdvance?
    ensures Delivered(PopNext(s)) == Delivered(s) + [s.c.at.e]
    ensures |s.c.got| + 1 >= s.c.k ==> PopNext(s).popped == s.popped + [s.c.got + [s.c.at.e]]
  {
    FlatSnoc(s.popped, s.c.got + [s.c.at.e]);
  }

  lemma AdvanceShifts<T>(s: State<T>)
    requires Inv(s) && s.c.Popping? && s.c.at.AtAdvance?
    ensures var s' := PopNext(s);
      Shape(|s'.buf|, s'.head, s'.tail) && Pending(s) == [s.c.at.e] + Pending(s')
  {
    NextIsNext(|s.buf|, s.tail);
    PopRemoves(s.buf, s.head, s.tail);
  }

  lemma AdvanceAccounts<T>(s: State<T>)
    requires Inv(s) && s.c.Popping? && s.c.at.AtAdvance?
    ensures var s' := PopNext(s);
      Shape(|s'.buf|, s'.head, s'.tail) && Accepted(s') == Delivered(s') + Pending(s')
  {
    hide Flat, Unread;
    var s', e := PopNext(s), s.c.at.e;
    AdvanceShifts(s);
    AdvanceDelivers(s);
    assert Accepted(s') == Accepted(s);
    assert Accepted(s') == Delivered(s) + ([e] + Pending(s')) == Delivered(s') + Pending(s');
  }

  /** Advancing the tail moves the oldest unread element to the delivered ones. */
  lemma AdvanceKeeps<T>(s: State<T>)
    requires Inv(s) && s.c.Popping? && s.c.at.AtAdvance?
    ensures Inv(PopNext(s))
    ensures Pending(PopNext(s)) == Pending(s)[1..]
  {
    hide Accepted, Delivered, Unread, Next;
    AdvanceShifts(s);
    AdvanceAccounts(s);
  }

  lemma LooksKeep<T>(s: State<T>)
    requires Inv(s) && s.c.Popping? && !s.c.at.AtAdvance?
    ensures Inv(PopNext(s)) && PopNext(s).buf == s.buf && PopNext(s).head == s.head && PopNext(s).tail == s.tail
    ensures PopNext(s).popped == s.popped
  {
    hide Flat, Unread;
    var s' := PopNext(s);
    assert Delivered(s') == Delivered(s);
    assert Pending(s') == Pending(s);
    if s.c.at.AtRead? {
      PopRemoves(s.buf, s.head, s.tail);
    } else if s.c.at.AtEmpty? {
      assert s.head != s.tail <==> Pending(s) != [];
    }
  }

  lemma CountKeeps<T>(s: State<T>)
    requires Inv(s) && s.c.CCount?
    ensures Inv(ConsumerNext(s)) && Pending(ConsumerNext(s)) == Pending(s)
    ensures ConsumerNext(s).popped == s.popped || (s.c.k == 0 && ConsumerNext(s).popped == s.popped + [[]])
  {
    NelemCounts(s.buf, s.head, s.tail);
    FlatSnoc(s.popped, []);
    hide Flat, Unread;
    var s' := ConsumerNext(s);
    assert Flat(s.popped) + [] == Flat(s.popped);
    assert Delivered(s') == Delivered(s);
    assert Accepted(s') == Accepted(s) && Pending(s') == Pending(s);
  }

  /** One consumer step keeps the invariant and removes at most the oldest element. */
  lemma ConsumerKeeps<T>(s: State<T>)
    requires Inv(s)
    ensures var s' := ConsumerNext(s);
      Inv(s') && |s'.buf| == |s.buf| && (Pending(s') == Pending(s) || (Pending(s) != [] && Pending(s') == Pending(s)[1..]))
  {
    match s.c
    case CIdle =>
    case CCount(k) =>
      CountKeeps(s);
    case Popping(k, got, mode, at) =>
      if at.AtAdvance? {
        AdvanceKeeps(s);
      } else {
        LooksKeep(s);
      }
  }

  /** A pop call that succeeds has exactly as many elements as it was asked for. */
  lemma SuccessIsComplete<T>(s: State<T>)
    requires Inv(s) && ConsumerNext(s).popped != s.popped
    ensures exists r: seq<T> :: ConsumerNext(s).popped == s.popped + [r] && |r| == s.c.k
  {
    if s.c.CCount? {
      CountKeeps(s);
    } else if s.c.at.AtAdvance? {
      AdvanceDelivers(s);
    }
  }

  lemma StepKeeps<T>(s: State<T>, a: Action<T>)
    requires Inv(s)
    ensures Inv(Step(s, a)) && |Step(s, a).buf| == |s.buf|
  {
    hide PushNext, PopNext, ProducerNext, ConsumerNext, Unread, Flat;
    match a
    case ProducerStep => ProducerKeeps(s);
    case ConsumerStep => ConsumerKeeps(s);
    case StartPush(x) =>
    case StartPushN(data) =>
    case StartPop =>
    case StartPopN(k) =>
    case StartPopNNoblk(k) =>
  }

  /** The state after `actions`, in order. */
  ghost predicate Reaches<T>(s: State<T>, actions: seq<Action<T>>, s': State<T>)
    decreases |actions|
  {
    if actions == [] then s == s'
    else Shape(|s.buf|, s.head, s.tail) && Reaches(Step(s, actions[0]), actions[1..], s')
  }

  lemma {:induction false} RunKeeps<T>(s: State<T>, actions: seq<Action<T>>, s': State<T>)
    requires Inv(s) && Reaches(s, actions, s')
    ensures Inv(s') && |s'.buf| == |s.buf|
    decreases |actions|
  {
    if actions != [] {
      StepKeeps(s, actions[0]);
      RunKeeps(Step(s, actions[0]), actions[1..], s');
    }
  }

  /** For every interleaving of the two sides: what the consumer got is a prefix of what the
      producer's accepted calls pushed, in order; the elements between are exactly the
      unread cells, never more than n-1, and cq_nelem counts them at any moment; neither
      panic of the producer is reachable; and cq_pop_n_noblk never waits. */
  lemma LockFreeFifo<T>(buf: seq<T>, actions: seq<Action<T>>, s: State<T>)
    requires 0 < |buf| <= TWO32 && TWO32 % |buf| == 0
    requires Reaches(Init(buf), actions, s)
    ensures Shape(|s.buf|, s.head, s.tail) && |s.buf| == |buf|
    ensures Accepted(s) == Delivered(s) + Pending(s)
    ensures |Pending(s)| <= |buf| - 1
    ensures Nelem(|s.buf|, s.head, s.tail) == |Accepted(s)| - |Delivered(s)|
    ensures s.p != PPanic && !s.waited
  {
    assert Inv(Init(buf));
    RunKeeps(Init(buf), actions, s);
    NelemCounts(s.buf, s.head, s.tail);
  }
}

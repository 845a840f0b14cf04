/** The radio's receive path: `labs/17-nrf-networking/code/nrf-driver.c` and `nrf-public.c`
    over the circular queue of `libpi/libc/circular.h`. */
module Nrf {
  import opened Words
  import opened Circular
  import opened Radio
  import Timeout

  const CQ_N := 8192
  const NRF_TIMEOUT := 10

  /** `Waiting`: the timer reads that were looked at are used up, and the loop goes on. */
  datatype Outcome = Ok(n: nat) | TimedOut | Panicked | Waiting

  class Nic {
    var dev: Device
    const nbytes: nat               // config.nbytes
    const recvq: Cq<Byte>
    ghost var taken: seq<Packet>    // every packet taken from the device
    ghost var delivered: seq<Byte>  // every byte handed to a reader

    ghost predicate Sane()
      reads this, recvq
    {
      && recvq.n == CQ_N && recvq.Valid()
      && 0 < nbytes <= 32 && Sized(dev, nbytes)
    }

    /** Bytes already read, then those in the receive queue, are those taken off the device; with
        the packets still in its FIFO, they are all the packets it accepted. */
    ghost predicate Valid()
      reads this, recvq, recvq.c_buf
    {
      && Sane()
      && taken + dev.fifo == dev.accepted
      && delivered + recvq.Contents() == Bytes(taken)
    }

    constructor (dev: Device, nbytes: nat)
      requires 0 < nbytes <= 32 && Sized(dev, nbytes) && dev.accepted == dev.fifo
      ensures Valid() && fresh(recvq) && fresh(recvq.c_buf)
      ensures recvq.n == 8192 && this.dev == dev && this.nbytes == nbytes && delivered == [] && recvq.Contents() == []
    {
      this.dev, this.nbytes := dev, nbytes;
      recvq := new Cq(CQ_N, 0);
      taken, delivered := [], [];
    }

    /** The conservation law in one line; readers have a prefix of what was accepted. */
    lemma Conserved()
      requires Valid()
      ensures delivered + recvq.Contents() + Bytes(dev.fifo) == Bytes(dev.accepted)
      ensures delivered <= Bytes(dev.accepted)
    {
      BytesConcat(taken, dev.fifo);
    }

    /** One packet from the device to the queue; false is the panic for want of space. */
    method TakePacket() returns (ok: bool)
      requires Valid() && dev.fifo != []
      modifies this, recvq, recvq.c_buf
      ensures dev == Take(old(dev)) && delivered == old(delivered)
      ensures ok <==> old(|recvq.Contents()|) + nbytes < CQ_N
      ensures ok ==> Valid() && taken == old(taken) + [old(dev).fifo[0]]
      ensures ok ==> recvq.Contents() == old(recvq.Contents()) + old(dev).fifo[0]
    {
      hide Bytes, Sized, Take, recvq.Contents;
      var buf := dev.fifo[0];
      HeadSized(dev, nbytes);
      PollSized(dev, nbytes);
      TakeConserves(dev, taken);
      OnePacket(taken, buf);
      ok := recvq.PushN(buf);
      dev := Take(dev);
      if ok {
        taken := taken + [buf];
      }
    }

    /** A read of the status register, before which the next batch lands. */
    method HasPacket() returns (some: bool)
      requires Valid()
      modifies this
      ensures Valid() && dev == Poll(old(dev)) && (some <==> dev.fifo != [])
      ensures taken == old(taken) && delivered == old(delivered)
    {
      hide Bytes, Sized;
      PollSized(dev, nbytes);
      PollConserves(dev, taken);
      dev := Poll(dev);
      some := dev.fifo != [];
    }

    /** nrf_get_pkts: all the packets up to a status read that shows none, unless they do not
        fit in the queue, when it panics. */
    method NrfGetPkts() returns (res: Outcome)
      requires Valid()
      modifies this, recvq, recvq.c_buf
      ensures delivered == old(delivered)
      ensures var ps := GetPkts(old(dev)).1;
        res == if old(|recvq.Contents()|) + |Bytes(ps)| < CQ_N then Ok(|ps|) else Panicked
      ensures res != Panicked ==> Valid() && dev == GetPkts(old(dev)).0
      ensures res != Panicked ==> recvq.Contents() == old(recvq.Contents()) + Bytes(GetPkts(old(dev)).1)
    {
      hide Bytes, Sized, Drain;
      var more := HasPacket();
      if !more {
        assert Bytes([]) == [] by { NoPackets(); }
        return Ok(0);
      }
      res := DrainFifo();
    }

    /** The loop of nrf_get_pkts, from its first status read that shows a packet. */
    method DrainFifo() returns (res: Outcome)
      requires Valid() && dev.fifo != []
      modifies this, recvq, recvq.c_buf
      ensures delivered == old(delivered)
      ensures var ps := Drain(old(dev)).1;
        res == if old(|recvq.Contents()|) + |Bytes(ps)| < CQ_N then Ok(|ps|) else Panicked
      ensures res != Panicked ==> Valid() && dev == Drain(old(dev)).0
      ensures res != Panicked ==> recvq.Contents() == old(recvq.Contents()) + Bytes(Drain(old(dev)).1)
    {
      hide Bytes, Sized, Drain, Poll, Take, Draining, recvq.Contents;
      ghost var d0, c := dev, recvq.Contents();
      ghost var got: seq<Packet> := [];
      DrainStarts(d0);
      NoPackets();
      var n, more := 0, true;
      while more
        invariant Valid() && delivered == old(delivered)
        invariant Draining(d0, dev, got) && (more <==> dev.fifo != [])
        invariant |got| == n && recvq.Contents() == c + Bytes(got)
        decreases |dev.air|, |dev.fifo|, more
      {
        DrainOne(d0, dev, got);
        ghost var p := dev.fifo[0];
        OnePacket(got, p);
        HeadSized(dev, nbytes);
        var ok := TakePacket();
        if !ok {
          return Panicked;
        }
        got := got + [p];
        n := n + 1;
        more := HasPacket();
      }
      DrainEnds(d0, dev, got);
      return Ok(n);
    }

    /** nrf_nbytes_avail. */
    method NrfNbytesAvail() returns (res: Outcome)
      requires Valid()
      modifies this, recvq, recvq.c_buf
      ensures delivered == old(delivered)
      ensures var n := |Arrived(old(dev), old(recvq.Contents()))|; res == if n < CQ_N then Ok(n) else Panicked
      ensures res != Panicked ==> Valid() && dev == GetAll(old(dev)).0
      ensures res != Panicked ==> recvq.Contents() == Arrived(old(dev), old(recvq.Contents()))
    {
      hide Bytes, Sized, GetPkts, GetAll, Getting, recvq.Contents;
      ghost var d0, c := dev, recvq.Contents();
      ghost var got: seq<Packet> := [];
      NoPackets();
      GettingStarts(d0);
      var more := true;
      while more
        invariant Valid() && delivered == old(delivered)
        invariant Getting(d0, dev, got, more) && recvq.Contents() == c + Bytes(got)
        decreases |dev.air|, |dev.fifo|, more
      {
        GetOne(d0, dev, got);
        ghost var ps := GetPkts(dev).1;
        BytesConcat(got, ps);
        var r := NrfGetPkts();
        if r == Panicked {
          return Panicked;
        }
        got := got + ps;
        more := r.n != 0;
      }
      GettingEnds(d0, dev, got);
      var n := recvq.Count();
      return Ok(n);
    }

    /** nrf_read_exact_noblk: exactly `k` bytes, the oldest ones, or none at all. */
    method NrfReadExactNoblk(msg: array<Byte>, k: nat) returns (res: Outcome)
      requires Valid() && k <= msg.Length && msg != recvq.c_buf
      modifies this, recvq, recvq.c_buf, msg
      ensures var n := |Arrived(old(dev), old(recvq.Contents()))|;
        res == if k == 0 || n >= CQ_N then Panicked else if n < k then Ok(0) else Ok(k)
      ensures res != Panicked ==> Valid() && dev == GetAll(old(dev)).0
      ensures res == Ok(0) ==> msg[..] == old(msg[..]) && delivered == old(delivered)
      ensures res == Ok(0) ==> recvq.Contents() == Arrived(old(dev), old(recvq.Contents()))
      ensures res.Ok? && res != Ok(0) ==>
        && msg[..k] + recvq.Contents() == Arrived(old(dev), old(recvq.Contents()))
        && msg[k..] == old(msg[k..]) && delivered == old(delivered) + msg[..k]
    {
      hide Bytes, Sized, GetAll, Arrived, recvq.Contents;
      if k == 0 {
        return Panicked;
      }
      var avail := NrfNbytesAvail();
      if avail == Panicked {
        return Panicked;
      }
      if avail.n < k {
        return Ok(0);
      }
      var popped := recvq.PopN(msg, k);
      assert popped;    // it never waits
      delivered := delivered + msg[..k];
      return Ok(k);
    }

    /** nrf_read_exact_timeout. `clock` holds the true times of the timer reads, `ticks` what
        they show. A timeout comes at the first poll at which the measured time has reached the
        limit, never early, and leaves every byte unread; with polls less than a counter period
        apart that is the first poll at or after the true deadline. */
    method NrfReadExactTimeout(msg: array<Byte>, k: nat, usec: Word, ticks: seq<Word>, ghost clock: seq<nat>)
      returns (res: Outcome, ghost polls: nat)
      requires Valid() && k <= msg.Length && msg != recvq.c_buf && Clocked(ticks, clock)
      modifies this, recvq, recvq.c_buf, msg
      ensures res != Panicked ==> Valid()
      ensures res.Ok? ==> res == Ok(k) && k > 0 && delivered == old(delivered) + msg[..k]
      ensures res in {TimedOut, Waiting} ==>
        delivered == old(delivered) && |recvq.Contents()| < k && msg[..] == old(msg[..])
      ensures polls < |clock| && (res == Waiting ==> polls == |clock| - 1) && (res == TimedOut ==> polls > 0)
      ensures forall j :: 0 < j <= polls ==> (MeasuredAt(clock, j) >= usec <==> res == TimedOut && j == polls)
      ensures res == TimedOut ==> clock[polls] >= clock[0] + usec
      ensures Timeout.Prompt(clock[0], clock[1..]) ==>
        forall j :: 0 < j <= polls ==> (clock[j] >= clock[0] + usec <==> res == TimedOut && j == polls)
      ensures k == 0 ==> res == Panicked
    {
      hide Bytes, Sized, GetAll, Arrived, MeasuredAt, Timeout.Prompt, Timeout.Lost, Timeout.InOrder, Timeout.Counter;
      var t := new Timeout.TimeoutT(clock[0], ticks[0]);
      polls := 0;
      var i := 0;
      PromptMeasures(clock);
      while true
        invariant Valid() && delivered == old(delivered) && msg[..] == old(msg[..])
        invariant polls == i < |clock|
        invariant fresh(t) && t.Valid() && t.start == clock[0] && t.polls == clock[1..i + 1]
        invariant forall j :: 0 < j <= i ==> MeasuredAt(clock, j) < usec
        decreases |clock| - i
      {
        var n := NrfReadExactNoblk(msg, k);
        if n != Ok(0) {
          return n, polls;
        }
        if i + 1 == |ticks| {
          return Waiting, polls;
        }
        i := i + 1;
        polls := i;
        NextPoll(ticks, clock, i);
        var late := t.Usec(clock[i], ticks[i], usec);
        if late {
          return TimedOut, polls;
        }
      }
    }

    /** nrf_read_exact: all the bytes, or a panic. */
    method NrfReadExact(msg: array<Byte>, k: nat, ticks: seq<Word>, ghost clock: seq<nat>) returns (res: Outcome)
      requires Valid() && k <= msg.Length && msg != recvq.c_buf && Clocked(ticks, clock)
      modifies this, recvq, recvq.c_buf, msg
      ensures res in {Ok(k), Panicked, Waiting}
      ensures res == Ok(k) ==> Valid() && delivered == old(delivered) + msg[..k]
      ensures res == Waiting && |clock| > 1 ==> MeasuredAt(clock, |clock| - 1) < 10_000_000
    {
      ghost var polls;
      res, polls := NrfReadExactTimeout(msg, k, NRF_TIMEOUT * 1000 * 1000, ticks, clock);
      if res == TimedOut {
        return Panicked;
      }
    }
  }

  ghost predicate Clocked(ticks: seq<Word>, clock: seq<nat>) {
    && |ticks| == |clock| > 0 && (forall i :: 0 <= i < |clock| ==> ticks[i] == Timeout.Counter(clock[i]))
    && (forall i, j :: 0 <= i < j < |clock| ==> clock[i] <= clock[j])
    && clock[|clock| - 1] < clock[0] + Timeout.TWO64
  }

  /** The time since read 0 as the code has it at read `j`. */
  ghost function MeasuredAt(clock: seq<nat>, j: int): int
    requires 0 <= j < |clock| && forall i, j :: 0 <= i < j < |clock| ==> clock[i] <= clock[j]
  {
    Timeout.Measured(clock[0], clock[1..j + 1])
  }

  lemma NextPoll(ticks: seq<Word>, clock: seq<nat>, i: nat)
    requires Clocked(ticks, clock) && 0 < i < |clock|
    ensures Timeout.LastPoll(clock[0], clock[1..i]) <= clock[i] < clock[0] + Timeout.TWO64
    ensures clock[1..i + 1] == clock[1..i] + [clock[i]]
    ensures MeasuredAt(clock, i) == clock[i] - clock[0] - Timeout.Lost(clock[0], clock[1..i] + [clock[i]]) * TWO32
  {
  }

  /** With prompt polls the measured time is the true one. */
  lemma PromptMeasures(clock: seq<nat>)
    requires clock != [] && forall i, j :: 0 <= i < j < |clock| ==> clock[i] <= clock[j]
    ensures Timeout.Prompt(clock[0], clock[1..]) ==>
      forall j :: 0 < j < |clock| ==> MeasuredAt(clock, j) == clock[j] - clock[0]
  {
    if Timeout.Prompt(clock[0], clock[1..]) {
      forall j | 0 < j < |clock| ensures MeasuredAt(clock, j) == clock[j] - clock[0] {
        PromptPrefix(clock[0], clock[1..], j);
        assert clock[1..][..j] == clock[1..j + 1];
        Timeout.LostNothing(clock[0], clock[1..j + 1]);
      }
    }
  }

  lemma {:induction false} PromptPrefix(start: nat, polls: seq<nat>, k: nat)
    requires k <= |polls| && Timeout.Prompt(start, polls)
    ensures Timeout.Prompt(start, polls[..k])
    decreases |polls|
  {
    if k < |polls| {
      var before := polls[..|polls| - 1];
      PromptPrefix(start, before, k);
      assert before[..k] == polls[..k];
    } else {
      assert polls[..k] == polls;
    }
  }

  /** What the queue holds after everything that can be had from the device was added to `c`. */
  ghost function Arrived(d: Device, c: seq<Byte>): seq<Byte> {
    c + Bytes(GetAll(d).1)
  }

  lemma TakeConserves(d: Device, taken: seq<Packet>)
    requires d.fifo != [] && taken + d.fifo == d.accepted
    ensures taken + [d.fifo[0]] + Take(d).fifo == Take(d).accepted
  {
  }

  lemma NoPackets()
    ensures Bytes([]) == []
  {
  }

  lemma HeadSized(d: Device, nbytes: nat)
    requires Sized(d, nbytes) && d.fifo != []
    ensures |d.fifo[0]| == nbytes
  {
  }

  /** The drain of `d0` when `got` has been taken and `d` is left. */
  ghost predicate Draining(d0: Device, d: Device, got: seq<Packet>)
    requires d0.fifo != []
  {
    if d.fifo == [] then Drain(d0) == (d, got) else Drain(d0) == (Drain(d).0, got + Drain(d).1)
  }

  lemma DrainStarts(d: Device)
    requires d.fifo != []
    ensures Draining(d, d, [])
  {
    assert [] + Drain(d).1 == Drain(d).1;
  }

  lemma DrainEnds(d0: Device, d: Device, got: seq<Packet>)
    requires d0.fifo != [] && d.fifo == [] && Draining(d0, d, got)
    ensures Drain(d0) == (d, got)
  {
  }

  lemma DrainOne(d0: Device, d: Device, got: seq<Packet>)
    requires d0.fifo != [] && d.fifo != [] && Draining(d0, d, got)
    ensures var d' := Poll(Take(d)); var p := d.fifo[0];
      && Draining(d0, d', got + [p])
      && |Bytes(Drain(d0).1)| >= |Bytes(got + [p])|
      && (|d'.air| < |d.air| || (|d'.air| == |d.air| && |d'.fifo| < |d.fifo|))
  {
    hide Drain, Bytes;
    var p, ps := d.fifo[0], Drain(d).1;
    DrainUnfolds(d);
    assert ps == [p] + ps[1..] && got + ps == got + [p] + ps[1..];
    BytesConcat(got + [p], ps[1..]);
  }

  lemma DrainUnfolds(d: Device)
    requires d.fifo != []
    ensures var d' := Poll(Take(d));
      Drain(d) == if d'.fifo == [] then (d', [d.fifo[0]]) else (Drain(d').0, [d.fifo[0]] + Drain(d').1)
  {
  }

  /** The run of drains from `d0` when `got` has been taken and `d` is left. */
  ghost predicate Getting(d0: Device, d: Device, got: seq<Packet>, more: bool) {
    if more then GetAll(d0) == (GetAll(d).0, got + GetAll(d).1) else GetAll(d0) == (d, got)
  }

  lemma GettingStarts(d: Device)
    ensures Getting(d, d, [], true)
  {
    assert [] + GetAll(d).1 == GetAll(d).1;
  }

  lemma GettingEnds(d0: Device, d: Device, got: seq<Packet>)
    requires Getting(d0, d, got, false)
    ensures GetAll(d0) == (d, got)
  {
  }

  lemma GetOne(d0: Device, d: Device, got: seq<Packet>)
    requires Getting(d0, d, got, true)
    ensures var (d', ps) := GetPkts(d);
      && Getting(d0, d', got + ps, ps != [])
      && |Bytes(GetAll(d0).1)| >= |Bytes(got + ps)|
      && |d'.air| <= |d.air| && d'.fifo == []
      && (ps != [] ==> |d'.air| < |d.air| || |d'.fifo| < |d.fifo|)
  {
    hide GetPkts, Bytes;
    var (d', ps) := GetPkts(d);
    var rest := if ps == [] then [] else GetAll(d').1;
    assert GetAll(d).1 == ps + rest && got + (ps + rest) == got + ps + rest;
    BytesConcat(got + ps, rest);
  }

  lemma OnePacket(taken: seq<Packet>, p: Packet)
    ensures Bytes(taken + [p]) == Bytes(taken) + p
  {
    BytesConcat(taken, [p]);
    assert [p][1..] == [];
  }
}

/** The radio's receive FIFO as the driver sees it: packets land between two reads of the
    status register, and the driver takes them one by one
    (`labs/17-nrf-networking/code/nrf-driver.c`). */
module Radio {
  import opened Words

  type Packet = seq<Byte>

  /** `air` holds what is still to arrive, one batch for each read of the status register;
      `fifo` what has arrived and not been taken; `accepted` everything that ever found room in
      the FIFO, which holds `depth` packets. */
  datatype Device = Device(air: seq<seq<Packet>>, fifo: seq<Packet>, accepted: seq<Packet>, depth: nat)

  /** The part of a batch that finds room; the hardware drops the rest. */
  function Fitting(d: Device): seq<Packet> {
    if d.air == [] then []
    else if |d.fifo| + |d.air[0]| <= d.depth then d.air[0]
    else if |d.fifo| <= d.depth then d.air[0][..d.depth - |d.fifo|]
    else []
  }

  /** The device when the status register is read. */
  function Poll(d: Device): Device {
    if d.air == [] then d else d.(air := d.air[1..], fifo := d.fifo + Fitting(d), accepted := d.accepted + Fitting(d))
  }

  function Take(d: Device): Device
    requires d.fifo != []
  {
    d.(fifo := d.fifo[1..])
  }

  /** nrf_get_pkts after the status register showed a packet: the packets taken, in order. */
  function Drain(d: Device): (r: (Device, seq<Packet>))
    requires d.fifo != []
    ensures r.0.fifo == [] && r.1 != [] && |r.0.air| <= |d.air|
    decreases |d.air|, |d.fifo|
  {
    var d' := Poll(Take(d));
    if d'.fifo == [] then (d', [d.fifo[0]])
    else var (d'', ps) := Drain(d'); (d'', [d.fifo[0]] + ps)
  }

  function GetPkts(d: Device): (r: (Device, seq<Packet>))
    ensures r.0.fifo == [] && |r.0.air| <= |d.air|
    ensures r.1 != [] ==> |r.0.air| < |d.air| || |r.0.fifo| < |d.fifo|
  {
    if Poll(d).fifo == [] then (Poll(d), []) else Drain(Poll(d))
  }

  /** The loop of nrf_nbytes_avail: drain until a drain finds nothing. */
  function GetAll(d: Device): (r: (Device, seq<Packet>))
    ensures r.0.fifo == [] && |r.0.air| <= |d.air|
    decreases |d.air|, |d.fifo|
  {
    var (d', ps) := GetPkts(d);
    if ps == [] then (d', []) else var (d'', qs) := GetAll(d'); (d'', ps + qs)
  }

  function Bytes(ps: seq<Packet>): (b: seq<Byte>) {
    if ps == [] then [] else ps[0] + Bytes(ps[1..])
  }

  lemma {:induction false} BytesConcat(a: seq<Packet>, b: seq<Packet>)
    ensures Bytes(a + b) == Bytes(a) + Bytes(b)
  {
    if a == [] {
      assert a + b == b;
    } else {
      assert (a + b)[1..] == a[1..] + b;
      BytesConcat(a[1..], b);
    }
  }

  /** Taking packets loses none, invents none and keeps their order: `taken` before them and
      the FIFO after them make up everything accepted. */
  lemma {:induction false} DrainConserves(d: Device, taken: seq<Packet>)
    requires d.fifo != [] && taken + d.fifo == d.accepted
    ensures var (d', ps) := Drain(d); taken + ps + d'.fifo == d'.accepted
    decreases |d.air|, |d.fifo|
  {
    var p := d.fifo[0];
    assert [p] + d.fifo[1..] == d.fifo;
    var d1 := Poll(Take(d));
    PollConserves(Take(d), taken + [p]);
    if d1.fifo != [] {
      DrainConserves(d1, taken + [p]);
      var (d', ps) := Drain(d1);
      assert taken + [p] + ps == taken + ([p] + ps);
    }
  }

  lemma PollConserves(d: Device, taken: seq<Packet>)
    requires taken + d.fifo == d.accepted
    ensures taken + Poll(d).fifo == Poll(d).accepted
  {
  }

  lemma GetPktsConserves(d: Device, taken: seq<Packet>)
    requires taken + d.fifo == d.accepted
    ensures var (d', ps) := GetPkts(d); taken + ps + d'.fifo == d'.accepted
  {
    PollConserves(d, taken);
    if Poll(d).fifo != [] {
      DrainConserves(Poll(d), taken);
    }
  }

  lemma {:induction false} GetAllConserves(d: Device, taken: seq<Packet>)
    requires taken + d.fifo == d.accepted
    ensures var (d', ps) := GetAll(d); taken + ps + d'.fifo == d'.accepted
    decreases |d.air|, |d.fifo|
  {
    GetPktsConserves(d, taken);
    var (d1, ps) := GetPkts(d);
    if ps != [] {
      GetAllConserves(d1, taken + ps);
      var (d2, qs) := GetAll(d1);
      assert taken + ps + qs == taken + (ps + qs);
    }
  }

  /** The FIFO takes as much of a batch as it has room for, from its front. */
  lemma FittingIsMost(d: Device)
    requires d.air != [] && |d.fifo| <= d.depth
    ensures Fitting(d) <= d.air[0] && |d.fifo| + |Fitting(d)| <= d.depth
    ensures Fitting(d) == d.air[0] || |d.fifo| + |Fitting(d)| == d.depth
  {
  }

  /// When the drivers stop: at reads of the status register before which nothing arrived.

  /** What was used up of the air between two states of a device. */
  predicate Used(d: Device, d': Device, n: nat) {
    n <= |d.air| && d.air[n..] == d'.air && d'.depth == d.depth
  }

  lemma {:induction false} DrainPauses(d: Device)
    requires d.fifo != [] && d.depth > 0
    ensures var d', n := Drain(d).0, |d.air| - |Drain(d).0.air|;
      Used(d, d', n) && (d'.air != [] ==> n > 0 && d.air[n - 1] == [])
    decreases |d.air|, |d.fifo|
  {
    var d1 := Poll(Take(d));
    if d1.fifo != [] {
      DrainPauses(d1);
    }
  }

  lemma GetPktsPauses(d: Device)
    requires d.depth > 0
    ensures var d', n := GetPkts(d).0, |d.air| - |GetPkts(d).0.air|;
      && Used(d, d', n) && (d'.air != [] ==> n > 0 && d.air[n - 1] == [])
      && (d'.air != [] && GetPkts(d).1 != [] ==> n > 1)
  {
    if Poll(d).fifo != [] {
      DrainPauses(Poll(d));
    }
  }

  /** nrf_nbytes_avail goes on until two reads of the status register in a row show that nothing
      arrived before them, one to end the last drain that found something and one to find that
      the next finds nothing; or a single one if it never finds anything. */
  lemma {:induction false} GetAllPauses(d: Device)
    requires d.depth > 0
    ensures var d', n := GetAll(d).0, |d.air| - |GetAll(d).0.air|;
      && Used(d, d', n) && d'.fifo == []
      && (d'.air != [] ==> n > 0 && d.air[n - 1] == [])
      && (d'.air != [] && GetAll(d).1 != [] ==> n > 1 && d.air[n - 2] == [])
    decreases |d.air|, |d.fifo|
  {
    GetPktsPauses(d);
    GetAllUnfolds(d);
    hide GetPkts, GetAll;
    var (d1, ps) := GetPkts(d);
    if ps != [] {
      GetAllPauses(d1);
      var n, n1 := |d.air| - |d1.air|, |d1.air| - |GetAll(d1).0.air|;
      assert d1.air == d.air[n..];
      assert d1.air[n1..] == d.air[n + n1..];
    }
  }

  lemma GetAllUnfolds(d: Device)
    ensures GetPkts(d).0.fifo == []
    ensures var (d', ps) := GetPkts(d);
      if ps == [] then GetAll(d) == (d', []) else GetAll(d).0 == GetAll(d').0 && GetAll(d).1 != []
    ensures GetPkts(d).1 != [] ==> |GetPkts(d).0.air| < |d.air| || (|GetPkts(d).0.air| <= |d.air| && |GetPkts(d).0.fifo| < |d.fifo|)
  {
  }

  /** Packets are all of the configured length, now and later. */
  predicate Sized(d: Device, nbytes: nat) {
    && (forall p :: p in d.fifo ==> |p| == nbytes)
    && (forall batch, p :: batch in d.air && p in batch ==> |p| == nbytes)
  }

  lemma PollSized(d: Device, nbytes: nat)
    requires Sized(d, nbytes)
    ensures Sized(Poll(d), nbytes)
    ensures d.fifo != [] ==> Sized(Take(d), nbytes)
  {
    assert forall p :: p in Fitting(d) ==> d.air != [] && p in d.air[0];
  }
}

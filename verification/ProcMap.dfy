/** The kernel's list of regions: `labs/16-vm-page-table/code/procmap.h`. */
module ProcMap {
  import opened Words
  import opened MemAttr
  import opened PageTable

  const MAX_ENT := 8
  const DOMAINS := 16

  datatype Kind = MEM_DEVICE | MEM_RW | MEM_RO

  /** `pr_ent_t`. */
  datatype PrEnt = PrEnt(addr: Word, nbytes: Word, kind: Kind, dom: Word)

  /** The demands of pr_ent_mk. */
  predicate Made(e: PrEnt) {
    e.nbytes == MB && e.dom < DOMAINS
  }

  /** The comparison procmap_lookup makes on 32-bit pointers: the end of the region wraps. */
  predicate Within(e: PrEnt, addr: Word) {
    e.addr <= addr < Add32(e.addr, e.nbytes)
  }

  /** What procmap_lookup returns: the first entry that passes its comparison. */
  function Find(es: seq<PrEnt>, addr: Word): Option<PrEnt> {
    if es == [] then None else if Within(es[0], addr) then Some(es[0]) else Find(es[1..], addr)
  }

  lemma {:induction false} FindIsFirst(es: seq<PrEnt>, addr: Word, k: nat)
    requires k <= |es| && forall j :: 0 <= j < k ==> !Within(es[j], addr)
    ensures k < |es| && Within(es[k], addr) ==> Find(es, addr) == Some(es[k])
    ensures k == |es| ==> Find(es, addr) == None
  {
    if k > 0 {
      assert forall j :: 0 <= j < k - 1 ==> es[1..][j] == es[j + 1];
      FindIsFirst(es[1..], addr, k - 1);
    }
  }

  lemma {:induction false} FindMeansWithin(es: seq<PrEnt>, addr: Word)
    ensures Find(es, addr).Some? <==> exists e :: e in es && Within(e, addr)
    ensures Find(es, addr).Some? ==> Find(es, addr).value in es && Within(Find(es, addr).value, addr)
  {
    if es != [] {
      FindMeansWithin(es[1..], addr);
      assert es == [es[0]] + es[1..];
    }
  }

  /// Words as their 32 bits, lowest first.

  type Bits = b: seq<bool> | |b| == 32 witness seq(32, _ => false)

  const ZERO: Bits := seq(32, _ => false)

  function Or(a: Bits, b: Bits): Bits {
    seq(32, i requires 0 <= i < 32 => a[i] || b[i])
  }

  function Shl(a: Bits, k: nat): Bits {
    seq(32, i requires 0 <= i < 32 => i >= k && a[i - k])
  }

  function Small(x: nat): Bits
    requires x < 4
  {
    seq(32, i => (i == 0 && x % 2 == 1) || (i == 1 && x / 2 == 1))
  }

  /** The 2-bit field of domain `d` in the domain access control register. */
  function Field(w: Bits, d: nat): nat
    requires d < DOMAINS
  {
    (if w[2 * d + 1] then 2 else 0) + if w[2 * d] then 1 else 0
  }

  /** Merging `perm` into an empty field changes that field only. */
  lemma OrField(w: Bits, perm: nat, i: nat, d: nat)
    requires perm < 4 && i < DOMAINS && d < DOMAINS && (d == i ==> Field(w, d) == 0)
    ensures Field(Or(w, Shl(Small(perm), 2 * i)), d) == if d == i then perm else Field(w, d)
  {
  }

  /** dom_perm; None stands for a failed assertion. Every domain in use gets `perm` in its
      own field, and every other field stays 0. */
  method DomPerm(doms: Bits, perm: nat) returns (r: Option<Bits>)
    ensures r.Some? <==> doms != ZERO && (forall i :: DOMAINS <= i < 32 ==> !doms[i]) && perm <= 3
    ensures r.Some? ==> forall d :: 0 <= d < DOMAINS ==> Field(r.value, d) == if doms[d] then perm else 0
  {
    if doms == ZERO || !(forall i :: DOMAINS <= i < 32 ==> !doms[i]) || perm > 3 {
      return None;
    }
    var mask := ZERO;
    var i := 0;
    while i < DOMAINS
      invariant i <= DOMAINS
      invariant forall d :: 0 <= d < DOMAINS ==> Field(mask, d) == if d < i && doms[d] then perm else 0
    {
      if doms[i] {
        forall d | 0 <= d < DOMAINS {
          OrField(mask, perm, i, d);
        }
        mask := Or(mask, Shl(Small(perm), 2 * i));
      }
      i := i + 1;
    }
    return Some(mask);
  }

  /** `procmap_t`. */
  class ProcMap {
    var n: nat
    var dom_ids: Bits
    const map_: array<PrEnt>

    ghost predicate Valid()
      reads this, map_
    {
      map_.Length == MAX_ENT && n <= MAX_ENT && (forall k :: 0 <= k < n ==> map_[k].dom < DOMAINS) &&
      forall d :: 0 <= d < 32 ==> (dom_ids[d] <==> exists k :: 0 <= k < n && map_[k].dom == d)
    }

    ghost function Entries(): (es: seq<PrEnt>)
      requires Valid()
      reads this, map_
    {
      map_[..n]
    }

    constructor ()
      ensures Valid() && Entries() == [] && fresh(map_)
    {
      n, dom_ids := 0, ZERO;
      map_ := new PrEnt[MAX_ENT](_ => PrEnt(0, 0, MEM_DEVICE, 0));
    }

    /** procmap_push; false stands for a failed assertion. */
    method Push(e: PrEnt) returns (ok: bool)
      requires Valid()
      modifies this, map_
      ensures Valid() && (ok <==> old(n) < MAX_ENT && e.dom < DOMAINS)
      ensures Entries() == if ok then old(Entries()) + [e] else old(Entries())
    {
      if n >= MAX_ENT || e.dom >= DOMAINS {
        return false;
      }
      dom_ids := Or(dom_ids, Shl(Small(1), e.dom));
      map_[n] := e;
      n := n + 1;
      assert map_[n - 1].dom == e.dom;
      assert forall k :: 0 <= k < n - 1 ==> map_[k] == old(map_[k]);
      return true;
    }

    /** procmap_lookup. */
    method Lookup(addr: Word) returns (e: Option<PrEnt>)
      requires Valid()
      ensures e == Find(Entries(), addr)
    {
      var i := 0;
      while i < n
        invariant i <= n && forall j :: 0 <= j < i ==> !Within(map_[j], addr)
      {
        if map_[i].addr <= addr < Add32(map_[i].addr, map_[i].nbytes) {
          FindIsFirst(Entries(), addr, i);
          return Some(map_[i]);
        }
        i := i + 1;
      }
      FindIsFirst(Entries(), addr, n);
      return None;
    }
  }

  /// The default list.

  const STACK_ADDR := 0x800_0000
  const INT_STACK_ADDR := 0x900_0000

  function Megabyte(addr: Word, kind: Kind, dom: Word): PrEnt {
    PrEnt(addr, MB, kind, dom)
  }

  /** Three device pages, program, heap and the two stacks. */
  function DefaultEntries(dom: Word): (es: seq<PrEnt>)
    ensures |es| == 7
  {
    [ Megabyte(0x2000_0000, MEM_DEVICE, dom), Megabyte(0x2010_0000, MEM_DEVICE, dom),
      Megabyte(0x2020_0000, MEM_DEVICE, dom), Megabyte(0, MEM_RW, dom), Megabyte(MB, MEM_RW, dom),
      Megabyte(INT_STACK_ADDR - MB, MEM_RW, dom), Megabyte(STACK_ADDR - MB, MEM_RW, dom) ]
  }

  method PushDevices(p: ProcMap, dom: Word)
    requires p.Valid() && p.Entries() == [] && dom < DOMAINS
    modifies p, p.map_
    ensures p.Valid() && p.Entries() == DefaultEntries(dom)[..3]
  {
    var _ := p.Push(PrEnt(0x2000_0000, MB, MEM_DEVICE, dom));
    var _ := p.Push(PrEnt(0x2010_0000, MB, MEM_DEVICE, dom));
    var _ := p.Push(PrEnt(0x2020_0000, MB, MEM_DEVICE, dom));
  }

  method PushMemory(p: ProcMap, dom: Word)
    requires p.Valid() && p.Entries() == DefaultEntries(dom)[..3] && dom < DOMAINS
    modifies p, p.map_
    ensures p.Valid() && p.Entries() == DefaultEntries(dom)
  {
    var _ := p.Push(PrEnt(0, MB, MEM_RW, dom));
    var _ := p.Push(PrEnt(MB, MB, MEM_RW, dom));
    var _ := p.Push(PrEnt(INT_STACK_ADDR - MB, MB, MEM_RW, dom));
    var _ := p.Push(PrEnt(STACK_ADDR - MB, MB, MEM_RW, dom));
  }

  /** procmap_default_mk; false stands for a failed check of the domain, the end of the program
      or the bounds of the heap. */
  method ProcmapDefaultMk(dom: Word, progEnd: Word, heapStart: Word, heapEnd: Word) returns (p: ProcMap, ok: bool)
    ensures fresh(p) && fresh(p.map_) && p.Valid()
    ensures ok <==> dom < DOMAINS && progEnd <= MB && heapStart == MB && Sub32(heapEnd, heapStart) == MB
    ensures ok ==> p.Entries() == DefaultEntries(dom)
  {
    p := new ProcMap();
    if dom >= DOMAINS || progEnd > MB || heapStart != MB || Sub32(heapEnd, heapStart) != MB {
      return p, false;
    }
    PushDevices(p, dom);
    PushMemory(p, dom);
    return p, true;
  }
}

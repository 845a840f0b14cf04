/** vm_map_kernel of both `pt-vm.c` files: the page table made from the kernel's regions. */
module KernelMap {
  import opened Words
  import opened MemAttr
  import opened PageTable
  import Section
  import SuperSection
  import opened ProcMap

  const DOM_CLIENT := 1
  const TOP := 0xfff0_0000

  /** attr_mk of a region that is not read-only, for which it panics; `pagesize` is the
      default that pin_mk fills in, 1MB or 16MB. */
  function AttrMk(e: PrEnt, pagesize: Word): Attr {
    Attr(1, 0, e.dom, pagesize, PERM_RW_PRIV, if e.kind == MEM_DEVICE then MEM_DEVICE_ATTR else MEM_UNCACHED)
  }

  function SelfMap(e: PrEnt, u: Unit): Mapping {
    Mapping(e.addr, e.addr, AttrMk(e, PageSize(u)))
  }

  /** Every region mapped onto itself. */
  function Identity(es: seq<PrEnt>, u: Unit): (ms: seq<Mapping>)
    ensures |ms| == |es|
  {
    seq(|es|, i requires 0 <= i < |es| => SelfMap(es[i], u))
  }

  /** The page table that vm_map_kernel makes. */
  function KernelTable(es: seq<PrEnt>, u: Unit): (t: seq<Pte>)
    ensures |t| == PT_LEVEL1_N
  {
    Table(Identity(es, u), u)
  }

  lemma IdentityListed(es: seq<PrEnt>, u: Unit, m: Mapping)
    ensures m in Identity(es, u) <==> exists e :: e in es && m == SelfMap(e, u)
  {
    var ms := Identity(es, u);
    if m in ms {
      var i :| 0 <= i < |ms| && ms[i] == m;
      assert es[i] in es;
    }
    if e :| e in es && m == SelfMap(e, u) {
      var i :| 0 <= i < |es| && es[i] == e;
      assert ms[i] == m;
    }
  }

  /** The regions a kernel map can be made of. */
  predicate Sound(es: seq<PrEnt>, u: Unit) {
    forall e :: e in es ==> e.kind != MEM_RO && e.addr % u == 0
  }

  predicate AllMade(es: seq<PrEnt>) {
    forall e :: e in es ==> Made(e)
  }

  /** The section that `e` gets holds `va`. */
  predicate Reaches(e: PrEnt, u: Unit, va: int) {
    e.addr <= va < e.addr + u
  }

  lemma AllSelfMapsLegal(es: seq<PrEnt>, u: Unit)
    requires Sound(es, u)
    ensures AllLegal(Identity(es, u), u)
  {
  }

  /** An address is mapped exactly when it lies in the section of a region, and then onto
      itself: vm_xlate gives the base of its own section and the hardware its own address. */
  lemma KernelIsIdentity(es: seq<PrEnt>, u: Unit, va: Word)
    requires Sound(es, u)
    ensures var t := KernelTable(es, u);
      && (Lookup(t, va).Some? <==> exists e :: e in es && Reaches(e, u, va))
      && (Lookup(t, va).Some? ==> Xlate(t, va, u) == Some(va / u * u) && Walk(Lookup(t, va).value, va) == va)
  {
    hide Table, LastCovering, Walk, Fill, Lookup, Xlate, Identity;
    var ms := Identity(es, u);
    AllSelfMapsLegal(es, u);
    TranslationIsLastMapping(ms, u, va);
    CoveringIsListed(ms, u, va);
    forall m ensures m in ms <==> exists e :: e in es && m == SelfMap(e, u) {
      IdentityListed(es, u, m);
    }
    forall e | e in es ensures Reaches(e, u, va) <==> Covers(SelfMap(e, u), u, va) {
    }
    if LastCovering(ms, u, va).Some? {
      var m := LastCovering(ms, u, va).value;
      OwnBase(m.va, u, va);
    }
  }

  lemma OwnBase(base: Word, u: Unit, va: Word)
    requires base % u == 0 && base <= va < base + u
    ensures base == va / u * u
  {
    if u == MB {
    } else {
    }
  }

  /** The pointer comparison sees a region exactly when it contains the address, except the
      region whose end wraps to 0, which it never sees. */
  lemma WithinReaches(e: PrEnt, va: Word)
    requires Made(e) && e.addr % MB == 0
    ensures Within(e, va) <==> Reaches(e, MB, va) && e.addr != TOP
  {
  }

  /** Table and list agree on every address exactly when no region is the top megabyte. */
  lemma KernelAgreesWithList(es: seq<PrEnt>)
    requires AllMade(es) && Sound(es, MB)
    ensures (forall va: Word :: Lookup(KernelTable(es, MB), va).Some? <==> Find(es, va).Some?)
       <==> (forall e :: e in es ==> e.addr != TOP)
  {
    hide KernelTable, Lookup, Find, Within, Reaches;
    var t := KernelTable(es, MB);
    forall va: Word
      ensures Lookup(t, va).Some? <==> exists e :: e in es && Reaches(e, MB, va)
      ensures Find(es, va).Some? <==> exists e :: e in es && Reaches(e, MB, va) && e.addr != TOP
    {
      KernelIsIdentity(es, MB, va);
      FindMeansWithin(es, va);
      forall e | e in es ensures Within(e, va) <==> Reaches(e, MB, va) && e.addr != TOP {
        WithinReaches(e, va);
      }
    }
    if e :| e in es && e.addr == TOP {
      TopMissed(es, e);
    }
  }

  lemma TopMissed(es: seq<PrEnt>, e: PrEnt)
    requires AllMade(es) && Sound(es, MB) && e in es && e.addr == TOP
    ensures Lookup(KernelTable(es, MB), TOP).Some? && Find(es, TOP).None?
  {
    hide KernelTable, Lookup, Find;
    KernelIsIdentity(es, MB, TOP);
    FindMeansWithin(es, TOP);
    assert Reaches(e, MB, TOP);
  }

  /** When no two regions share an address, the last mapping to cover an address is that of the
      very region procmap_lookup finds. */
  lemma CoveredByRegion(es: seq<PrEnt>, va: Word)
    requires AllMade(es) && Sound(es, MB)
    requires forall i, j :: 0 <= i < j < |es| ==> es[i].addr != es[j].addr
    requires Find(es, va).Some?
    ensures LastCovering(Identity(es, MB), MB, va) == Some(SelfMap(Find(es, va).value, MB))
    ensures Find(es, va).value in es
  {
    hide LastCovering, Find, Within, Identity;
    var e := Find(es, va).value;
    var ms := Identity(es, MB);
    FindMeansWithin(es, va);
    WithinReaches(e, va);
    CoveringIsListed(ms, MB, va);
    IdentityListed(es, MB, SelfMap(e, MB));
    assert Covers(SelfMap(e, MB), MB, va);
    var m := LastCovering(ms, MB, va).value;
    IdentityListed(es, MB, m);
    var e' :| e' in es && m == SelfMap(e', MB);
    OwnBase(e.addr, MB, va);
    OwnBase(e'.addr, MB, va);
  }

  /** And the descriptor is that region's: its section and domain, readable and writable by the
      kernel only, global and executable, strongly ordered for a device and uncached for memory. */
  lemma DescriptorIsRegion(es: seq<PrEnt>, va: Word)
    requires AllMade(es) && Sound(es, MB)
    requires forall i, j :: 0 <= i < j < |es| ==> es[i].addr != es[j].addr
    requires Find(es, va).Some?
    ensures Lookup(KernelTable(es, MB), va).Some?
    ensures var e, d := Find(es, va).value, Lookup(KernelTable(es, MB), va).value;
      && d.base * 0x10_0000 == e.addr && d.super == 0 && d.domain == e.dom
      && d.APX == 0 && d.AP == 1 && d.nG == 0 && d.XN == 0 && d.IMP == 0 && d.S == 0
      && d.TEX == (if e.kind == MEM_DEVICE then 0 else 1) && d.C == 0 && d.B == 0
  {
    hide Table, LastCovering, Find, Within, Identity;
    AllSelfMapsLegal(es, MB);
    CoveredByRegion(es, va);
    TableIsLastMapping(Identity(es, MB), MB, va);
  }

  /** In the supersection form a region of 1MB brings in all 16MB around it, so table and list
      agree exactly when there is no region at all. */
  lemma SuperKernelMapsMore(es: seq<PrEnt>)
    requires AllMade(es) && Sound(es, SIXTEEN_MB)
    ensures (forall va: Word :: Lookup(KernelTable(es, SIXTEEN_MB), va).Some? <==> Find(es, va).Some?)
       <==> es == []
  {
    hide KernelTable, Lookup, Find;
    if es == [] {
      forall va: Word ensures Lookup(KernelTable(es, SIXTEEN_MB), va).None? && Find(es, va).None? {
        KernelIsIdentity(es, SIXTEEN_MB, va);
        FindMeansWithin(es, va);
      }
    } else {
      SuperDisagrees(es);
    }
  }

  lemma SuperDisagrees(es: seq<PrEnt>)
    requires AllMade(es) && Sound(es, SIXTEEN_MB) && es != []
    ensures es[0].addr + 15 * MB < TWO32
    ensures var va := es[0].addr + 15 * MB;
      Lookup(KernelTable(es, SIXTEEN_MB), va).Some? && Find(es, va).None?
  {
    hide KernelTable, Lookup, Find, Within;
    NotWithin(es[0], es[0]);
    var va := es[0].addr + 15 * MB;
    KernelIsIdentity(es, SIXTEEN_MB, va);
    FindMeansWithin(es, va);
    assert es[0] in es && Reaches(es[0], SIXTEEN_MB, va);
    forall e | e in es ensures !Within(e, va) {
      NotWithin(es[0], e);
    }
  }

  lemma NotWithin(e0: PrEnt, e: PrEnt)
    requires Made(e) && e0.addr % SIXTEEN_MB == 0 && e.addr % SIXTEEN_MB == 0
    ensures e0.addr + 15 * MB < TWO32
    ensures !Within(e, e0.addr + 15 * MB)
  {
  }

  /** The default list is fit for sections: table and list agree on it, and an address is mapped
      exactly when it is below 2MB, in the megabyte below either stack top, or in the three of the
      devices. It is not fit for supersections, where vm_map_kernel panics on its second region. */
  lemma DefaultList(dom: Word, va: Word)
    requires dom < DOMAINS
    ensures var es := DefaultEntries(dom);
      && AllMade(es) && Sound(es, MB) && !Sound(es, SIXTEEN_MB) && es[1].addr % SIXTEEN_MB != 0
      && (Lookup(KernelTable(es, MB), va).Some? <==> Find(es, va).Some?)
      && (Lookup(KernelTable(es, MB), va).Some? <==>
           || va < 0x20_0000 || 0x7f0_0000 <= va < 0x800_0000 || 0x8f0_0000 <= va < 0x900_0000
           || 0x2000_0000 <= va < 0x2030_0000)
      && (Find(es, va).Some? ==> (Find(es, va).value.kind == MEM_DEVICE <==> va >= 0x2000_0000))
  {
    hide KernelTable, Lookup, Find, DefaultEntries, Reaches, Within, Made;
    var es := DefaultEntries(dom);
    DefaultIsSound(dom);
    KernelIsIdentity(es, MB, va);
    KernelAgreesWithList(es);
    FindMeansWithin(es, va);
    DefaultReaches(dom, va);
    if Find(es, va).Some? {
      WithinSide(Find(es, va).value, va);
    }
  }

  lemma WithinSide(e: PrEnt, va: Word)
    requires Made(e) && e.addr % MB == 0 && Within(e, va)
    ensures e.addr >= 0x2000_0000 <==> va >= 0x2000_0000
  {
  }

  lemma DefaultIsSound(dom: Word)
    requires dom < DOMAINS
    ensures var es := DefaultEntries(dom);
      && AllMade(es) && Sound(es, MB) && es[1] in es && es[1].addr % SIXTEEN_MB != 0 && es[1].kind != MEM_RO
      && forall e :: e in es ==> e.addr != TOP && (e.kind == MEM_DEVICE <==> e.addr >= 0x2000_0000)
  {
  }

  lemma DefaultReaches(dom: Word, va: Word)
    ensures (exists e :: e in DefaultEntries(dom) && Reaches(e, MB, va)) <==>
      || va < 0x20_0000 || 0x7f0_0000 <= va < 0x800_0000 || 0x8f0_0000 <= va < 0x900_0000
      || 0x2000_0000 <= va < 0x2030_0000
  {
    var es := DefaultEntries(dom);
    assert forall i :: 0 <= i < 7 ==> es[i] in es;
    assert Reaches(es[0], MB, va) || Reaches(es[1], MB, va) || Reaches(es[2], MB, va) <==> 0x2000_0000 <= va < 0x2030_0000;
    assert Reaches(es[3], MB, va) || Reaches(es[4], MB, va) <==> va < 0x20_0000;
    assert Reaches(es[5], MB, va) <==> 0x8f0_0000 <= va < 0x900_0000;
    assert Reaches(es[6], MB, va) <==> 0x7f0_0000 <= va < 0x800_0000;
  }

  /// The routines.

  /** attr_mk, which panics on read-only regions. */
  method AttrFor(e: PrEnt, pagesize: Word) returns (attr: Option<Attr>)
    ensures attr == if e.kind == MEM_RO then None else Some(AttrMk(e, pagesize))
  {
    match e.kind {
      case MEM_DEVICE => return Some(Attr(1, 0, e.dom, pagesize, PERM_RW_PRIV, MEM_DEVICE_ATTR));
      case MEM_RW => return Some(Attr(1, 0, e.dom, pagesize, PERM_RW_PRIV, MEM_UNCACHED));
      case MEM_RO => return None;
    }
  }

  lemma OneMoreRegion(es: seq<PrEnt>, i: nat, u: Unit)
    requires i < |es|
    ensures KernelTable(es[..i + 1], u) == Mapped(KernelTable(es[..i], u), SelfMap(es[i], u), u)
  {
    hide Mapped;
    assert Identity(es[..i + 1], u) == Identity(es[..i], u) + [SelfMap(es[i], u)];
  }

  /** The domain register: client access, 0b01, to the domains of the regions, none to the others. */
  predicate DomainsOf(es: seq<PrEnt>, dacr: Bits) {
    forall d :: 0 <= d < DOMAINS ==> Field(dacr, d) == if exists e :: e in es && e.dom == d then 1 else 0
  }

  method Domains(p: ProcMap) returns (dacr: Option<Bits>)
    requires p.Valid()
    ensures dacr.Some? <==> p.n > 0
    ensures dacr.Some? ==> DomainsOf(p.Entries(), dacr.value)
  {
    var es := p.map_[..p.n];
    forall d | 0 <= d < DOMAINS ensures p.dom_ids[d] <==> exists e :: e in es && e.dom == d {
      if k :| 0 <= k < p.n && p.map_[k].dom == d {
        assert es[k] in es;
      }
    }
    if p.n > 0 {
      assert p.dom_ids[p.map_[0].dom];
    }
    dacr := DomPerm(p.dom_ids, DOM_CLIENT);
  }

  /** The vm_map_sec of the table's section size. */
  method MapSec(pt: array<Pte>, m: Mapping, u: Unit) returns (ok: bool)
    requires pt.Length == PT_LEVEL1_N
    modifies pt
    ensures ok <==> Legal(m, u)
    ensures pt[..] == if ok then Mapped(old(pt[..]), m, u) else old(pt[..])
  {
    if u == MB {
      ok := Section.VmMapSec(pt, m.va, m.pa, m.attr);
    } else {
      ok := SuperSection.VmMapSec(pt, m.va, m.pa, m.attr);
    }
  }

  /** vm_map_kernel without the switch to the new table: the table and the domain register, or
      None when an assertion fails or attr_mk panics. The two versions differ in `u` only. */
  method VmMapKernel(p: ProcMap, u: Unit) returns (r: Option<(array<Pte>, Bits)>)
    requires p.Valid()
    ensures r.Some? <==> p.n > 0 && Sound(p.Entries(), u)
    ensures r.Some? ==> fresh(r.value.0) && r.value.0[..] == KernelTable(p.Entries(), u)
    ensures r.Some? ==> DomainsOf(p.Entries(), r.value.1)
  {
    hide Table, Mapped, KernelTable;
    var d := Domains(p);
    if d == None {
      return None;
    }
    var pt := VmPtAlloc();
    ghost var es := p.Entries();
    EmptyTable(es, u);
    var i := 0;
    while i < p.n
      invariant i <= p.n && fresh(pt) && pt.Length == PT_LEVEL1_N
      invariant p.Valid() && p.Entries() == es && DomainsOf(es, d.value)
      invariant forall k :: 0 <= k < i ==> es[k].kind != MEM_RO && es[k].addr % u == 0
      invariant pt[..] == KernelTable(es[..i], u)
    {
      var e := p.map_[i];
      assert e == es[i] && e in es;
      var attr := AttrFor(e, PageSize(u));
      if attr == None {
        return None;
      }
      OneMoreRegion(es, i, u);
      var ok := MapSec(pt, Mapping(e.addr, e.addr, attr.value), u);
      if !ok {
        return None;
      }
      i := i + 1;
    }
    assert es[..i] == es;
    return Some((pt, d.value));
  }

  lemma EmptyTable(es: seq<PrEnt>, u: Unit)
    ensures Table([], u) == KernelTable(es[..0], u)
  {
    assert Identity(es[..0], u) == [];
  }
}

/** Page tables of 1MB sections (`labs/16-vm-page-table/code/pt-vm.c`) and of 16MB
    supersections, whose descriptor is repeated in 16 slots
    (`labs/16-vm-page-table-16MB/code/pt-vm.c`). A table has one size throughout. */
module PageTable {
  import opened Words
  import opened MemAttr

  /** The size of a section. */
  type Unit = u: nat | u == MB || u == SIXTEEN_MB witness MB

  function Super(u: Unit): nat { if u == MB then 0 else 1 }

  function PageSize(u: Unit): Word { if u == MB then PAGE_1MB else PAGE_16MB }

  datatype Mapping = Mapping(va: Word, pa: Word, attr: Attr)

  /** What vm_map_sec asserts of its arguments. */
  predicate Legal(m: Mapping, u: Unit) {
    m.va % u == 0 && m.pa % u == 0 && m.attr.pagesize == PageSize(u)
  }

  predicate AllLegal(ms: seq<Mapping>, u: Unit) {
    forall i :: 0 <= i < |ms| ==> Legal(ms[i], u)
  }

  predicate Covers(m: Mapping, u: Unit, va: int) {
    m.va <= va < m.va + u
  }

  /** The table after one more mapping: slot `i` serves the addresses from `i * MB`. */
  function Mapped(t: seq<Pte>, m: Mapping, u: Unit): (t': seq<Pte>)
    requires |t| == PT_LEVEL1_N
    ensures |t'| == PT_LEVEL1_N
  {
    seq(PT_LEVEL1_N, i requires 0 <= i < PT_LEVEL1_N =>
      if Covers(m, u, i * MB) then Fill(t[i], m.attr, Super(u), m.pa / u) else t[i])
  }

  datatype Option<T> = None | Some(value: T)

  function Lookup(t: seq<Pte>, va: Word): Option<Pte>
    requires |t| == PT_LEVEL1_N
  {
    if t[va / MB].tag != 2 then None else Some(t[va / MB])
  }

  /** The address vm_xlate stores: the section base, without the offset of `va`. */
  function Xlate(t: seq<Pte>, va: Word, u: Unit): Option<Word>
    requires |t| == PT_LEVEL1_N
  {
    match Lookup(t, va) case None => None case Some(pte) => Some(pte.base * u % TWO32)
  }

  /** The table that a list of vm_map_sec calls makes of a fresh one. */
  function Table(ms: seq<Mapping>, u: Unit): (t: seq<Pte>)
    ensures |t| == PT_LEVEL1_N
  {
    if ms == [] then seq(PT_LEVEL1_N, _ => ZERO_PTE) else Mapped(Table(ms[..|ms| - 1], u), ms[|ms| - 1], u)
  }

  /** The last mapping in the list whose section holds `va`. */
  function LastCovering(ms: seq<Mapping>, u: Unit, va: Word): Option<Mapping> {
    if ms == [] then None
    else if Covers(ms[|ms| - 1], u, va) then Some(ms[|ms| - 1])
    else LastCovering(ms[..|ms| - 1], u, va)
  }

  /** Rounding an address down to its slot does not take it out of a section or into one. */
  lemma SlotOf(m: Mapping, u: Unit, va: Word)
    requires Legal(m, u)
    ensures Covers(m, u, va) <==> Covers(m, u, va / MB * MB)
    ensures Covers(m, u, va) <==> va / u == m.va / u
  {
    if u == MB {
    } else {
    }
  }

  lemma {:induction false} CoveringIsListed(ms: seq<Mapping>, u: Unit, va: Word)
    ensures var c := LastCovering(ms, u, va);
      if c.Some? then c.value in ms && Covers(c.value, u, va) else forall m :: m in ms ==> !Covers(m, u, va)
  {
    if ms != [] {
      CoveringIsListed(ms[..|ms| - 1], u, va);
      assert ms == ms[..|ms| - 1] + [ms[|ms| - 1]];
    }
  }

  /** For every address, whichever slot of a section it goes through, the table answers as the
      list does: with the last mapping that covers it, fully encoded, or with an untouched zero
      descriptor. */
  lemma {:induction false} TableIsLastMapping(ms: seq<Mapping>, u: Unit, va: Word)
    requires AllLegal(ms, u)
    ensures Table(ms, u)[va / MB] ==
            match LastCovering(ms, u, va)
            case None => ZERO_PTE
            case Some(m) => Fill(ZERO_PTE, m.attr, Super(u), m.pa / u)
  {
    if ms != [] {
      TableIsLastMapping(ms[..|ms| - 1], u, va);
      SlotOf(ms[|ms| - 1], u, va);
    }
  }

  /** The copies of a descriptor always agree: two addresses in one section get the same. */
  lemma CopiesAgree(ms: seq<Mapping>, u: Unit, va: Word, vb: Word)
    requires AllLegal(ms, u) && va / u == vb / u
    ensures Table(ms, u)[va / MB] == Table(ms, u)[vb / MB]
  {
    SameCovering(ms, u, va, vb);
    TableIsLastMapping(ms, u, va);
    TableIsLastMapping(ms, u, vb);
  }

  lemma {:induction false} SameCovering(ms: seq<Mapping>, u: Unit, va: Word, vb: Word)
    requires AllLegal(ms, u) && va / u == vb / u
    ensures LastCovering(ms, u, va) == LastCovering(ms, u, vb)
  {
    if ms != [] {
      SlotOf(ms[|ms| - 1], u, va);
      SlotOf(ms[|ms| - 1], u, vb);
      SameCovering(ms[..|ms| - 1], u, va, vb);
    }
  }

  /** Hence lookup succeeds exactly on covered addresses, vm_xlate gives the mapping's physical
      base, and the hardware keeps the offset into the section; so vm_xlate gives the address
      that `va` stands for exactly when that offset is 0. */
  lemma TranslationIsLastMapping(ms: seq<Mapping>, u: Unit, va: Word)
    requires AllLegal(ms, u)
    ensures var t, c := Table(ms, u), LastCovering(ms, u, va);
      && (Lookup(t, va).Some? <==> c.Some?)
      && (c.Some? ==>
           && Xlate(t, va, u) == Some(c.value.pa)
           && Walk(Lookup(t, va).value, va) == c.value.pa + (va - c.value.va)
           && (Xlate(t, va, u) == Some(Walk(Lookup(t, va).value, va)) <==> va % u == 0))
  {
    hide Table, LastCovering;
    TableIsLastMapping(ms, u, va);
    CoveringIsListed(ms, u, va);
    if LastCovering(ms, u, va).Some? {
      OffsetKept(LastCovering(ms, u, va).value, u, va);
    }
  }

  lemma OffsetKept(m: Mapping, u: Unit, va: Word)
    requires Legal(m, u) && Covers(m, u, va)
    ensures m.pa / u * u % TWO32 == m.pa
    ensures m.pa / u * u + va % u == m.pa + (va - m.va) < TWO32
  {
    if u == MB {
    } else {
    }
  }

  /** What the descriptor of a covered address says, field by field: section or supersection,
      executable, none of the deprecated or implementation-defined bits, global exactly if the
      attribute is, and the attribute's domain, caching policy and kernel permission. */
  lemma DescriptorFields(ms: seq<Mapping>, u: Unit, va: Word)
    requires AllLegal(ms, u) && LastCovering(ms, u, va).Some?
    ensures Lookup(Table(ms, u), va).Some?
    ensures var d, a := Lookup(Table(ms, u), va).value, LastCovering(ms, u, va).value.attr;
      && d.tag == 2 && d.XN == 0 && d.IMP == 0 && d.S == 0 && d.sbz == 0
      && (d.super == 0 <==> u == 0x10_0000) && d.super < 2
      && (d.nG == 0 <==> a.G % 2 == 1) && d.nG < 2
      && (a.dom < 16 ==> d.domain == a.dom)
      && (a.mem < 32 ==> 4 * d.TEX + 2 * d.C + d.B == a.mem && d.C < 2 && d.B < 2)
      && (a.perm < 8 ==> (4 * d.APX + d.AP == a.perm <==> a.perm / 2 % 2 == 0))
  {
    hide Table, LastCovering;
    TableIsLastMapping(ms, u, va);
    if u == MB {
    } else {
    }
  }

  /// The routines that do not depend on the size.

  method VmPtAlloc() returns (pt: array<Pte>)
    ensures fresh(pt) && pt.Length == PT_LEVEL1_N
    ensures forall u: Unit :: pt[..] == Table([], u)
  {
    pt := new Pte[PT_LEVEL1_N](_ => ZERO_PTE);
  }

  /** vm_dup: a table of its own with the same entries. */
  method VmDup(pt1: array<Pte>) returns (pt2: array<Pte>)
    requires pt1.Length == PT_LEVEL1_N
    ensures fresh(pt2) && pt2[..] == pt1[..]
  {
    pt2 := VmPtAlloc();
    var i := 0;
    while i < PT_LEVEL1_N
      invariant i <= PT_LEVEL1_N && pt2.Length == PT_LEVEL1_N && pt2[..i] == pt1[..i]
    {
      pt2[i] := pt1[i];
      i := i + 1;
    }
  }

  method VmLookup(pt: array<Pte>, va: Word) returns (pte: Option<Pte>)
    requires pt.Length == PT_LEVEL1_N
    ensures pte == Lookup(pt[..], va)
  {
    var index := va / MB;
    pte := if pt[index].tag != 2 then None else Some(pt[index]);
  }
}

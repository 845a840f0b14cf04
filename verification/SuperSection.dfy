/** vm_map_sec and vm_xlate for 16MB supersections:
    `labs/16-vm-page-table-16MB/code/pt-vm.c`. */
module SuperSection {
  import opened Words
  import opened MemAttr
  import opened PageTable

  lemma SlotsOf(m: Mapping, k: nat)
    requires Legal(m, SIXTEEN_MB)
    ensures Covers(m, SIXTEEN_MB, k * MB) <==> m.va / MB <= k < m.va / MB + 16
  {
  }

  lemma SixteenSlots(t: seq<Pte>, t': seq<Pte>, m: Mapping)
    requires |t| == PT_LEVEL1_N == |t'| && Legal(m, SIXTEEN_MB)
    requires forall k :: 0 <= k < PT_LEVEL1_N ==>
      t'[k] == (if m.va / MB <= k < m.va / MB + 16 then Fill(t[k], m.attr, 1, m.pa / SIXTEEN_MB) else t[k])
    ensures t' == Mapped(t, m, SIXTEEN_MB)
  {
    hide Fill, Covers;
    forall k: nat | k < PT_LEVEL1_N ensures Covers(m, SIXTEEN_MB, k * MB) <==> m.va / MB <= k < m.va / MB + 16 {
      SlotsOf(m, k);
    }
  }

  /** vm_map_sec; false stands for a failed assertion. The address returned is that of the
      table's first descriptor, and so says nothing. */
  method VmMapSec(pt: array<Pte>, va: Word, pa: Word, attr: Attr) returns (ok: bool)
    requires pt.Length == PT_LEVEL1_N
    modifies pt
    ensures ok <==> Legal(Mapping(va, pa, attr), SIXTEEN_MB)
    ensures pt[..] == if ok then Mapped(old(pt[..]), Mapping(va, pa, attr), SIXTEEN_MB) else old(pt[..])
  {
    hide Fill, Mapped;
    if va % SIXTEEN_MB != 0 || pa % SIXTEEN_MB != 0 || attr.pagesize != PAGE_16MB {
      return false;
    }
    var start_index := va / MB;
    var i := 0;
    while i < 16
      invariant i <= 16
      invariant forall k :: start_index <= k < start_index + i ==>
        pt[k] == Fill(old(pt[k]), attr, 1, pa / SIXTEEN_MB)
      invariant forall k :: 0 <= k < PT_LEVEL1_N && !(start_index <= k < start_index + i) ==> pt[k] == old(pt[k])
    {
      var index := start_index + i;
      pt[index] := Fill(pt[index], attr, 1, pa / SIXTEEN_MB);
      i := i + 1;
    }
    SixteenSlots(old(pt[..]), pt[..], Mapping(va, pa, attr));
    return true;
  }

  method VmXlate(pt: array<Pte>, va: Word) returns (pa: Option<Word>)
    requires pt.Length == PT_LEVEL1_N
    ensures pa == Xlate(pt[..], va, SIXTEEN_MB)
  {
    var pte := VmLookup(pt, va);
    match pte {
      case None => pa := None;
      case Some(p) => pa := Some(p.base * SIXTEEN_MB % TWO32);
    }
  }
}

/** vm_map_sec and vm_xlate for 1MB sections: `labs/16-vm-page-table/code/pt-vm.c`. */
module Section {
  import opened Words
  import opened MemAttr
  import opened PageTable

  lemma OneSlot(t: seq<Pte>, m: Mapping)
    requires |t| == PT_LEVEL1_N && Legal(m, MB)
    ensures t[m.va / MB := Fill(t[m.va / MB], m.attr, 0, m.pa / MB)] == Mapped(t, m, MB)
  {
    hide Fill;
  }

  /** vm_map_sec; false stands for a failed assertion. */
  method VmMapSec(pt: array<Pte>, va: Word, pa: Word, attr: Attr) returns (ok: bool)
    requires pt.Length == PT_LEVEL1_N
    modifies pt
    ensures ok <==> Legal(Mapping(va, pa, attr), MB)
    ensures pt[..] == if ok then Mapped(old(pt[..]), Mapping(va, pa, attr), MB) else old(pt[..])
  {
    hide Fill, Mapped;
    if va % MB != 0 || pa % MB != 0 || attr.pagesize != PAGE_1MB {
      return false;
    }
    OneSlot(pt[..], Mapping(va, pa, attr));
    var index := va / MB;
    pt[index] := Fill(pt[index], attr, 0, pa / MB);
    return true;
  }

  method VmXlate(pt: array<Pte>, va: Word) returns (pa: Option<Word>)
    requires pt.Length == PT_LEVEL1_N
    ensures pa == Xlate(pt[..], va, MB)
  {
    var pte := VmLookup(pt, va);
    match pte {
      case None => pa := None;
      case Some(p) => pa := Some(p.base * MB % TWO32);
    }
  }
}

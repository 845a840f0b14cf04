/** The first-level descriptor and the memory attributes it is filled from
    (`labs/16-vm-page-table/code/armv6-vm.h` and `mem-attr.h`). */
module MemAttr {
  import opened Words

  const PT_LEVEL1_N := 4096
  const MB := 0x10_0000
  const SIXTEEN_MB := 16 * MB
  const PAGE_1MB := 3
  const PAGE_16MB := 0
  const MEM_DEVICE_ATTR := 0      // strongly ordered: TEX, C and B all 0
  const MEM_UNCACHED := 4         // TEX 1, C and B 0
  const PERM_RW_PRIV := 1

  /** `pin_t`. */
  datatype Attr = Attr(G: Word, asid: Word, dom: Word, pagesize: Word, perm: Word, mem: Word)

  /** A first-level descriptor, field by field from bit 0 up; `base` is the section base,
      12 bits wide, or the supersection base, 8 bits wide. */
  datatype Pte = Pte(
    tag: nat, B: nat, C: nat, XN: nat, domain: nat, IMP: nat, AP: nat, TEX: nat,
    APX: nat, S: nat, nG: nat, super: nat, sbz: nat, base: nat)

  const ZERO_PTE := Pte(0, 0, 0, 0, 0, 0, 0, 0, 0, 0, 0, 0, 0, 0)

  /** The assignments of vm_map_sec to one descriptor, each cut to the width of its field.
      `perm & 0x11` keeps bits 0 and 4, of which the 2-bit AP field holds only bit 0. */
  function Fill(old_: Pte, attr: Attr, super: nat, base: nat): Pte {
    Pte(2, attr.mem % 2, attr.mem / 2 % 2, 0, attr.dom % 16, 0, attr.perm % 2, attr.mem / 4 % 8,
        attr.perm / 4 % 2, 0, 1 - attr.G % 2, super, old_.sbz, base)
  }

  /** APX and AP together, as the enumeration of permissions numbers them. */
  function PermOf(pte: Pte): nat {
    4 * pte.APX + pte.AP
  }

  /** A permission survives the encoding exactly when bit 1, which gives user code access,
      is not set. */
  lemma PermSurvives(old_: Pte, attr: Attr, super: nat, base: nat)
    requires attr.perm < 8
    ensures PermOf(Fill(old_, attr, super, base)) == attr.perm <==> attr.perm / 2 % 2 == 0
  {
  }

  /** The TEX, C and B bits give back the caching policy. */
  lemma MemSurvives(old_: Pte, attr: Attr, super: nat, base: nat)
    requires attr.mem < 32
    ensures var p := Fill(old_, attr, super, base); 4 * p.TEX + 2 * p.C + p.B == attr.mem
  {
  }

  /** What the hardware makes of `va` with descriptor `pte`: a section keeps 20 bits of the
      address, a supersection 24 (ARM Architecture Reference Manual, section B4.7). */
  function Walk(pte: Pte, va: Word): (pa: int) {
    if pte.super == 0 then pte.base * MB + va % MB else pte.base * SIXTEEN_MB + va % SIXTEEN_MB
  }
}

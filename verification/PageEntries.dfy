// x86-64 paging entries (Intel SDM Volume 3A, section 4.5) as naturals, with the masks the code applies
// written as the arithmetic they denote, and the split of a virtual address into table indices.
module PageEntries {
  import opened Division

  const PAGE: nat := 0x1000
  const ADDR_LIMIT: nat := 0x1_0000_0000_0000_0000
  const KERNEL_BOUNDARY: nat := 0x8000_0000_0000_0000

  // Access modes of Vm/Types.h, one flag per bit.
  datatype Mode = Mode(kernelRead: bool, kernelWrite: bool, kernelExec: bool,
                       userRead: bool, userWrite: bool, userExec: bool)

  const KERNEL_RW := Mode(true, true, false, false, false, false)

  // e & 1, and e & (1 << 7)
  predicate Present(e: nat) { e % 2 == 1 }
  predicate LargePage(e: nat) { (e / 0x80) % 2 == 1 }

  // e | flag, for a flag that is a power of two
  function Or(e: nat, flag: nat): nat
    requires flag > 0
  {
    if (e / flag) % 2 == 1 then e else e + flag
  }

  // (e & ~0xFFF) & ~FlagsMask: of the flag bits only bit 63 is left after the first mask
  function TableAddr(e: nat): nat {
    (e - e % 0x1000) % 0x8000_0000_0000_0000
  }

  // Entry that links a paging structure: present, writable, and user accessible below the split.
  function LinkEntry(page: nat, virt: nat): nat {
    var entry := Or(Or(page, 1), 2);
    if virt < KERNEL_BOUNDARY then Or(entry, 4) else entry
  }

  predicate WantsUser(mode: Mode) { mode.userRead || mode.userWrite || mode.userExec }
  predicate WantsWrite(mode: Mode) { mode.kernelWrite || mode.userWrite }

  // Entry that maps a page; no-execute support is compiled out, so no entry is ever non-executable.
  function LeafEntry(phys: nat, mode: Mode): nat {
    var pte := Or(TableAddr(phys), 1);
    var pte := if WantsWrite(mode) then Or(pte, 2) else pte;
    if WantsUser(mode) then Or(pte, 4) else pte
  }

  // DecodePTE: e & 0xFFFFFFFFFF000, and the mode the flag bits stand for
  function DecodeAddr(e: nat): nat {
    e % 0x10_0000_0000_0000 - e % 0x1000
  }

  function DecodeMode(e: nat): Mode {
    var write := (e / 2) % 2 == 1;
    var exec := (e / 0x8000_0000_0000_0000) % 2 == 0;
    if (e / 4) % 2 == 1 then Mode(false, false, false, true, write, exec)
    else Mode(true, write, exec, false, false, false)
  }

  // What a mode becomes once stored: one privilege level, readable, always executable.
  function Normalised(mode: Mode): Mode {
    if WantsUser(mode) then Mode(false, false, false, true, WantsWrite(mode), true)
    else Mode(true, WantsWrite(mode), true, false, false, false)
  }

  // Reading back an aligned address with some of the low three flags added.
  lemma LowFlags(a: nat, f: nat)
    requires a % PAGE == 0 && f < 8
    ensures (a + f) % 2 == f % 2 && ((a + f) / 2) % 2 == (f / 2) % 2 && ((a + f) / 4) % 2 == f / 4
    ensures ((a + f) / 0x80) % 2 == 0
  {
    var q := a / PAGE;
    assert a == PAGE * q;
    var b0, b1, b2 := f % 2, (f / 2) % 2, f / 4;
    assert f == 4 * b2 + 2 * b1 + b0;
    DivUnique(a + f, 2, 0x800 * q + 2 * b2 + b1, b0);
    DivUnique(0x800 * q + 2 * b2 + b1, 2, 0x400 * q + b2, b1);
    DivUnique(a + f, 4, 0x400 * q + b2, 2 * b1 + b0);
    DivUnique(0x400 * q + b2, 2, 0x200 * q, b2);
    DivUnique(a + f, 0x80, 0x20 * q, f);
    DivUnique(0x20 * q, 2, 0x10 * q, 0);
  }

  lemma HighBits(a: nat, f: nat)
    requires a % PAGE == 0 && a < 0x8000_0000_0000_0000 && f < 8
    ensures (a + f) / 0x8000_0000_0000_0000 == 0
    ensures TableAddr(a + f) == a
    ensures DecodeAddr(a + f) == a % 0x10_0000_0000_0000
  {
  }

  lemma LinkSpec(page: nat, virt: nat)
    requires page % PAGE == 0 && page < 0x8000_0000_0000_0000
    ensures Present(LinkEntry(page, virt)) && !LargePage(LinkEntry(page, virt))
    ensures TableAddr(LinkEntry(page, virt)) == page
    ensures (LinkEntry(page, virt) / 2) % 2 == 1
    ensures (LinkEntry(page, virt) / 4) % 2 == 1 <==> virt < 0x8000_0000_0000_0000
    ensures LinkEntry(page, virt) % 0x1000 == if virt < 0x8000_0000_0000_0000 then 7 else 3
  {
    LowFlags(page, 0);
    LowFlags(page, 1);
    LowFlags(page, 3);
    LowFlags(page, 7);
    HighBits(page, 3);
    HighBits(page, 7);
    var flags := if virt < 0x8000_0000_0000_0000 then 7 else 3;
    assert LinkEntry(page, virt) == page + flags;
    DivUnique(page + flags, 0x1000, page / 0x1000, flags);
  }

  // A stored page entry decodes to the frame it was made from, cut to 52 bits, and the normalised mode.
  lemma LeafSpec(phys: nat, mode: Mode)
    ensures LeafEntry(phys, mode) == (phys - phys % 0x1000) % 0x8000_0000_0000_0000
              + (1 + (if mode.kernelWrite || mode.userWrite then 2 else 0)
                 + (if mode.userRead || mode.userWrite || mode.userExec then 4 else 0))
    ensures Present(LeafEntry(phys, mode))
    ensures DecodeAddr(LeafEntry(phys, mode)) == DecodeAddr(phys)
    ensures DecodeMode(LeafEntry(phys, mode)) == Normalised(mode)
  {
    var a := TableAddr(phys);
    TableAddrBits(phys);
    LowFlags(a, 0);
    LowFlags(a, 1);
    LowFlags(a, 3);
    var f := 1 + (if WantsWrite(mode) then 2 else 0) + (if WantsUser(mode) then 4 else 0);
    assert LeafEntry(phys, mode) == a + f;
    LowFlags(a, f);
    HighBits(a, f);
  }

  lemma TableAddrBits(phys: nat)
    ensures TableAddr(phys) % PAGE == 0 && TableAddr(phys) < 0x8000_0000_0000_0000
    ensures TableAddr(phys) % 0x10_0000_0000_0000 == DecodeAddr(phys)
  {
    var p, r := phys / 0x1000, phys % 0x1000;
    var a := phys - r;
    assert a == 0x1000 * p;
    var h, t := a / 0x8000_0000_0000_0000, a % 0x8000_0000_0000_0000;
    assert a == 0x8000_0000_0000_0000 * h + t;
    DivUnique(t, PAGE, p - 0x8_0000_0000_0000 * h, 0);
    var g, u := t / 0x10_0000_0000_0000, t % 0x10_0000_0000_0000;
    assert t == 0x10_0000_0000_0000 * g + u;
    assert u == 0x1000 * (p - 0x8_0000_0000_0000 * h - 0x100_0000_0000 * g);
    DivUnique(phys, 0x10_0000_0000_0000, 0x800 * h + g, u + r);
  }

  lemma DecodeAligned(phys: nat)
    requires phys % PAGE == 0 && phys < 0x10_0000_0000_0000
    ensures DecodeAddr(phys) == phys
  {
  }

  // ----- virtual addresses -----

  predicate Canonical(virt: nat) {
    !(virt > 0x7FFF_FFFF_FFFF && virt < 0xFFFF_8000_0000_0000)
  }

  // virt & 0xFFFFFFFFFFFF
  function Low48(virt: nat): nat {
    virt % 0x1_0000_0000_0000
  }

  // Bytes covered by one entry of a table at the given level: 1 page table .. 4 PML4.
  function Span(level: nat): nat
    requires 1 <= level <= 4
  {
    match level
    case 1 => 0x1000
    case 2 => 0x20_0000
    case 3 => 0x4000_0000
    case _ => 0x80_0000_0000
  }

  // (virt >> 12/21/30/39) & 0x1FF
  function Index(virt: nat, level: nat): (i: nat)
    requires 1 <= level <= 4
    ensures i < 512
  {
    Low48(virt) / Span(level) % 512
  }

  // Which entry-sized block of the 48-bit space an address falls in.
  function Block(virt: nat, level: nat): nat
    requires 1 <= level <= 4
  {
    Low48(virt) / Span(level)
  }

  lemma IndexIsTop(virt: nat)
    ensures Index(virt, 4) == Block(virt, 4)
  {
  }

  lemma BlockSplit(virt: nat, level: nat)
    requires 1 <= level <= 3
    ensures Block(virt, level) == 512 * Block(virt, level + 1) + Index(virt, level)
  {
  }

  ghost predicate SameIndices(v: nat, w: nat, level: nat)
    requires 1 <= level <= 4
  {
    forall k :: level <= k <= 4 ==> Index(v, k) == Index(w, k)
  }

  // Two addresses are in the same block exactly when all table indices down to its level agree.
  lemma {:induction false} SameBlock(v: nat, w: nat, level: nat)
    requires 1 <= level <= 4
    ensures SameIndices(v, w, level) <==> Block(v, level) == Block(w, level)
    decreases 4 - level
  {
    if level == 4 {
      IndexIsTop(v);
      IndexIsTop(w);
    } else {
      SameBlock(v, w, level + 1);
      BlockSplit(v, level);
      BlockSplit(w, level);
    }
  }

}

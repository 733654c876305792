// Creating page tables: copying the parent's upper half, and the aperture into physical memory.
module PageCreate {
  import opened PhysicalMap
  import opened Division
  import opened PageEntries
  import opened PageWalk
  import opened Pools
  import opened PageTables
  import opened PageMap

  const APERTURE_START: nat := 0xFFFF_8000_0000_0000
  const APERTURE_END: nat := 0xFFFF_81FF_FFFF_FFFF

  // copyPml4Upper: slots 0x100 to 0x1FF of the parent over an empty lower half.
  function UpperOf(parent: seq<nat>): (t: seq<nat>)
    ensures |t| == 512
  {
    seq(512, j requires 0 <= j < 512 => if j >= 0x100 && j < |parent| then parent[j] else 0)
  }

  // A child page table: a fresh PML4 with the parent's upper half.
  function NewChild(m: Machine, parent: nat): PageStep
    requires parent in m.mem
  {
    match AllocPage(m)
    case PagePanic => PagePanic
    case Fresh(m1, page) => Fresh(m1.(mem := m1.mem[page := UpperOf(m.mem[parent])]), page)
  }

  lemma ChildShape(mem: Mem, lv: map<nat, nat>, roots: set<nat>, parent: nat, page: nat)
    requires Shape(mem, lv, roots) && parent in roots && page !in mem
    requires page % PAGE == 0 && 0 < page < APERTURE_LENGTH - PAGE
    ensures Shape(mem[page := UpperOf(mem[parent])], lv[page := 4], roots + {page})
  {
    var mem', lv' := mem[page := UpperOf(mem[parent])], lv[page := 4];
    forall t: nat, i: nat, c: nat
      ensures Child(mem', lv', t, i, c) <==>
              if t == page then i >= 256 && Child(mem, lv, parent, i, c) else Child(mem, lv, t, i, c)
    {
      if t == page && i < 512 {
        assert Entry(mem', t, i) == if i >= 256 then Entry(mem, parent, i) else 0;
      } else if t in mem {
        assert Entry(mem', t, i) == Entry(mem, t, i);
      }
    }
    forall c | c in mem' && c !in roots + {page}
      ensures exists t, i :: Child(mem', lv', t, i, c)
    {
      var t, i :| Child(mem, lv, t, i, c);
      assert Child(mem', lv', t, i, c);
    }
  }

  lemma {:induction false} OldWalk(mem: Mem, lv: map<nat, nat>, roots: set<nat>, t: nat, level: nat, v: nat, page: nat,
                                   table: seq<nat>)
    requires Shape(mem, lv, roots) && t in mem && lv[t] == level && page !in mem
    ensures WalkFrom(mem[page := table], t, level, v) == WalkFrom(mem, t, level, v)
    decreases level
  {
    var e := Entry(mem, t, Index(v, level));
    assert Entry(mem[page := table], t, Index(v, level)) == e;
    if Links(e, level) {
      LinkedChild(mem, lv, roots, t, Index(v, level));
      OldWalk(mem, lv, roots, TableAddr(e), level - 1, v, page, table);
    }
  }

  // A fresh child translates the upper half as its parent and nothing else; every present upper slot is
  // shared from then on, and existing maps are not affected.
  lemma ChildSharesUpper(m: Machine, lv: map<nat, nat>, roots: set<nat>, parent: nat)
    requires MachineInv(m, lv, roots) && parent in roots && parent in m.mem && NewChild(m, parent).Fresh?
    ensures var m', page := NewChild(m, parent).m, NewChild(m, parent).page;
            && page !in m.mem
            && MachineInv(m', lv[page := 4], roots + {page})
            && (forall s, v :: s in roots ==> Walk(m'.mem, s, v) == Walk(m.mem, s, v))
            && (forall v :: Walk(m'.mem, page, v) == if Index(v, 4) >= 256 then Walk(m.mem, parent, v) else Unmapped)
            && (forall j :: 256 <= j < 512 && Present(Entry(m.mem, parent, j)) ==> SharedSlot(m'.mem, parent, page, j))
  {
    hide MachineInv, Shape, Walk, WalkFrom;
    NextRoot(m, lv, roots);
    var m', page := NewChild(m, parent).m, NewChild(m, parent).page;
    var table := UpperOf(m.mem[parent]);
    assert m'.mem == m.mem[page := table];
    RootLength(m, lv, roots, parent);
    ChildInv(m, lv, roots, parent, page);
    forall s, v | s in roots
      ensures Walk(m'.mem, s, v) == Walk(m.mem, s, v)
    {
      RootWalk(m, lv, roots, s, v, page, table);
    }
    forall v
      ensures Walk(m'.mem, page, v) == if Index(v, 4) >= 256 then Walk(m'.mem, parent, v) else Unmapped
    {
      ChildWalk(m.mem, parent, page, v);
    }
  }

  lemma NextRoot(m: Machine, lv: map<nat, nat>, roots: set<nat>)
    requires MachineInv(m, lv, roots) && AllocPage(m).Fresh?
    ensures var page := AllocPage(m).page;
            && page !in m.mem && page % PAGE == 0 && 0 < page < Reach(m.early) <= APERTURE_LENGTH - PAGE
            && AllocPage(m).m == m.(mem := m.mem[page := ZeroTable()], pool := PoolAlloc(m.pool, 1))
  {
    NextFrame(m, lv, roots);
  }

  // A root without entries.
  lemma EmptyRootInv(m: Machine, lv: map<nat, nat>, roots: set<nat>)
    requires MachineInv(m, lv, roots) && AllocPage(m).Fresh?
    ensures var page := AllocPage(m).page;
            MachineInv(AllocPage(m).m, lv[page := 4], roots + {page})
  {
    hide MachineInv, PoolInv, PoolFree, PoolAlloc, OpenLinks, Shape, IsPoolPage;
    NextRoot(m, lv, roots);
    SoundShape(m, lv, roots);
    var page := AllocPage(m).page;
    EmptyRootShape(m.mem, lv, roots, page);
    EmptyOpen(m.mem, lv, page);
    TakesFrame(m, lv, roots, m.mem[page := ZeroTable()], lv[page := 4], roots + {page});
  }

  lemma EmptyRootShape(mem: Mem, lv: map<nat, nat>, roots: set<nat>, page: nat)
    requires Shape(mem, lv, roots) && page !in mem
    requires page % PAGE == 0 && 0 < page < APERTURE_LENGTH - PAGE
    ensures Shape(mem[page := ZeroTable()], lv[page := 4], roots + {page})
  {
    var mem', lv' := mem[page := ZeroTable()], lv[page := 4];
    forall t: nat, i: nat, c: nat
      ensures Child(mem', lv', t, i, c) <==> Child(mem, lv, t, i, c)
    {
      if t == page && i < 512 {
        assert Entry(mem', t, i) == 0;
      } else if t in mem {
        assert Entry(mem', t, i) == Entry(mem, t, i);
      }
    }
    forall c | c in mem' && c !in roots + {page}
      ensures exists t, i :: Child(mem', lv', t, i, c)
    {
      var t, i :| Child(mem, lv, t, i, c);
      assert Child(mem', lv', t, i, c);
    }
  }

  lemma RootLength(m: Machine, lv: map<nat, nat>, roots: set<nat>, root: nat)
    requires MachineInv(m, lv, roots) && root in roots
    ensures root in m.mem && |m.mem[root]| == 512 && Shape(m.mem, lv, roots)
  {
  }

  lemma ChildInv(m: Machine, lv: map<nat, nat>, roots: set<nat>, parent: nat, page: nat)
    requires MachineInv(m, lv, roots) && parent in roots && AllocPage(m).Fresh? && page == AllocPage(m).page
    ensures parent in m.mem
    ensures MachineInv(m.(mem := m.mem[page := UpperOf(m.mem[parent])], pool := PoolAlloc(m.pool, 1)), lv[page := 4],
              roots + {page})
  {
    hide MachineInv, Shape, PoolInv, PoolFree, PoolAlloc, UpperOf, OpenLinks, IsPoolPage;
    NextRoot(m, lv, roots);
    SoundShape(m, lv, roots);
    RootLevel(m, lv, roots, parent);
    ChildShape(m.mem, lv, roots, parent, page);
    UpperEntries(m.mem, parent);
    RootOpen(m.mem, lv, page, UpperOf(m.mem[parent]), parent);
    TakesFrame(m, lv, roots, m.mem[page := UpperOf(m.mem[parent])], lv[page := 4], roots + {page});
  }

  lemma UpperEntries(mem: Mem, parent: nat)
    requires parent in mem
    ensures forall i :: 0 <= i < 512 ==>
              UpperOf(mem[parent])[i] == 0 || UpperOf(mem[parent])[i] == Entry(mem, parent, i)
  {
  }

  lemma RootWalk(m: Machine, lv: map<nat, nat>, roots: set<nat>, s: nat, v: nat, page: nat, table: seq<nat>)
    requires MachineInv(m, lv, roots) && s in roots && page !in m.mem
    ensures Walk(m.mem[page := table], s, v) == Walk(m.mem, s, v)
  {
    OldWalk(m.mem, lv, roots, s, 4, v, page, table);
  }

  lemma ChildWalk(mem: Mem, parent: nat, page: nat, v: nat)
    requires parent in mem && |mem[parent]| == 512 && page != parent
    ensures var mem' := mem[page := UpperOf(mem[parent])];
            Walk(mem', page, v) == if Index(v, 4) >= 256 then Walk(mem', parent, v) else Unmapped
  {
  }

  // A slot the parent filled after the copy is not seen by the child: the address is mapped below the
  // parent and still unmapped below the child.
  lemma LateSlotNotSeen(m: Machine, lv: map<nat, nat>, roots: set<nat>, parent: nat, child: nat,
                        phys: nat, virt: nat, mode: Mode)
    requires MachineInv(m, lv, roots) && parent in roots && child in roots && parent != child
    requires !Present(Entry(m.mem, child, Index(virt, 4)))
    requires MapPage(m, parent, phys, virt, mode).Ret? && MapPage(m, parent, phys, virt, mode).code == 0
    ensures var m' := MapPage(m, parent, phys, virt, mode).m;
            && Walk(m'.mem, parent, virt).Mapped?
            && Walk(m'.mem, child, virt) == Unmapped
  {
    hide MachineInv, View, Fill, MapPage, SharedSlot, RootsStay, Grew, FlatMapCode, Walk;
    RootLength(m, lv, roots, child);
    MapPageRefines(m, lv, roots, parent, phys, virt, mode);
    var r := MapPage(m, parent, phys, virt, mode);
    var lv' :| MapPageOk(m, lv, roots, parent, phys, virt, mode, r.m, r.code, lv');
    WalkIsLookup(r.m.mem, parent, virt);
    assert Entry(r.m.mem, child, Index(virt, 4)) == Entry(m.mem, child, Index(virt, 4));
    EmptySlot(r.m.mem, child, virt);
  }

  lemma EmptySlot(mem: Mem, root: nat, virt: nat)
    requires !Present(Entry(mem, root, Index(virt, 4)))
    ensures Walk(mem, root, virt) == Unmapped
  {
  }

  // ----- the physical aperture -----

  // Entry j of the i-th aperture PDPT: a present, writable, global 1G page (no-execute is compiled out).
  function ApertureEntry(i: nat, j: nat): nat {
    var val := i * 0x80_0000_0000 + j * 0x4000_0000;
    Or(Or(Or(Or(val, 1), 2), 0x80), 0x100)
  }

  function AperturePdpt(i: nat): (t: seq<nat>)
    ensures |t| == 512
  {
    seq(512, j requires 0 <= j < 512 => ApertureEntry(i, j))
  }

  // mapPhysAperture after the first n of its PDPTs.
  function ApertureSome(m: Machine, root: nat, n: nat): Step {
    if n == 0 then Ret(m, 0)
    else
      match ApertureSome(m, root, n - 1)
      case Panic => Panic
      case Ret(m1, _) =>
        match AllocPage(m1)
        case PagePanic => Panic
        case Fresh(m2, pdpt) =>
          var pml4e := Or(Or(TableAddr(pdpt), 1), 2);
          Ret(m2.(mem := Store(m2.mem[pdpt := AperturePdpt(n - 1)], root, 256 + (n - 1), pml4e)), 0)
  }

  // Number of PDPTs the aperture takes: its length over the 512 GB one PML4 entry covers.
  const APERTURE_PDPTS: nat := (APERTURE_END + 1 - APERTURE_START) / 0x80_0000_0000
  // The first page table of the system: an empty root, and the aperture below it.
  function FirstTable(m: Machine): PageStep {
    match AllocPage(m)
    case PagePanic => PagePanic
    case Fresh(m1, root) =>
      match ApertureSome(m1, root, APERTURE_PDPTS)
      case Panic => PagePanic
      case Ret(m2, _) => Fresh(m2, root)
  }

  lemma ApertureEntrySpec(i: nat, j: nat)
    requires i < 4 && j < 512
    ensures var e := ApertureEntry(i, j);
            && e == i * 0x80_0000_0000 + j * 0x4000_0000 + 0x183
            && Present(e) && LargePage(e) && !Links(e, 3)
            && DecodeAddr(e) == i * 0x80_0000_0000 + j * 0x4000_0000
            && DecodeAddr(e) % 0x4000_0000 == 0
            && DecodeMode(e) == Mode(true, true, true, false, false, false)
  {
    var q := 0x200 * i + j;
    var val := 0x4000_0000 * q;
    assert val == i * 0x80_0000_0000 + j * 0x4000_0000;
    DivUnique(val, 1, val, 0);
    DivUnique(val, 2, 0x2000_0000 * q, 0);
    DivUnique(val + 1, 2, 0x2000_0000 * q, 1);
    DivUnique(0x2000_0000 * q, 2, 0x1000_0000 * q, 0);
    DivUnique(val + 3, 0x80, 0x80_0000 * q, 3);
    DivUnique(0x80_0000 * q, 2, 0x40_0000 * q, 0);
    DivUnique(val + 0x83, 0x100, 0x40_0000 * q, 0x83);
    DivUnique(0x40_0000 * q, 2, 0x20_0000 * q, 0);
    var e := val + 0x183;
    assert ApertureEntry(i, j) == e;
    DivUnique(e, 2, 0x2000_0000 * q + 0xC1, 1);
    DivUnique(0x2000_0000 * q + 0xC1, 2, 0x1000_0000 * q + 0x60, 1);
    DivUnique(e, 0x80, 0x80_0000 * q + 3, 3);
    DivUnique(0x80_0000 * q + 3, 2, 0x40_0000 * q + 1, 1);
    DivUnique(e, 4, 0x1000_0000 * q + 0x60, 3);
    DivUnique(0x1000_0000 * q + 0x60, 2, 0x800_0000 * q + 0x30, 0);
    DivUnique(e, 0x8000_0000_0000_0000, 0, e);
    DivUnique(e, 0x10_0000_0000_0000, 0, e);
    DivUnique(e, 0x1000, 0x4_0000 * q, 0x183);
    DivUnique(val, 0x4000_0000, q, 0);
  }

  // What the aperture maps an address to.
  function ApertureLeaf(virt: nat): Translation {
    Mapped((Index(virt, 4) - 256) % 512 * 0x80_0000_0000 + Index(virt, 3) * 0x4000_0000 + virt % 0x4000_0000,
           Mode(true, true, true, false, false, false), 3)
  }

  // n PDPTs of the aperture are in place below root.
  ghost predicate ApertureOk(m: Machine, m': Machine, lv': map<nat, nat>, roots: set<nat>, root: nat, n: nat) {
    && MachineInv(m', lv', roots)
    && (forall v :: Walk(m'.mem, root, v) ==
                    if 256 <= Index(v, 4) < 256 + n then ApertureLeaf(v) else Walk(m.mem, root, v))
    && (forall i: nat :: 256 + n <= i < 260 ==> Entry(m'.mem, root, i) == Entry(m.mem, root, i))
    && (forall i: nat :: 256 <= i < 256 + n ==> Entry(m'.mem, root, i) % 0x1000 == 3)
  }

  lemma {:induction false} TableWalk(mem: Mem, lv: map<nat, nat>, roots: set<nat>, root: nat, v: nat,
                                     i: nat, page: nat, table: seq<nat>, e: nat)
    requires Shape(mem, lv, roots) && root in roots && page !in mem && i < 512
    requires LeafTable(table, 3) && TableAddr(e) == page && Links(e, 4)
    ensures root in mem && |mem[root]| == 512
    ensures Walk(Write(mem[page := table], root, i, e), root, v) ==
            if Index(v, 4) == i then Leaf(table[Index(v, 3)], 3, v) else Walk(mem, root, v)
  {
    var mem' := Write(mem[page := table], root, i, e);
    var j := Index(v, 4);
    if j == i {
      assert Entry(mem', root, j) == e;
      assert Entry(mem', page, Index(v, 3)) == table[Index(v, 3)];
    } else {
      assert Entry(mem', root, j) == Entry(mem, root, j);
      if Links(Entry(mem, root, j), 4) {
        LinkedChild(mem, lv, roots, root, j);
        var c := TableAddr(Entry(mem, root, j));
        OldWalk(mem, lv, roots, c, 3, v, page, table);
        RootUnused(mem[page := table], mem, lv, roots, c, 3, v, page, table, root, i, e);
      }
    }
  }

  // Below level 4 a write to the root is not seen.
  lemma {:induction false} RootUnused(mem1: Mem, mem: Mem, lv: map<nat, nat>, roots: set<nat>, t: nat, level: nat,
                                      v: nat,
                                      page: nat, table: seq<nat>, root: nat, i: nat, e: nat)
    requires Shape(mem, lv, roots) && t in mem && lv[t] == level && level < 4
    requires root in roots && page !in mem && mem1 == mem[page := table] && i < |mem[root]|
    ensures WalkFrom(Write(mem1, root, i, e), t, level, v) == WalkFrom(mem1, t, level, v)
    decreases level
  {
    var j := Index(v, level);
    assert t != root;
    assert Entry(Write(mem1, root, i, e), t, j) == Entry(mem, t, j) == Entry(mem1, t, j);
    if Links(Entry(mem, t, j), level) {
      LinkedChild(mem, lv, roots, t, j);
      RootUnused(mem1, mem, lv, roots, TableAddr(Entry(mem, t, j)), level - 1, v, page, table, root, i, e);
    }
  }

  lemma PdptLeaf(i: nat, v: nat)
    requires i < 4 && Index(v, 4) == 256 + i
    ensures Leaf(ApertureEntry(i, Index(v, 3)), 3, v) == ApertureLeaf(v)
  {
    hide ApertureEntry, Index, DecodeAddr, DecodeMode, Present, LargePage, Low48;
    var j := Index(v, 3);
    ApertureEntrySpec(i, j);
    assert (Index(v, 4) - 256) % 512 == i;
    assert Span(3) == 0x4000_0000;
  }

  lemma PdptIsLeaf(i: nat)
    requires i < 4
    ensures LeafTable(AperturePdpt(i), 3)
    ensures forall v :: Index(v, 4) == 256 + i ==> Leaf(AperturePdpt(i)[Index(v, 3)], 3, v) == ApertureLeaf(v)
  {
    hide ApertureEntry, Leaf, Links;
    forall j | 0 <= j < 512
      ensures !Links(AperturePdpt(i)[j], 3)
    {
      ApertureEntrySpec(i, j);
    }
    forall v | Index(v, 4) == 256 + i
      ensures Leaf(AperturePdpt(i)[Index(v, 3)], 3, v) == ApertureLeaf(v)
    {
      PdptLeaf(i, v);
    }
  }

  // The machine after one more PDPT.
  function ApertureNext(m1: Machine, root: nat, n: nat, page: nat): Machine {
    m1.(mem := Store(m1.mem[page := AperturePdpt(n)], root, 256 + n, Or(Or(TableAddr(page), 1), 2)),
        pool := PoolAlloc(m1.pool, 1))
  }

  lemma ApertureStepInv(m1: Machine, lv: map<nat, nat>, roots: set<nat>, root: nat, n: nat, page: nat)
    requires MachineInv(m1, lv, roots) && root in roots && n < 4
    requires !Present(Entry(m1.mem, root, 256 + n))
    requires AllocPage(m1).Fresh? && page == AllocPage(m1).page
    ensures MachineInv(ApertureNext(m1, root, n, page), lv[page := 3], roots)
  {
    hide MachineInv, Links, LeafTable, AperturePdpt, PoolInv, OpenLinks, Shape, PoolFree, PoolAlloc, Or, TableAddr;
    NextRoot(m1, lv, roots);
    SoundShape(m1, lv, roots);
    RootLevel(m1, lv, roots, root);
    PageIsAddr(page);
    PdptIsLeaf(n);
    var e := Or(Or(page, 1), 2);
    LinksAtRoot(page, e);
    LinkShape(m1.mem, lv, roots, root, 256 + n, page, AperturePdpt(n), e);
    LinkOpen(m1.mem, lv, root, 256 + n, page, AperturePdpt(n), e);
    var mem := Write(m1.mem[page := AperturePdpt(n)], root, 256 + n, e);
    assert ApertureNext(m1, root, n, page).mem == mem;
    TakesFrame(m1, lv, roots, mem, lv[page := 3], roots);
  }

  lemma ApertureStepWalk(m: Machine, m1: Machine, lv: map<nat, nat>, roots: set<nat>, root: nat, n: nat, page: nat)
    requires ApertureOk(m, m1, lv, roots, root, n) && root in roots && n < 4
    requires AllocPage(m1).Fresh? && page == AllocPage(m1).page
    ensures var m3 := ApertureNext(m1, root, n, page);
            && (forall v :: Walk(m3.mem, root, v) ==
                            if 256 <= Index(v, 4) < 256 + (n + 1) then ApertureLeaf(v) else Walk(m.mem, root, v))
            && (forall i: nat :: 256 + (n + 1) <= i < 260 ==> Entry(m3.mem, root, i) == Entry(m.mem, root, i))
            && (forall i: nat :: 256 <= i < 256 + (n + 1) ==> Entry(m3.mem, root, i) % 0x1000 == 3)
  {
    hide MachineInv, Leaf, ApertureLeaf, Links, LeafTable, AperturePdpt, Index, Walk, Shape;
    NextRoot(m1, lv, roots);
    RootLength(m1, lv, roots, root);
    PageIsAddr(page);
    PdptIsLeaf(n);
    var e := Or(Or(page, 1), 2);
    LinksAtRoot(page, e);
    var mem3 := Write(m1.mem[page := AperturePdpt(n)], root, 256 + n, e);
    assert ApertureNext(m1, root, n, page).mem == mem3;
    hide MachineInv, AllocPage, Or, TableAddr;
    forall v
      ensures Walk(mem3, root, v) == if 256 <= Index(v, 4) < 256 + (n + 1) then ApertureLeaf(v)
                else Walk(m.mem, root, v)
    {
      TableWalk(m1.mem, lv, roots, root, v, 256 + n, page, AperturePdpt(n), e);
    }
    forall i: nat | 256 + (n + 1) <= i < 260
      ensures Entry(mem3, root, i) == Entry(m.mem, root, i)
    {
      assert Entry(mem3, root, i) == Entry(m1.mem, root, i);
    }
    forall i: nat | 256 <= i < 256 + (n + 1)
      ensures Entry(mem3, root, i) % 0x1000 == 3
    {
      assert Entry(mem3, root, i) == if i == 256 + n then e else Entry(m1.mem, root, i);
    }
  }

  lemma PageIsAddr(page: nat)
    requires page % PAGE == 0 && page < 0x8000_0000_0000_0000
    ensures TableAddr(page) == page
  {
  }

  lemma LinksAtRoot(page: nat, e: nat)
    requires page % PAGE == 0 && page < 0x8000_0000_0000_0000
    requires e == Or(Or(page, 1), 2)
    ensures Links(e, 4) && TableAddr(e) == page && e % 0x1000 == 3 && (e / 2) % 2 == 1
  {
  }

  lemma ApertureUnfold(m: Machine, root: nat, n: nat)
    requires n > 0 && ApertureSome(m, root, n).Ret?
    ensures ApertureSome(m, root, n - 1).Ret?
    ensures var m1 := ApertureSome(m, root, n - 1).m;
            && AllocPage(m1).Fresh?
            && ApertureSome(m, root, n).m == ApertureNext(m1, root, n - 1, AllocPage(m1).page)
  {
  }

  lemma {:induction false} ApertureKeeps(m: Machine, lv: map<nat, nat>, roots: set<nat>, root: nat, n: nat)
    requires MachineInv(m, lv, roots) && root in roots && n <= 4
    requires forall i: nat :: 256 <= i < 260 ==> !Present(Entry(m.mem, root, i))
    requires ApertureSome(m, root, n).Ret?
    ensures exists lv' :: ApertureOk(m, ApertureSome(m, root, n).m, lv', roots, root, n)
  {
    hide MachineInv, Walk, AllocPage, ApertureNext, ApertureLeaf, Index;
    if n == 0 {
      assert ApertureOk(m, m, lv, roots, root, 0);
    } else {
      ApertureUnfold(m, root, n);
      ApertureKeeps(m, lv, roots, root, n - 1);
      var m1 := ApertureSome(m, root, n - 1).m;
      var page := AllocPage(m1).page;
      var lv1 :| ApertureOk(m, m1, lv1, roots, root, n - 1);
      assert Entry(m1.mem, root, 256 + (n - 1)) == Entry(m.mem, root, 256 + (n - 1));
      ApertureStepInv(m1, lv1, roots, root, n - 1, page);
      ApertureStepWalk(m, m1, lv1, roots, root, n - 1, page);
      assert ApertureOk(m, ApertureSome(m, root, n).m, lv1[page := 3], roots, root, n);
    }
  }

  // After mapPhysAperture every address of the 2 TB window translates to its offset in the window, kernel
  // read-write, and every address outside it translates as before. The top-level entries are present and writable.
  lemma ApertureMapsPhysical(m: Machine, lv: map<nat, nat>, roots: set<nat>, root: nat, n: nat, m': Machine)
    requires MachineInv(m, lv, roots) && root in roots
    requires forall i: nat :: 256 <= i < 260 ==> !Present(Entry(m.mem, root, i))
    requires n == APERTURE_PDPTS && ApertureSome(m, root, n) == Ret(m', 0)
    ensures exists lv' :: MachineInv(m', lv', roots)
    ensures forall v: nat :: 0xFFFF_8000_0000_0000 <= v <= 0xFFFF_81FF_FFFF_FFFF ==>
              Walk(m'.mem, root, v) == Mapped(v - 0xFFFF_8000_0000_0000, Mode(true, true, true, false, false, false), 3)
    ensures forall v: nat ::
              v < ADDR_LIMIT && Canonical(v) && !(0xFFFF_8000_0000_0000 <= v <= 0xFFFF_81FF_FFFF_FFFF) ==>
                Walk(m'.mem, root, v) == Walk(m.mem, root, v)
    ensures forall i: nat :: 256 <= i < 260 ==> Entry(m'.mem, root, i) % 0x1000 == 3
  {
    hide MachineInv, Walk, ApertureLeaf, Index, Canonical;
    ApertureKeeps(m, lv, roots, root, n);
    var lv' :| ApertureOk(m, m', lv', roots, root, n);
    forall v: nat | APERTURE_START <= v <= APERTURE_END
      ensures Walk(m'.mem, root, v) == Mapped(v - APERTURE_START, Mode(true, true, true, false, false, false), 3)
    {
      InsideAperture(v);
    }
    forall v: nat | v < ADDR_LIMIT && Canonical(v) && !(APERTURE_START <= v <= APERTURE_END)
      ensures Walk(m'.mem, root, v) == Walk(m.mem, root, v)
    {
      OutsideAperture(v);
    }
  }

  lemma InsideAperture(v: nat)
    requires APERTURE_START <= v <= APERTURE_END
    ensures 256 <= Index(v, 4) < 260
    ensures ApertureLeaf(v) == Mapped(v - APERTURE_START, Mode(true, true, true, false, false, false), 3)
  {
    var off := v - APERTURE_START;
    var low := 0x8000_0000_0000 + off;
    DivUnique(v, 0x1_0000_0000_0000, 0xFFFF, low);
    var i, r := off / 0x80_0000_0000, off % 0x80_0000_0000;
    assert off == 0x80_0000_0000 * i + r && i < 4;
    DivUnique(low, 0x80_0000_0000, 256 + i, r);
    var j, w := r / 0x4000_0000, r % 0x4000_0000;
    assert r == 0x4000_0000 * j + w && j < 512;
    DivUnique(low, 0x4000_0000, 0x2_0000 + 0x200 * i + j, w);
    DivUnique(0x2_0000 + 0x200 * i + j, 512, 256 + i, j);
    DivUnique(v, 0x4000_0000, 0x3_FFFE_0000 + 0x200 * i + j, w);
    hide Low48;
    DivUnique(256 + i, 512, 0, 256 + i);
  }

  lemma OutsideAperture(v: nat)
    requires v < ADDR_LIMIT && Canonical(v) && !(APERTURE_START <= v <= APERTURE_END)
    ensures !(256 <= Index(v, 4) < 260)
  {
  }
}

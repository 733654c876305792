// The PageTable object: the four levels written out, changing frame entries in place.
module PageTableObject {
  import opened PageEntries
  import opened PageWalk
  import opened Pools
  import opened PhysicalPool
  import opened PageTables
  import opened PageMap
  import opened PageUnmap
  import opened PageCreate

  // Physical memory as the page tables use it: the frames that hold paging structures, and whether the kernel is
  // still in early boot.
  class Memory {
    var tables: Mem
    var early: bool
  }

  // A result that is absent when a REQUIRE halted the kernel.
  datatype Halting<T> = Halted | Value(value: T)

  class PageTable {
    const memory: Memory
    const frames: Pool
    var pml4Phys: nat

    constructor (memory: Memory, frames: Pool)
      requires frames.Valid() && (memory as object) !in {frames} + frames.Repr() && (frames as object) !in frames.Repr()
      ensures Valid() && this.memory == memory && this.frames == frames
    {
      this.memory, this.frames := memory, frames;
      pml4Phys := 0;
    }

    ghost function Footprint(): set<object>
      reads frames
    {
      {memory} + {frames} + frames.Repr()
    }

    ghost predicate Valid()
      reads this, frames
    {
      && frames.Valid()
      && (memory as object) !in {frames} + frames.Repr()
      && (this as object) !in Footprint()
      && (frames as object) !in frames.Repr()
    }

    ghost function State(): Machine
      requires Valid()
      reads this, Footprint()
    {
      Machine(memory.tables, frames.State(), memory.early)
    }

    // The paging structures below some set of roots, this table's among them, are well formed.
    ghost predicate Sound(lv: map<nat, nat>, roots: set<nat>)
      requires Valid()
      reads this, Footprint()
    {
      MachineInv(State(), lv, roots) && pml4Phys in roots
    }

    method ReadTable(base: nat, offset: nat) returns (e: nat)
      requires base in memory.tables && |memory.tables[base]| == 512 && offset <= 511
      ensures e == Entry(memory.tables, base, offset)
    {
      e := memory.tables[base][offset];
    }

    method WriteTable(base: nat, offset: nat, val: nat)
      requires base in memory.tables && |memory.tables[base]| == 512 && offset <= 511
      modifies memory`tables
      ensures memory.tables == Store(old(memory.tables), base, offset, val)
    {
      var entries: seq<nat> := memory.tables[base][offset := val];
      memory.tables := memory.tables[base := entries];
    }

    method AllocPage() returns (r: Halting<nat>)
      requires Valid() && PoolInv(frames.State())
      modifies memory`tables, frames.Repr()
      ensures Valid() && frames.Repr() == old(frames.Repr())
      ensures match r
              case Halted => PageTables.AllocPage(old(State())) == PagePanic
              case Value(page) => PageTables.AllocPage(old(State())) == Fresh(State(), page)
    {
      hide PoolInv, PoolFree, PoolAlloc, PoolServed, Stored;
      ghost var ps := frames.State();
      var out := new nat[1];
      ghost var was := out[..];
      var got := frames.Alloc(1, out);
      OneFrame(ps, was);
      if got != 1 {
        return Halted;
      }
      var page := out[0];
      if page >= Reach(memory.early) {
        return Halted;
      }
      memory.tables := memory.tables[page := ZeroTable()];
      return Value(page);
    }

    // Allocate a paging structure and link it from an entry; the caller goes on with the table it returns.
    method LinkNew(table: nat, offset: nat, virt: nat) returns (r: Halting<nat>)
      requires Valid() && PoolInv(frames.State())
      requires table in memory.tables && |memory.tables[table]| == 512 && offset <= 511
      requires table !in PoolFree(frames.State())
      modifies memory`tables, frames.Repr()
      ensures Valid() && frames.Repr() == old(frames.Repr())
      ensures match r
              case Halted => PageTables.AllocPage(old(State())) == PagePanic
              case Value(entry) =>
                var a := PageTables.AllocPage(old(State()));
                && a.Fresh?
                && (a.page == 0 ==> entry == 0 && State() == a.m)
                && (a.page != 0 ==>
                     entry == LinkEntry(a.page, virt) && State() == a.m.(mem := Store(a.m.mem, table, offset, entry)))
    {
      hide PoolInv;
      ghost var m := State();
      r := AllocPage();
      if r.Halted? || r.value == 0 {
        return;
      }
      assert r.value == PoolFree(m.pool)[0] && r.value in PoolFree(m.pool);
      var entry := Or(Or(r.value, 1), 2);
      if virt < KERNEL_BOUNDARY {
        entry := Or(entry, 4);
      }
      WriteTable(table, offset, entry);
      r := Value(entry);
    }

    // One level of the descent of mapPage: the next table, allocated if it is missing, or an error code.
    method Descend(table: nat, level: nat, virt: nat, ghost lv: map<nat, nat>, ghost roots: set<nat>)
      returns (r: Halting<int>, ghost lv': map<nat, nat>)
      requires Valid() && MachineInv(State(), lv, roots)
      requires table in memory.tables && table in lv && lv[table] == level && 2 <= level <= 4
      modifies memory`tables, frames.Repr()
      ensures Valid() && frames.Repr() == old(frames.Repr())
      ensures match r
              case Halted => Fill(old(State()), table, level, virt) == FillPanic
              case Value(x) =>
                if x < 0 then Fill(old(State()), table, level, virt) == FillErr(State(), x)
                else
                  && Fill(old(State()), table, level, virt) == Fill(State(), x, level - 1, virt)
                  && MachineInv(State(), lv', roots) && x in memory.tables && x in lv' && lv'[x] == level - 1
    {
      hide MachineInv, PageTables.AllocPage, Fill, LinkEntry, Links, TableAddr, Added, Shape, PoolFree, PoolInv, Store,
        Low48;
      ghost var m := State();
      lv' := lv;
      TableSize(m, lv, roots, table);
      var i := Low48(virt) / Span(level) % 512;
      var e := ReadTable(table, i);
      if !Present(e) {
        var entry := LinkNew(table, i, virt);
        FillMissing(m, table, level, virt);
        if entry.Halted? {
          return Halted, lv;
        }
        ghost var page := PageTables.AllocPage(m).page;
        NextTable(m, lv, roots, table, virt);
        lv' := lv[page := level - 1];
        r := Value(TableAddr(entry.value));
      } else if level < 4 && LargePage(e) {
        FillLarge(m, table, level, virt);
        r := Value(if level == 3 then ERR_LARGE_1G else ERR_LARGE_2M);
      } else {
        FillPresent(m, lv, roots, table, level, virt);
        r := Value(TableAddr(e));
      }
    }

    // mapPage. The result is absent when a REQUIRE halted the kernel.
    method MapPage(phys: nat, virt: nat, mode: Mode, ghost lv: map<nat, nat>, ghost roots: set<nat>)
      returns (r: Halting<int>)
      requires Valid() && Sound(lv, roots)
      modifies memory`tables, frames.Repr()
      ensures Valid() && frames.Repr() == old(frames.Repr())
      ensures PageTables.MapPage(old(State()), pml4Phys, phys, virt, mode) ==
              match r case Halted => Panic case Value(code) => Ret(State(), code)
    {
      hide MachineInv, PageTables.AllocPage, Fill, LeafEntry, Shape, PoolFree, PoolInv, Store, Index;
      ghost var m := State();
      if virt > 0x7FFF_FFFF_FFFF && virt < 0xFFFF_8000_0000_0000 {
        return Value(ERR_NOT_CANONICAL);
      }
      RootLevel(m, lv, roots, pml4Phys);
      ghost var lv3, lv2, lv1;
      r, lv3 := Descend(pml4Phys, 4, virt, lv, roots);
      if r.Halted? || r.value < 0 {
        return;
      }
      r, lv2 := Descend(r.value, 3, virt, lv3, roots);
      if r.Halted? || r.value < 0 {
        return;
      }
      r, lv1 := Descend(r.value, 2, virt, lv2, roots);
      if r.Halted? || r.value < 0 {
        return;
      }
      var ptAddr := r.value;
      FillDone(State(), ptAddr, virt);
      TableSize(State(), lv1, roots, ptAddr);
      IndexOne(virt);
      WriteTable(ptAddr, Low48(virt) / 0x1000 % 512, LeafEntry(phys, mode));
      r := Value(0);
    }

    // The descent of unmapPage: the table one level down, or the code to return.
    method UnmapPage(virt: nat, unmapLargePages: bool, ghost lv: map<nat, nat>, ghost roots: set<nat>)
      returns (code: int)
      requires Valid() && Sound(lv, roots)
      modifies memory`tables
      ensures Valid() && frames.State() == old(frames.State())
      ensures PageUnmap.UnmapPage(old(memory.tables), pml4Phys, virt, unmapLargePages) == Cleared(memory.tables, code)
    {
      hide MachineInv, Shape, PoolFree, PoolInv, Index, Store, TableAddr, PoolFree;
      if virt > 0x7FFF_FFFF_FFFF && virt < 0xFFFF_8000_0000_0000 {
        return ERR_NOT_CANONICAL;
      }
      ghost var m := State();
      RootLevel(m, lv, roots, pml4Phys);
      Indices(virt);
      var low := Low48(virt);

      var pml4e := ReadTable(pml4Phys, low / 0x80_0000_0000 % 512);
      if !Present(pml4e) {
        return 0;
      }
      var pdptAddr := TableAddr(pml4e);
      NextDown(m, lv, roots, pml4Phys, 4, virt);

      var pdpte := ReadTable(pdptAddr, low / 0x4000_0000 % 512);
      if !Present(pdpte) {
        return 0;
      } else if LargePage(pdpte) {
        if !unmapLargePages {
          return ERR_LARGE;
        }
        WriteTable(pdptAddr, low / 0x4000_0000 % 512, 0);
        return 1;
      }
      var pdtAddr := TableAddr(pdpte);
      NextDown(m, lv, roots, pdptAddr, 3, virt);

      var pdte := ReadTable(pdtAddr, low / 0x20_0000 % 512);
      if !Present(pdte) {
        return 0;
      } else if LargePage(pdte) {
        if !unmapLargePages {
          return ERR_LARGE;
        }
        WriteTable(pdtAddr, low / 0x20_0000 % 512, 0);
        return 1;
      }
      var ptAddr := TableAddr(pdte);
      NextDown(m, lv, roots, pdtAddr, 2, virt);

      WriteTable(ptAddr, low / 0x1000 % 512, 0);
      return 1;
    }

    // unmap: every page of the range, large pages included, until the first error.
    method Unmap(virt: nat, length: nat, ghost lv: map<nat, nat>, ghost roots: set<nat>) returns (code: int)
      requires Valid() && Sound(lv, roots)
      modifies memory`tables
      ensures Valid() && frames.State() == old(frames.State())
      ensures PageUnmap.Unmap(old(memory.tables), pml4Phys, virt, length) == Cleared(memory.tables, code)
    {
      hide MachineInv, Shape, PageUnmap.UnmapPage, View, UnmapSomeOk;
      if virt == 0 || virt % PAGE != 0 || length == 0 || length % PAGE != 0 {
        return ERR_ARGUMENT;
      }
      ghost var m := State();
      SoundShape(m, lv, roots);
      var numPages := length / PAGE;
      var page := 0;
      while page < numPages
        invariant page <= numPages
        invariant frames.State() == old(frames.State())
        invariant UnmapSome(m.mem, pml4Phys, virt, page) == Cleared(memory.tables, 0)
      {
        UnmapKeepsInv(m, lv, roots, pml4Phys, virt, page);
        assert State() == m.(mem := memory.tables);
        code := UnmapPage((virt + page * PAGE) % ADDR_LIMIT, true, lv, roots);
        page := page + 1;
        if code < 0 {
          UnmapStops(m.mem, pml4Phys, virt, page, numPages);
          return code;
        }
      }
      return 0;
    }

    // getPhysAddr: the code, and the translation left in the out parameters.
    method GetPhysAddr(virt: nat, ghost lv: map<nat, nat>, ghost roots: set<nat>) returns (r: Resolved)
      requires Valid() && Sound(lv, roots)
      ensures r == PageUnmap.GetPhysAddr(memory.tables, pml4Phys, virt)
      ensures if 0x8000_0000_0000 <= virt < 0xFFFF_8000_0000_0000 then r == Resolved(-1, Unmapped)
              else
                && r.out == Walk(memory.tables, pml4Phys, virt)
                && r.code == (if r.out.Mapped? && r.out.level == 1 then 1 else 0)
    {
      hide MachineInv, Shape, PoolFree, PoolInv, Index, TableAddr, DecodeAddr, DecodeMode, WalkFrom, Present, LargePage;
      if virt > 0x7FFF_FFFF_FFFF && virt < 0xFFFF_8000_0000_0000 {
        return Resolved(-1, Unmapped);
      }
      ghost var m := State();
      RootLevel(m, lv, roots, pml4Phys);
      Indices(virt);
      var low := Low48(virt);

      WalkStep(m.mem, pml4Phys, 4, virt);
      var pml4e := ReadTable(pml4Phys, low / 0x80_0000_0000 % 512);
      if !Present(pml4e) {
        return Resolved(0, Unmapped);
      }
      var pdptAddr := TableAddr(pml4e);
      NextDown(m, lv, roots, pml4Phys, 4, virt);

      WalkStep(m.mem, pdptAddr, 3, virt);
      var pdpte := ReadTable(pdptAddr, low / 0x4000_0000 % 512);
      if !Present(pdpte) {
        return Resolved(0, Unmapped);
      } else if LargePage(pdpte) {
        var phys := DecodeAddr(pdpte);
        return Resolved(0, Mapped(phys - phys % 0x4000_0000 + virt % 0x4000_0000, DecodeMode(pdpte), 3));
      }
      var pdtAddr := TableAddr(pdpte);
      NextDown(m, lv, roots, pdptAddr, 3, virt);

      WalkStep(m.mem, pdtAddr, 2, virt);
      var pdte := ReadTable(pdtAddr, low / 0x20_0000 % 512);
      if !Present(pdte) {
        return Resolved(0, Unmapped);
      } else if LargePage(pdte) {
        var phys := DecodeAddr(pdte);
        return Resolved(0, Mapped(phys - phys % 0x20_0000 + virt % 0x20_0000, DecodeMode(pdte), 2));
      }
      var ptAddr := TableAddr(pdte);
      NextDown(m, lv, roots, pdtAddr, 2, virt);

      WalkStep(m.mem, ptAddr, 1, virt);
      var pte := ReadTable(ptAddr, low / 0x1000 % 512);
      if !Present(pte) {
        return Resolved(0, Unmapped);
      }
      AlignedFrame(pte);
      return Resolved(1, Mapped(DecodeAddr(pte) + virt % 0x1000, DecodeMode(pte), 1));
    }

    // copyPml4Upper
    method CopyPml4Upper(parent: PageTable)
      requires Valid() && parent.memory == memory && (parent as object) != memory
      requires pml4Phys in memory.tables && |memory.tables[pml4Phys]| == 512 && pml4Phys != parent.pml4Phys
      requires parent.pml4Phys in memory.tables && |memory.tables[parent.pml4Phys]| == 512
      modifies memory`tables
      ensures memory.tables ==
              old(memory.tables)[pml4Phys := old(memory.tables)[pml4Phys][..0x100] +
                  old(memory.tables)[parent.pml4Phys][0x100..]]
    {
      ghost var was := memory.tables;
      ghost var own, top := was[pml4Phys], was[parent.pml4Phys];
      for j := 0x100 to 512
        invariant pml4Phys in memory.tables && |memory.tables[pml4Phys]| == 512
        invariant memory.tables == was[pml4Phys := memory.tables[pml4Phys]]
        invariant forall k :: 0 <= k < 512 ==> memory.tables[pml4Phys][k] == if 0x100 <= k < j then top[k] else own[k]
      {
        var pml4e := ReadTable(parent.pml4Phys, j);
        WriteTable(pml4Phys, j, pml4e);
      }
      assert memory.tables[pml4Phys] == own[..0x100] + top[0x100..];
    }

    // mapPhysAperture
    method MapPhysAperture(ghost lv: map<nat, nat>, ghost roots: set<nat>) returns (r: Halting<int>)
      requires Valid() && Sound(lv, roots)
      requires forall i: nat :: 256 <= i < 260 ==> !Present(Entry(memory.tables, pml4Phys, i))
      modifies memory`tables, frames.Repr()
      ensures Valid() && frames.Repr() == old(frames.Repr())
      ensures ApertureSome(old(State()), pml4Phys, APERTURE_PDPTS) ==
              match r case Halted => Panic case Value(_) => Ret(State(), 0)
    {
      hide MachineInv, PageTables.AllocPage, ApertureSome;
      ghost var m := State();
      ApertureStart(m, pml4Phys);
      var len := APERTURE_END + 1 - APERTURE_START;
      var i := 0;
      while i < len / 0x80_0000_0000
        invariant Valid() && frames.Repr() == old(frames.Repr())
        invariant i <= APERTURE_PDPTS
        invariant ApertureSome(m, pml4Phys, i) == Ret(State(), 0)
      {
        var done := AddPdpt(i, m, lv, roots);
        if !done {
          ApertureStops(m, pml4Phys, i + 1, APERTURE_PDPTS);
          return Halted;
        }
        i := i + 1;
      }
      r := Value(0);
    }

    // One round: a PDPT of 1G pages, linked from the PML4.
    method AddPdpt(i: nat, ghost m: Machine, ghost lv: map<nat, nat>, ghost roots: set<nat>) returns (done: bool)
      requires Valid() && MachineInv(m, lv, roots) && pml4Phys in roots && i < 4
      requires forall j: nat :: 256 <= j < 260 ==> !Present(Entry(m.mem, pml4Phys, j))
      requires ApertureSome(m, pml4Phys, i) == Ret(State(), 0)
      modifies memory`tables, frames.Repr()
      ensures Valid() && frames.Repr() == old(frames.Repr())
      ensures ApertureSome(m, pml4Phys, i + 1) == if done then Ret(State(), 0) else Panic
    {
      hide MachineInv, PageTables.AllocPage, ApertureEntry, Shape, ApertureOk, ApertureSome, AperturePdpt, Or,
        TableAddr, ZeroTable, Present, PoolInv, Store;
      ghost var m1 := State();
      ApertureReady(m, lv, roots, pml4Phys, i);
      var page := AllocPage();
      if page.Halted? {
        ApertureHalts(m, pml4Phys, i + 1);
        return false;
      }
      var pdpt := page.value;
      LinkPdpt(pdpt, i);
      ApertureGoesOn(m, pml4Phys, i + 1, m1, pdpt, State());
      done := true;
    }

    // Its entries, and the PML4's entry for it.
    method LinkPdpt(pdpt: nat, i: nat)
      requires pdpt in memory.tables && memory.tables[pdpt] == ZeroTable() && i < 4 && pdpt != pml4Phys
      requires pml4Phys in memory.tables && |memory.tables[pml4Phys]| == 512
      modifies memory`tables
      ensures memory.tables ==
              Store(old(memory.tables)[pdpt := AperturePdpt(i)], pml4Phys, 256 + i, Or(Or(TableAddr(pdpt), 1), 2))
    {
      hide AperturePdpt, Or, TableAddr, Store;
      FillPdpt(pdpt, i);
      WriteTable(pml4Phys, 256 + i, Or(Or(TableAddr(pdpt), 1), 2));
    }

    // The inner loop: all 512 entries of one PDPT.
    method FillPdpt(pdpt: nat, i: nat)
      requires pdpt in memory.tables && memory.tables[pdpt] == ZeroTable()
      modifies memory`tables
      ensures memory.tables == old(memory.tables)[pdpt := AperturePdpt(i)]
    {
      hide ApertureEntry;
      ghost var was := memory.tables;
      for j := 0 to 512
        invariant pdpt in memory.tables && |memory.tables[pdpt]| == 512
        invariant memory.tables == was[pdpt := memory.tables[pdpt]]
        invariant forall k :: 0 <= k < j ==> memory.tables[pdpt][k] == ApertureEntry(i, k)
      {
        WriteTable(pdpt, j, ApertureEntry(i, j));
      }
      assert memory.tables[pdpt] == AperturePdpt(i);
    }

    // The body of the PageTable constructor; first is set for the first page table of the system.
    method Initialize(parent: PageTable?, first: bool, ghost lv: map<nat, nat>, ghost roots: set<nat>)
      returns (r: Halting<int>)
      requires Valid() && MachineInv(State(), lv, roots)
      requires parent != null ==> parent.memory == memory && parent != this && parent.pml4Phys in roots
      requires first ==> parent == null
      modifies this`pml4Phys, memory`tables, frames.Repr()
      ensures Valid() && frames.Repr() == old(frames.Repr())
      ensures r.Value? ==> pml4Phys !in old(memory.tables)
      ensures parent != null ==>
                && parent.pml4Phys in old(memory.tables)
                && NewChild(old(State()), old(parent.pml4Phys)) ==
                     (if r.Value? then Fresh(State(), pml4Phys) else PagePanic)
      ensures parent == null && !first ==>
                PageTables.AllocPage(old(State())) == if r.Value? then Fresh(State(), pml4Phys) else PagePanic
      ensures first ==> FirstTable(old(State())) == if r.Value? then Fresh(State(), pml4Phys) else PagePanic
    {
      hide MachineInv, PageTables.AllocPage, Shape, ApertureSome, NewChild, UpperOf, Entry, ZeroTable, PoolInv,
        PoolFree;
      ghost var m := State();
      if parent != null {
        RootLevel(m, lv, roots, parent.pml4Phys);
        NoChild(m, parent.pml4Phys);
      }
      var done := AllocRoot(lv, roots);
      if !done {
        return Halted;
      }
      if parent != null {
        CopyParent(parent, m, lv, roots);
      }
      if first {
        EmptyRootInv(m, lv, roots);
        r := MapPhysAperture(lv[pml4Phys := 4], roots + {pml4Phys});
        return;
      }
      r := Value(0);
    }

    // An empty PML4.
    method AllocRoot(ghost lv: map<nat, nat>, ghost roots: set<nat>) returns (done: bool)
      requires Valid() && MachineInv(State(), lv, roots)
      modifies this`pml4Phys, memory`tables, frames.Repr()
      ensures Valid() && frames.Repr() == old(frames.Repr())
      ensures !done ==> PageTables.AllocPage(old(State())) == PagePanic
      ensures done ==>
                && PageTables.AllocPage(old(State())) == Fresh(State(), pml4Phys)
                && pml4Phys !in old(memory.tables) && pml4Phys in memory.tables
                     && memory.tables[pml4Phys] == ZeroTable()
                && (forall i: nat :: i < 512 ==> Entry(memory.tables, pml4Phys, i) == 0)
    {
      hide MachineInv, PageTables.AllocPage, Shape, Entry, ZeroTable, PoolInv, PoolFree;
      ghost var m := State();
      InvPool(m, lv, roots);
      var page := AllocPage();
      if page.Halted? {
        return false;
      }
      NextRoot(m, lv, roots);
      pml4Phys := page.value;
      assert State() == PageTables.AllocPage(m).m;
      FreshTable(memory.tables, pml4Phys);
      done := true;
    }

    // The upper half of the parent's PML4 over the fresh one.
    method CopyParent(parent: PageTable, ghost m: Machine, ghost lv: map<nat, nat>, ghost roots: set<nat>)
      requires Valid() && MachineInv(m, lv, roots) && PageTables.AllocPage(m) == Fresh(State(), pml4Phys)
      requires parent.memory == memory && parent != this && parent.pml4Phys in roots
      requires pml4Phys !in m.mem && pml4Phys in memory.tables && memory.tables[pml4Phys] == ZeroTable()
      modifies memory`tables
      ensures parent.pml4Phys in m.mem && NewChild(m, parent.pml4Phys) == Fresh(State(), pml4Phys)
    {
      hide MachineInv, PageTables.AllocPage, Shape, NewChild, UpperOf, PoolInv, PoolFree;
      RootLevel(m, lv, roots, parent.pml4Phys);
      NextRoot(m, lv, roots);
      FreshTable(memory.tables, pml4Phys);
      CopyPml4Upper(parent);
      UpperOverZero(m.mem[parent.pml4Phys]);
      ChildState(m, lv, roots, parent.pml4Phys, State());
    }
  }

  // One level of a walk: it ends at an absent entry, at a page, or goes on in the table the entry links.
  // Unmapping pages keeps the machine sound.
  lemma UnmapKeepsInv(m: Machine, lv: map<nat, nat>, roots: set<nat>, root: nat, virt: nat, n: nat)
    requires MachineInv(m, lv, roots) && root in roots
    ensures MachineInv(m.(mem := UnmapSome(m.mem, root, virt, n).mem), lv, roots)
  {
    hide MachineInv, Shape, View, UnmapSome, FlatUnmapSome, FlatUnmapWhere, RootsStay, RootsSame, OnlyClears;
    SoundShape(m, lv, roots);
    UnmapRefines(m.mem, lv, roots, root, virt, n);
    KeepsInv(m, lv, roots, UnmapSome(m.mem, root, virt, n).mem);
  }

  lemma WalkStep(mem: Mem, t: nat, level: nat, virt: nat)
    requires 1 <= level <= 4
    ensures var e := Entry(mem, t, Index(virt, level));
            && (!Present(e) ==> WalkFrom(mem, t, level, virt) == Unmapped)
            && (Present(e) && level >= 2 && !(level < 4 && LargePage(e)) ==>
                  WalkFrom(mem, t, level, virt) == WalkFrom(mem, TableAddr(e), level - 1, virt))
            && (Present(e) && (level == 1 || (level < 4 && LargePage(e))) ==>
                 WalkFrom(mem, t, level, virt) == Leaf(e, level, virt))
  {
  }

  lemma FreshTable(mem: Mem, page: nat)
    requires page in mem && mem[page] == ZeroTable()
    ensures |mem[page]| == 512 && forall i: nat :: i < 512 ==> Entry(mem, page, i) == 0
  {
  }

  lemma UpperOverZero(top: seq<nat>)
    requires |top| == 512
    ensures ZeroTable()[..0x100] + top[0x100..] == UpperOf(top)
  {
  }

  lemma ChildState(m: Machine, lv: map<nat, nat>, roots: set<nat>, parent: nat, m': Machine)
    requires MachineInv(m, lv, roots) && parent in roots && parent in m.mem
    requires PageTables.AllocPage(m).Fresh?
    requires var a := PageTables.AllocPage(m);
             m'.pool == a.m.pool && m'.early == a.m.early && parent in a.m.mem
                 && m'.mem == a.m.mem[a.page := UpperOf(a.m.mem[parent])]
    ensures NewChild(m, parent) == Fresh(m', PageTables.AllocPage(m).page)
  {
  }

  lemma NoChild(m: Machine, parent: nat)
    requires parent in m.mem
    ensures PageTables.AllocPage(m) == PagePanic ==> NewChild(m, parent) == PagePanic
  {
  }

  // Between two PDPTs the tables are sound and the root is still there.
  lemma ApertureReady(m: Machine, lv: map<nat, nat>, roots: set<nat>, root: nat, n: nat)
    requires MachineInv(m, lv, roots) && root in roots && n < 4
    requires forall i: nat :: 256 <= i < 260 ==> !Present(Entry(m.mem, root, i))
    requires ApertureSome(m, root, n).Ret?
    ensures var m1 := ApertureSome(m, root, n).m;
            && PoolInv(m1.pool) && root in m1.mem && |m1.mem[root]| == 512
            && (PageTables.AllocPage(m1).Fresh? ==> PageTables.AllocPage(m1).page !in m1.mem)
            && (PageTables.AllocPage(m1).Fresh? ==>
                  PageTables.AllocPage(m1).m.mem == m1.mem[PageTables.AllocPage(m1).page := ZeroTable()])
  {
    hide MachineInv, ApertureSome, Walk, Shape;
    ApertureKeeps(m, lv, roots, root, n);
    var m1 := ApertureSome(m, root, n).m;
    var lv1 :| ApertureOk(m, m1, lv1, roots, root, n);
    RootLevel(m1, lv1, roots, root);
    InvPool(m1, lv1, roots);
    if PageTables.AllocPage(m1).Fresh? {
      NextRoot(m1, lv1, roots);
    }
  }

  lemma ApertureGoesOn(m: Machine, root: nat, n: nat, m1: Machine, pdpt: nat, m2: Machine)
    requires n > 0 && ApertureSome(m, root, n - 1) == Ret(m1, 0)
    requires PageTables.AllocPage(m1).Fresh? && pdpt == PageTables.AllocPage(m1).page
    requires m2.pool == PageTables.AllocPage(m1).m.pool && m2.early == PageTables.AllocPage(m1).m.early
    requires m2.mem == Store(PageTables.AllocPage(m1).m.mem[pdpt := AperturePdpt(n - 1)], root, 256 + (n - 1),
                             Or(Or(TableAddr(pdpt), 1), 2))
    ensures ApertureSome(m, root, n) == Ret(m2, 0)
  {
    hide PageTables.AllocPage, AperturePdpt, Or, TableAddr, Store;
  }

  // Without a frame for a PDPT the kernel halts, and stays halted.
  lemma ApertureHalts(m: Machine, root: nat, n: nat)
    requires n > 0 && ApertureSome(m, root, n - 1).Ret?
    requires PageTables.AllocPage(ApertureSome(m, root, n - 1).m) == PagePanic
    ensures ApertureSome(m, root, n) == Panic
  {
  }

  lemma {:induction false} ApertureStops(m: Machine, root: nat, i: nat, n: nat)
    requires i <= n && ApertureSome(m, root, i) == Panic
    ensures ApertureSome(m, root, n) == Panic
    decreases n
  {
    if i == n {
    } else {
      ApertureStops(m, root, i, n - 1);
    }
  }

  lemma ApertureStart(m: Machine, root: nat)
    ensures ApertureSome(m, root, 0) == Ret(m, 0)
  {
  }

  lemma Indices(virt: nat)
    ensures Index(virt, 1) == Low48(virt) / 0x1000 % 512
    ensures Index(virt, 2) == Low48(virt) / 0x20_0000 % 512
    ensures Index(virt, 3) == Low48(virt) / 0x4000_0000 % 512
    ensures Index(virt, 4) == Low48(virt) / 0x80_0000_0000 % 512
  {
  }

  // The table an entry on the way down leads to is there and has 512 entries.
  lemma NextDown(m: Machine, lv: map<nat, nat>, roots: set<nat>, t: nat, level: nat, virt: nat)
    requires MachineInv(m, lv, roots) && t in m.mem && t in lv && lv[t] == level && 2 <= level <= 4
    requires var e := Entry(m.mem, t, Index(virt, level)); Present(e) && !(level < 4 && LargePage(e))
    ensures var c := TableAddr(Entry(m.mem, t, Index(virt, level)));
            c in m.mem && c in lv && lv[c] == level - 1 && |m.mem[c]| == 512
  {
    SoundChild(m, lv, roots, t, Index(virt, level));
    TableSize(m, lv, roots, TableAddr(Entry(m.mem, t, Index(virt, level))));
  }

  // After an error the rest of the range is left alone.
  lemma {:induction false} UnmapStops(mem: Mem, root: nat, virt: nat, page: nat, n: nat)
    requires page <= n && UnmapSome(mem, root, virt, page).code < 0
    ensures UnmapSome(mem, root, virt, n) == UnmapSome(mem, root, virt, page)
    decreases n
  {
    if page == n {
    } else {
      UnmapStops(mem, root, virt, page, n - 1);
    }
  }

  lemma TableSize(m: Machine, lv: map<nat, nat>, roots: set<nat>, t: nat)
    requires MachineInv(m, lv, roots) && t in m.mem
    ensures t in lv && |m.mem[t]| == 512 && t !in PoolFree(m.pool) && PoolInv(m.pool)
  {
  }

  lemma IndexOne(virt: nat)
    ensures Index(virt, 1) == Low48(virt) / 0x1000 % 512 < 512
  {
  }

  lemma FillDone(m: Machine, t: nat, virt: nat)
    ensures Fill(m, t, 1, virt) == Filled(m, t)
  {
  }

  lemma FillMissing(m: Machine, t: nat, level: nat, virt: nat)
    requires 2 <= level <= 4 && !Present(Entry(m.mem, t, Index(virt, level)))
    ensures PageTables.AllocPage(m).PagePanic? ==> Fill(m, t, level, virt) == FillPanic
  {
  }

  lemma FillLarge(m: Machine, t: nat, level: nat, virt: nat)
    requires 2 <= level <= 3
    requires Present(Entry(m.mem, t, Index(virt, level))) && LargePage(Entry(m.mem, t, Index(virt, level)))
    ensures Fill(m, t, level, virt) == FillErr(m, if level == 3 then ERR_LARGE_1G else ERR_LARGE_2M)
  {
  }

  lemma FillPresent(m: Machine, lv: map<nat, nat>, roots: set<nat>, t: nat, level: nat, virt: nat)
    requires MachineInv(m, lv, roots) && t in m.mem && t in lv && lv[t] == level && 2 <= level <= 4
    requires var e := Entry(m.mem, t, Index(virt, level)); Present(e) && !(level < 4 && LargePage(e))
    ensures var c := TableAddr(Entry(m.mem, t, Index(virt, level)));
            && Fill(m, t, level, virt) == Fill(m, c, level - 1, virt)
            && c in m.mem && c in lv && lv[c] == level - 1
  {
    SoundChild(m, lv, roots, t, Index(virt, level));
  }

  // The table a freshly allocated entry leads to.
  lemma NextTable(m: Machine, lv: map<nat, nat>, roots: set<nat>, t: nat, virt: nat)
    requires MachineInv(m, lv, roots) && t in m.mem && t in lv && 2 <= lv[t] <= 4
    requires !Present(Entry(m.mem, t, Index(virt, lv[t]))) && PageTables.AllocPage(m).Fresh?
    ensures var page := PageTables.AllocPage(m).page;
            var entry := LinkEntry(page, virt);
            var m1 := PageTables.AllocPage(m).m;
            var m' := m1.(mem := Store(m1.mem, t, Index(virt, lv[t]), entry));
            && page != 0 && TableAddr(entry) == page
            && MachineInv(m', lv[page := lv[t] - 1], roots) && page in m'.mem
            && Fill(m, t, lv[t], virt) == Fill(m', page, lv[t] - 1, virt)
  {
    hide MachineInv, Added, Fill, LinkEntry, TableAddr, PoolFree, PoolAlloc;
    var page := PageTables.AllocPage(m).page;
    LinkStep(m, lv, roots, t, virt, page);
    FillAllocates(m, t, lv[t], virt, page);
    LinkedIn(m, t, Index(virt, lv[t]), page, LinkEntry(page, virt));
  }

  lemma LinkedIn(m: Machine, t: nat, i: nat, page: nat, entry: nat)
    requires t in m.mem && i < 512
    ensures page in LinkAt(m, page, t, i, entry).mem
  {
  }

  lemma OneFrame(ps: PoolState, was: seq<nat>)
    requires PoolInv(ps) && |was| == 1
    ensures |Stored(ps, 1, was)| == 1
    ensures PoolServed(ps, 1) == if PoolFree(ps) == [] then 0 else 1
    ensures PoolFree(ps) != [] ==> Stored(ps, 1, was)[0] == PoolFree(ps)[0]
  {
    PoolFreePages(ps);
    BufferNamesTaken(ps, 1, was);
    OneFits(ps);
    if PoolFree(ps) != [] {
      assert Stored(ps, 1, was)[..1][0] == PoolFree(ps)[..1][0];
    }
  }

  // A request for one page never needs a second region.
  lemma {:induction false} OneFits(ps: PoolState)
    ensures OneRegion(ps, 1)
  {
    if ps == [] {
    } else {
      OneFits(ps[1..]);
    }
  }
}

// What the operations of PageTable.cpp do to the paging structures and the frame pool, as functions,
// with the proof that each keeps the shape invariant and changes only the translations it is meant to.
module PageTables {
  import opened PhysicalMap
  import opened PageEntries
  import opened PageWalk
  import opened FreeBits
  import opened Pools

  // The memory the page tables live in: paging structures and the pool their frames come from.
  // In early boot, before the kernel's own map is active, only memory below 4 GB can be reached.
  datatype Machine = Machine(mem: Mem, pool: PoolState, early: bool)

  // Frames from here on cannot be reached.
  function Reach(early: bool): (r: nat)
    ensures r <= APERTURE_LENGTH - PAGE
  {
    if early then EARLY_LIMIT else APERTURE_LENGTH - PAGE
  }

  // A failed REQUIRE halts the kernel.
  datatype PageStep = PagePanic | Fresh(m: Machine, page: nat)
  datatype FillStep = FillPanic | FillErr(m: Machine, code: int) | Filled(m: Machine, table: nat)
  datatype Step = Panic | Ret(m: Machine, code: int)

  const ERR_NOT_CANONICAL := -1000
  const ERR_NO_PAGE := -1001
  const ERR_LARGE_1G := -1002
  const ERR_LARGE_2M := -1003

  ghost predicate MachineInv(m: Machine, lv: map<nat, nat>, roots: set<nat>) {
    && Shape(m.mem, lv, roots) && OpenLinks(m.mem, lv)
    && PoolInv(m.pool)
    && (forall t :: t in m.mem ==> IsPoolPage(m.pool, t) && t !in PoolFree(m.pool) && t < Reach(m.early))
  }

  // AllocPage: one frame from the pool, zeroed. Frames that cannot be reached halt the kernel.
  function AllocPage(m: Machine): PageStep {
    if PoolFree(m.pool) == [] then PagePanic
    else
      var page := PoolFree(m.pool)[0];
      if page >= Reach(m.early) then PagePanic
      else Fresh(m.(mem := m.mem[page := ZeroTable()], pool := PoolAlloc(m.pool, 1)), page)
  }

  // Descend from a table to the level-1 table for virt, allocating the tables that are missing.
  function Fill(m: Machine, table: nat, level: nat, virt: nat): FillStep
    requires 1 <= level <= 4
    decreases level
  {
    if level == 1 then Filled(m, table)
    else
      var e := Entry(m.mem, table, Index(virt, level));
      if !Present(e) then
        match AllocPage(m)
        case PagePanic => FillPanic
        case Fresh(m1, page) =>
          if page == 0 then FillErr(m1, ERR_NO_PAGE)
          else
            var entry := LinkEntry(page, virt);
            Fill(m1.(mem := Store(m1.mem, table, Index(virt, level), entry)), TableAddr(entry), level - 1, virt)
      else if level < 4 && LargePage(e) then FillErr(m, if level == 3 then ERR_LARGE_1G else ERR_LARGE_2M)
      else Fill(m, TableAddr(e), level - 1, virt)
  }

  // WriteTable; a frame that is no paging structure is never written.
  function Store(mem: Mem, table: nat, i: nat, e: nat): Mem {
    if table in mem && i < |mem[table]| then Write(mem, table, i, e) else mem
  }

  function MapPage(m: Machine, root: nat, phys: nat, virt: nat, mode: Mode): Step {
    if !Canonical(virt) then Ret(m, ERR_NOT_CANONICAL)
    else
      match Fill(m, root, 4, virt)
      case FillPanic => Panic
      case FillErr(m1, code) => Ret(m1, code)
      case Filled(m1, pt) => Ret(m1.(mem := Store(m1.mem, pt, Index(virt, 1), LeafEntry(phys, mode))), 0)
  }

  // The frames handed to paging structures between two states.
  ghost predicate Grew(m: Machine, m': Machine) {
    exists n :: GrewBy(m, m', n)
  }

  ghost predicate GrewBy(m: Machine, m': Machine, n: nat) {
    && n <= |PoolFree(m.pool)| && m'.early == m.early
    && PoolFree(m'.pool) == PoolFree(m.pool)[n..]
    && m'.mem.Keys == m.mem.Keys + Elements(PoolFree(m.pool)[..n])
    && |m'.pool| == |m.pool| && (forall i :: 0 <= i < |m.pool| ==> m'.pool[i].g == m.pool[i].g)
  }

  // Present entries stay as they are: operations only add to the structures.
  ghost predicate Extends(mem: Mem, mem': Mem) {
    forall t, i: nat :: t in mem && i < |mem[t]| && Present(Entry(mem, t, i)) ==>
        t in mem' && Entry(mem', t, i) == Entry(mem, t, i)
  }

  // No root but t is written.
  ghost predicate OthersSame(mem: Mem, mem': Mem, roots: set<nat>, t: nat) {
    forall s :: s in roots && s != t && s in mem ==> s in mem' && mem'[s] == mem[s]
  }

  // Every entry present after and absent before, entry i of table `leaf` aside, is a link the walk of virt
  // may use in full: present, writable, and user accessible exactly below the split.
  ghost predicate NewLinks(mem: Mem, mem': Mem, virt: nat, leaf: Place, i: nat) {
    forall t, j: nat :: Present(Entry(mem', t, j)) && !Present(Entry(mem, t, j)) && !(At(t) == leaf && j == i) ==>
        Entry(mem', t, j) % 0x1000 == if virt < 0x8000_0000_0000_0000 then 7 else 3
  }

  ghost predicate SameWalks(mem: Mem, mem': Mem, roots: set<nat>) {
    forall r, v :: r in roots ==> Walk(mem', r, v) == Walk(mem, r, v)
  }

  // ----- linking a fresh table -----

  lemma {:induction false} LinkWalk(mem: Mem, lv: map<nat, nat>, roots: set<nat>, t: nat, level: nat, v: nat,
                                    at: nat, i: nat, page: nat, e: nat)
    requires Shape(mem, lv, roots) && t in mem && lv[t] == level
    requires at in mem && i < 512 && !Present(Entry(mem, at, i)) && lv[at] >= 2
    requires page !in mem && TableAddr(e) == page && Links(e, lv[at])
    ensures WalkFrom(Write(mem[page := ZeroTable()], at, i, e), t, level, v) == WalkFrom(mem, t, level, v)
    decreases level
  {
    var mem' := Write(mem[page := ZeroTable()], at, i, e);
    var j := Index(v, level);
    if t == at && j == i {
      assert Entry(mem', t, j) == e;
      assert Entry(mem', page, Index(v, level - 1)) == 0;
    } else {
      assert Entry(mem', t, j) == Entry(mem, t, j);
      if Links(Entry(mem, t, j), level) {
        LinkedChild(mem, lv, roots, t, j);
        LinkWalk(mem, lv, roots, TableAddr(Entry(mem, t, j)), level - 1, v, at, i, page, e);
      }
    }
  }

  // A table with no links of its own, to be hung below level `level`.
  ghost predicate LeafTable(table: seq<nat>, level: nat) {
    |table| == 512 && forall j :: 0 <= j < 512 ==> !Links(table[j], level)
  }

  lemma LinkChildren(mem: Mem, lv: map<nat, nat>, roots: set<nat>, at: nat, i: nat, page: nat, table: seq<nat>, e: nat,
                     t: nat, j: nat, c: nat)
    requires Shape(mem, lv, roots)
    requires at in mem && i < 512 && !Present(Entry(mem, at, i)) && lv[at] >= 2
    requires page !in mem && LeafTable(table, lv[at] - 1) && TableAddr(e) == page && Links(e, lv[at])
    ensures Child(Write(mem[page := table], at, i, e), lv[page := lv[at] - 1], t, j, c) <==>
            Child(mem, lv, t, j, c) || (t == at && j == i && c == page)
    ensures Child(mem, lv, t, j, c) ==> t in mem
  {
  }

  lemma LinkTables(mem: Mem, lv: map<nat, nat>, roots: set<nat>, at: nat, i: nat, page: nat, table: seq<nat>, e: nat)
    requires Shape(mem, lv, roots) && |table| == 512
    requires at in mem && i < 512 && lv[at] >= 2 && page !in mem
    requires page % PAGE == 0 && 0 < page < APERTURE_LENGTH - PAGE
    ensures var mem' := Write(mem[page := table], at, i, e);
            var lv' := lv[page := lv[at] - 1];
            && lv'.Keys == mem'.Keys && mem'.Keys == mem.Keys + {page}
            && forall t :: t in mem' ==> |mem'[t]| == 512 && 1 <= lv'[t] <= 4 && (t in roots <==> lv'[t] == 4)
  {
    hide Child;
  }

  // Hanging a fresh table without links below a free entry keeps the shape.
  lemma LinkShape(mem: Mem, lv: map<nat, nat>, roots: set<nat>, at: nat, i: nat, page: nat, table: seq<nat>, e: nat)
    requires Shape(mem, lv, roots)
    requires at in mem && i < 512 && !Present(Entry(mem, at, i)) && lv[at] >= 2
    requires page !in mem && LeafTable(table, lv[at] - 1) && TableAddr(e) == page && Links(e, lv[at])
    requires page % PAGE == 0 && 0 < page < APERTURE_LENGTH - PAGE
    ensures Shape(Write(mem[page := table], at, i, e), lv[page := lv[at] - 1], roots)
  {
    hide Child, Links, Present, TableAddr, Entry;
    LinkTables(mem, lv, roots, at, i, page, table, e);
    var mem' := Write(mem[page := table], at, i, e);
    var lv' := lv[page := lv[at] - 1];
    forall t: nat, j: nat, c: nat
      ensures Child(mem', lv', t, j, c) <==> Child(mem, lv, t, j, c) || (t == at && j == i && c == page)
      ensures Child(mem, lv, t, j, c) ==> t in mem
    {
      LinkChildren(mem, lv, roots, at, i, page, table, e, t, j, c);
    }
    forall c | c in mem' && c !in roots
      ensures exists t, j :: Child(mem', lv', t, j, c)
    {
      if c == page {
        assert Child(mem', lv', at, i, c);
      } else {
        var t, j :| Child(mem, lv, t, j, c);
        assert Child(mem', lv', t, j, c);
      }
    }
  }

  // The pool's next frame is a fresh page-aligned frame of one of its regions.
  lemma NextFrame(m: Machine, lv: map<nat, nat>, roots: set<nat>)
    requires MachineInv(m, lv, roots) && PoolFree(m.pool) != []
    ensures var page := PoolFree(m.pool)[0];
            && page !in m.mem && page !in roots && page % PAGE == 0 && page > 0 && IsPoolPage(m.pool, page)
            && PoolInv(PoolAlloc(m.pool, 1)) && PoolFree(PoolAlloc(m.pool, 1)) == PoolFree(m.pool)[1..]
            && (forall i :: 0 <= i < |m.pool| ==> PoolAlloc(m.pool, 1)[i].g == m.pool[i].g)
            && page !in PoolFree(PoolAlloc(m.pool, 1))
            && (forall t :: IsPoolPage(m.pool, t) <==> IsPoolPage(PoolAlloc(m.pool, 1), t))
  {
    var page := PoolFree(m.pool)[0];
    assert page in PoolFree(m.pool);
    PoolFreePages(m.pool);
    PoolAllocTakesPrefix(m.pool, 1);
    TakenFromPool(m.pool, 1);
    assert page in PoolFree(m.pool)[..1];
  }

  // The state after a fresh table has been linked at one entry.
  function LinkAt(m: Machine, page: nat, t: nat, i: nat, entry: nat): Machine {
    m.(mem := Store(m.mem[page := ZeroTable()], t, i, entry), pool := PoolAlloc(m.pool, 1))
  }

  lemma LinkWalks(mem: Mem, lv: map<nat, nat>, roots: set<nat>, t: nat, i: nat, page: nat, entry: nat)
    requires Shape(mem, lv, roots) && t in mem && lv[t] >= 2 && i < 512
    requires !Present(Entry(mem, t, i)) && page !in mem
    requires TableAddr(entry) == page && Links(entry, lv[t])
    ensures SameWalks(mem, Write(mem[page := ZeroTable()], t, i, entry), roots)
    ensures Extends(mem, Write(mem[page := ZeroTable()], t, i, entry))
  {
    forall r, v | r in roots
      ensures Walk(Write(mem[page := ZeroTable()], t, i, entry), r, v) == Walk(mem, r, v)
    {
      LinkWalk(mem, lv, roots, r, 4, v, t, i, page, entry);
    }
  }

  // Frame ownership after the pool's next frame has become a table.
  lemma TakesFrame(m: Machine, lv: map<nat, nat>, roots: set<nat>, mem: Mem, lv': map<nat, nat>, roots': set<nat>)
    requires MachineInv(m, lv, roots) && PoolFree(m.pool) != [] && PoolFree(m.pool)[0] < Reach(m.early)
    requires Shape(mem, lv', roots') && OpenLinks(mem, lv') && mem.Keys == m.mem.Keys + {PoolFree(m.pool)[0]}
    ensures MachineInv(m.(mem := mem, pool := PoolAlloc(m.pool, 1)), lv', roots')
  {
    hide Shape, OpenLinks, PoolInv, PoolFree, PoolAlloc, IsPoolPage;
    NextFrame(m, lv, roots);
  }

  lemma LinkInv(m: Machine, lv: map<nat, nat>, roots: set<nat>, t: nat, i: nat, page: nat, entry: nat)
    requires MachineInv(m, lv, roots) && t in m.mem && lv[t] >= 2 && i < 512
    requires !Present(Entry(m.mem, t, i))
    requires PoolFree(m.pool) != [] && page == PoolFree(m.pool)[0] && page < Reach(m.early)
    requires TableAddr(entry) == page && Links(entry, lv[t]) && (entry / 2) % 2 == 1
    ensures MachineInv(LinkAt(m, page, t, i, entry), lv[page := lv[t] - 1], roots)
  {
    hide MachineInv, OpenLinks, Shape, Links, LeafTable, Present, TableAddr;
    SoundShape(m, lv, roots);
    TableFacts(m, lv, roots, t);
    NextFrame(m, lv, roots);
    ZeroLeaf(lv[t] - 1);
    LinkShape(m.mem, lv, roots, t, i, page, ZeroTable(), entry);
    LinkOpen(m.mem, lv, t, i, page, ZeroTable(), entry);
    TakesFrame(m, lv, roots, Write(m.mem[page := ZeroTable()], t, i, entry), lv[page := lv[t] - 1], roots);
  }

  lemma ZeroLeaf(level: nat)
    ensures LeafTable(ZeroTable(), level)
  {
  }

  // A writable link to a table without links keeps the links open.
  lemma LinkOpen(mem: Mem, lv: map<nat, nat>, t: nat, i: nat, page: nat, table: seq<nat>, entry: nat)
    requires OpenLinks(mem, lv) && t in mem && t in lv && i < |mem[t]| && page !in mem && lv[t] >= 2
    requires LeafTable(table, lv[t] - 1) && (entry / 2) % 2 == 1
    ensures OpenLinks(Write(mem[page := table], t, i, entry), lv[page := lv[t] - 1])
  {
    hide Links;
    var mem' := Write(mem[page := table], t, i, entry);
    forall u, j: nat
      ensures Entry(mem', u, j) ==
              if u == t && j == i then entry
              else if u == page then Entry(mem[page := table], page, j) else Entry(mem, u, j)
    {
    }
    NoLinkAtZero(lv[t] - 1);
  }

  lemma NoLinkAtZero(level: nat)
    ensures !Links(0, level)
  {
  }

  lemma LinkGrew(m: Machine, t: nat, i: nat, page: nat, entry: nat)
    requires t in m.mem && i < |m.mem[t]| && page !in m.mem
    requires PoolFree(m.pool) != [] && page == PoolFree(m.pool)[0]
    requires PoolFree(PoolAlloc(m.pool, 1)) == PoolFree(m.pool)[1..]
    requires forall j :: 0 <= j < |m.pool| ==> PoolAlloc(m.pool, 1)[j].g == m.pool[j].g
    ensures GrewBy(m, LinkAt(m, page, t, i, entry), 1)
  {
  }

  // One round of Fill that has to allocate.
  lemma FillAllocates(m: Machine, t: nat, level: nat, virt: nat, page: nat)
    requires 2 <= level <= 4 && !Present(Entry(m.mem, t, Index(virt, level)))
    requires AllocPage(m).Fresh? && page == AllocPage(m).page && page != 0
    requires TableAddr(LinkEntry(page, virt)) == page
    ensures Fill(m, t, level, virt) ==
            Fill(LinkAt(m, page, t, Index(virt, level), LinkEntry(page, virt)), page, level - 1, virt)
  {
  }

  lemma LinkStep(m: Machine, lv: map<nat, nat>, roots: set<nat>, t: nat, virt: nat, page: nat)
    requires MachineInv(m, lv, roots) && t in m.mem && t in lv && 2 <= lv[t] <= 4
    requires !Present(Entry(m.mem, t, Index(virt, lv[t])))
    requires PoolFree(m.pool) != [] && page == PoolFree(m.pool)[0] && page < Reach(m.early)
    ensures var entry := LinkEntry(page, virt);
            var m' := LinkAt(m, page, t, Index(virt, lv[t]), entry);
            && MachineInv(m', lv[page := lv[t] - 1], roots)
            && Added(m, m', roots, page, t, Index(virt, lv[t]), lv[t])
            && NewLinks(m.mem, m'.mem, virt, NoTable, 0)
            && page != 0 && TableAddr(entry) == page
  {
    hide MachineInv, Shape, SameWalks, Extends, GrewBy, OthersSame, NewLinks, PoolFree, PoolAlloc;
    NextFrame(m, lv, roots);
    TableFacts(m, lv, roots, t);
    var i, entry := Index(virt, lv[t]), LinkEntry(page, virt);
    var m' := LinkAt(m, page, t, i, entry);
    LinkSpec(page, virt);
    LinkInv(m, lv, roots, t, i, page, entry);
    LinkGrew(m, t, i, page, entry);
    LinkWalks(m.mem, lv, roots, t, i, page, entry);
    LinkOthers(m.mem, roots, t, i, page, entry);
    LinkAdded(m, roots, t, i, page, entry, lv[t]);
    LinkIsNew(m.mem, t, i, page, virt);
  }

  lemma LinkIsNew(mem: Mem, t: nat, i: nat, page: nat, virt: nat)
    requires t in mem && i < |mem[t]| && page !in mem && page % PAGE == 0 && page < 0x8000_0000_0000_0000
    ensures NewLinks(mem, Write(mem[page := ZeroTable()], t, i, LinkEntry(page, virt)), virt, NoTable, 0)
  {
    hide LinkEntry;
    LinkSpec(page, virt);
  }

  lemma LinkAdded(m: Machine, roots: set<nat>, t: nat, i: nat, page: nat, entry: nat, level: nat)
    requires t in m.mem && i < |m.mem[t]| && page !in m.mem && page !in roots
    requires Links(entry, level) && TableAddr(entry) == page
    requires SameWalks(m.mem, Write(m.mem[page := ZeroTable()], t, i, entry), roots)
    requires Extends(m.mem, Write(m.mem[page := ZeroTable()], t, i, entry))
    requires OthersSame(m.mem, Write(m.mem[page := ZeroTable()], t, i, entry), roots, t)
    requires GrewBy(m, LinkAt(m, page, t, i, entry), 1)
    ensures Added(m, LinkAt(m, page, t, i, entry), roots, page, t, i, level)
  {
    hide SameWalks, Extends, GrewBy, OthersSame, PoolAlloc;
    var m' := LinkAt(m, page, t, i, entry);
    assert m'.mem == Write(m.mem[page := ZeroTable()], t, i, entry);
    assert AddedBy(m, m', roots, page, t, i, level, 1);
  }

  lemma TableFacts(m: Machine, lv: map<nat, nat>, roots: set<nat>, t: nat)
    requires MachineInv(m, lv, roots) && t in m.mem
    ensures Shape(m.mem, lv, roots) && t in lv && |m.mem[t]| == 512 && 1 <= lv[t] <= 4
  {
  }

  lemma RootLevel(m: Machine, lv: map<nat, nat>, roots: set<nat>, root: nat)
    requires MachineInv(m, lv, roots) && root in roots
    ensures root in m.mem && |m.mem[root]| == 512 && root in lv && lv[root] == 4
  {
  }

  lemma SoundShape(m: Machine, lv: map<nat, nat>, roots: set<nat>)
    requires MachineInv(m, lv, roots)
    ensures Shape(m.mem, lv, roots) && roots <= m.mem.Keys && OpenLinks(m.mem, lv)
  {
  }

  // A page mapped for writing can be written.
  lemma MayWrite(m: Machine, lv: map<nat, nat>, roots: set<nat>, root: nat, virt: nat)
    requires MachineInv(m, lv, roots) && root in roots
    requires var w := Walk(m.mem, root, virt); w.Mapped? && (w.mode.kernelWrite || w.mode.userWrite)
    ensures AllowsWrites(m.mem, root, 4, virt)
  {
    hide MachineInv, Shape, OpenLinks;
    SoundShape(m, lv, roots);
    RootLevel(m, lv, roots, root);
    WalkWrites(m.mem, lv, roots, root, 4, virt);
  }

  lemma InvPool(m: Machine, lv: map<nat, nat>, roots: set<nat>)
    requires MachineInv(m, lv, roots)
    ensures PoolInv(m.pool)
  {
  }

  // No entry is written but with zero.
  ghost predicate OnlyClears(mem: Mem, mem': Mem) {
    forall t, i: nat :: Entry(mem', t, i) == Entry(mem, t, i) || Entry(mem', t, i) == 0
  }

  // Clearing entries keeps the invariant when it keeps the shape.
  lemma KeepsInv(m: Machine, lv: map<nat, nat>, roots: set<nat>, mem: Mem)
    requires MachineInv(m, lv, roots) && Shape(mem, lv, roots) && mem.Keys == m.mem.Keys && OnlyClears(m.mem, mem)
    ensures MachineInv(m.(mem := mem), lv, roots)
  {
    hide Shape, OpenLinks, OnlyClears, PoolInv, PoolFree, IsPoolPage;
    SoundShape(m, lv, roots);
    ClearOpen(m.mem, mem, lv);
  }

  lemma ClearOpen(mem: Mem, mem': Mem, lv: map<nat, nat>)
    requires OpenLinks(mem, lv) && OnlyClears(mem, mem')
    ensures OpenLinks(mem', lv)
  {
    hide Links;
    forall level: nat
      ensures !Links(0, level)
    {
      NoLinkAtZero(level);
    }
  }

  // An entry that is no link may be written.
  lemma WriteOpen(mem: Mem, lv: map<nat, nat>, at: nat, i: nat, e: nat)
    requires OpenLinks(mem, lv) && at in mem && at in lv && i < |mem[at]| && !Links(e, lv[at])
    ensures OpenLinks(Write(mem, at, i, e), lv)
  {
    hide Links;
    var mem' := Write(mem, at, i, e);
    forall u, j: nat
      ensures Entry(mem', u, j) == if u == at && j == i then e else Entry(mem, u, j)
    {
    }
  }

  // A new root may hold what another one holds.
  lemma RootOpen(mem: Mem, lv: map<nat, nat>, page: nat, table: seq<nat>, parent: nat)
    requires OpenLinks(mem, lv) && page !in mem && parent in lv && lv[parent] == 4
    requires forall i :: 0 <= i < |table| ==> table[i] == 0 || table[i] == Entry(mem, parent, i)
    ensures OpenLinks(mem[page := table], lv[page := 4])
  {
    hide Links;
    NoLinkAtZero(4);
    var mem' := mem[page := table];
    forall u, j: nat
      ensures Entry(mem', u, j) == if u == page then if j < |table| then table[j] else 0 else Entry(mem, u, j)
    {
    }
  }

  // An empty one goes with any.
  lemma EmptyOpen(mem: Mem, lv: map<nat, nat>, page: nat)
    requires OpenLinks(mem, lv) && page !in mem
    ensures OpenLinks(mem[page := ZeroTable()], lv[page := 4])
  {
    hide Links;
    NoLinkAtZero(4);
    var mem' := mem[page := ZeroTable()];
    forall u, j: nat
      ensures Entry(mem', u, j) == if u == page then 0 else Entry(mem, u, j)
    {
    }
  }

  lemma LinkOthers(mem: Mem, roots: set<nat>, t: nat, i: nat, page: nat, entry: nat)
    requires t in mem && i < |mem[t]| && page !in roots && page !in mem
    ensures OthersSame(mem, Write(mem[page := ZeroTable()], t, i, entry), roots, t)
  {
  }

  // A fresh empty table hangs off entry i of table t, and nothing that was present has changed.
  ghost predicate AddedBy(m: Machine, m': Machine, roots: set<nat>, page: nat, t: nat, i: nat, level: nat, n: nat) {
    && SameWalks(m.mem, m'.mem, roots) && Extends(m.mem, m'.mem) && GrewBy(m, m', n)
    && OthersSame(m.mem, m'.mem, roots, t)
    && page in m'.mem && page !in roots && m'.mem[page] == ZeroTable()
    && t in m'.mem && i < |m'.mem[t]|
    && Links(Entry(m'.mem, t, i), level) && TableAddr(Entry(m'.mem, t, i)) == page
  }

  ghost predicate Added(m: Machine, m': Machine, roots: set<nat>, page: nat, t: nat, i: nat, level: nat) {
    exists n :: AddedBy(m, m', roots, page, t, i, level, n)
  }

  lemma GrewTrans(a: Machine, b: Machine, c: Machine, n: nat)
    requires GrewBy(a, b, n) && Grew(b, c)
    ensures Grew(a, c)
  {
    var k: nat :| GrewBy(b, c, k);
    var free := PoolFree(a.pool);
    assert PoolFree(b.pool) == free[n..];
    assert |free[n..]| == |free| - n;
    TakeMore(free, n, k);
    assert GrewBy(a, c, n + k);
  }

  lemma GrewChain(a: Machine, b: Machine, c: Machine)
    requires Grew(a, b) && Grew(b, c)
    ensures Grew(a, c)
  {
    hide PoolFree;
    var n: nat :| GrewBy(a, b, n);
    GrewTrans(a, b, c, n);
  }

  lemma TakeMore(s: seq<nat>, n: nat, k: nat)
    requires n + k <= |s|
    ensures s[n..][k..] == s[n + k..]
    ensures Elements(s[..n + k]) == Elements(s[..n]) + Elements(s[n..][..k])
  {
  }

  // What Fill promises: it keeps the invariant and every translation and leads to the page table of
  // virt; it fails only when a larger page is in the way.
  ghost predicate FillOk(m: Machine, lv: map<nat, nat>, roots: set<nat>, t: nat, level: nat, virt: nat,
                         r: FillStep, lv': map<nat, nat>)
    requires 1 <= level <= 4
  {
    var was := WalkFrom(m.mem, t, level, virt);
    match r
    case FillPanic => true
    case FillErr(m', code) =>
      && m' == m && lv' == lv
      && was.Mapped? && 2 <= was.level <= 3
      && code == (if was.level == 3 then ERR_LARGE_1G else ERR_LARGE_2M)
    case Filled(m', pt) =>
      && MachineInv(m', lv', roots) && pt in m'.mem && lv'[pt] == 1
      && SameWalks(m.mem, m'.mem, roots) && Extends(m.mem, m'.mem) && Grew(m, m')
      && OthersSame(m.mem, m'.mem, roots, t) && NewLinks(m.mem, m'.mem, virt, NoTable, 0)
      && TableOn(m'.mem, t, level, virt, 1) == At(pt)
      && (was.Mapped? ==> was.level == 1)
  }

  ghost predicate FillFine(m: Machine, lv: map<nat, nat>, roots: set<nat>, t: nat, level: nat, virt: nat, r: FillStep)
    requires 1 <= level <= 4
  {
    exists lv' :: FillOk(m, lv, roots, t, level, virt, r, lv')
  }

  lemma FillAllocated(m: Machine, lv: map<nat, nat>, roots: set<nat>, t: nat, level: nat, virt: nat,
                      m2: Machine, page: nat, lv2: map<nat, nat>, r: FillStep)
    requires 2 <= level <= 4 && t in m.mem && !Present(Entry(m.mem, t, Index(virt, level)))
    requires Added(m, m2, roots, page, t, Index(virt, level), level)
    requires NewLinks(m.mem, m2.mem, virt, NoTable, 0)
    requires FillFine(m2, lv2, roots, page, level - 1, virt, r)
    ensures FillFine(m, lv, roots, t, level, virt, r)
  {
    var n: nat :| AddedBy(m, m2, roots, page, t, Index(virt, level), level, n);
    var lv' :| FillOk(m2, lv2, roots, page, level - 1, virt, r, lv');
    FreshNotLarge(m2, page, level - 1, virt);
    if r.Filled? {
      GrewTrans(m, m2, r.m, n);
      ExtendsTrans(m.mem, m2.mem, r.m.mem);
      assert Entry(r.m.mem, t, Index(virt, level)) == Entry(m2.mem, t, Index(virt, level));
      WalksTrans(m.mem, m2.mem, r.m.mem, roots);
      NewLinksTrans(m.mem, m2.mem, r.m.mem, virt, NoTable, 0);
      OthersTrans(m.mem, m2.mem, r.m.mem, roots, t, page);
    }
    assert FillOk(m, lv, roots, t, level, virt, r, lv');
  }

  lemma OthersTrans(a: Mem, b: Mem, c: Mem, roots: set<nat>, t: nat, u: nat)
    requires OthersSame(a, b, roots, t) && OthersSame(b, c, roots, u) && u !in roots
    ensures OthersSame(a, c, roots, t)
  {
  }

  lemma NewLinksTrans(a: Mem, b: Mem, c: Mem, virt: nat, leaf: Place, i: nat)
    requires Extends(a, b) && Extends(b, c) && NewLinks(a, b, virt, NoTable, 0) && NewLinks(b, c, virt, leaf, i)
    ensures NewLinks(a, c, virt, leaf, i)
  {
    forall t, j: nat | Present(Entry(c, t, j)) && !Present(Entry(a, t, j)) && !(At(t) == leaf && j == i)
      ensures Entry(c, t, j) % 0x1000 == if virt < 0x8000_0000_0000_0000 then 7 else 3
    {
      if Present(Entry(b, t, j)) {
        assert Entry(c, t, j) == Entry(b, t, j);
      }
    }
  }

  lemma WalksTrans(a: Mem, b: Mem, c: Mem, roots: set<nat>)
    requires SameWalks(a, b, roots) && SameWalks(b, c, roots)
    ensures SameWalks(a, c, roots)
  {
  }

  lemma ExtendsTrans(a: Mem, b: Mem, c: Mem)
    requires Extends(a, b) && Extends(b, c)
    ensures Extends(a, c)
  {
  }

  lemma FillLinked(m: Machine, lv: map<nat, nat>, roots: set<nat>, t: nat, level: nat, virt: nat, r: FillStep)
    requires 2 <= level <= 4 && t in m.mem && |m.mem[t]| == 512
    requires Links(Entry(m.mem, t, Index(virt, level)), level)
    requires FillFine(m, lv, roots, TableAddr(Entry(m.mem, t, Index(virt, level))), level - 1, virt, r)
    requires TableAddr(Entry(m.mem, t, Index(virt, level))) !in roots
    ensures FillFine(m, lv, roots, t, level, virt, r)
  {
    var lv' :| FillOk(m, lv, roots, TableAddr(Entry(m.mem, t, Index(virt, level))), level - 1, virt, r, lv');
    if r.Filled? {
      assert Entry(r.m.mem, t, Index(virt, level)) == Entry(m.mem, t, Index(virt, level));
      OthersWiden(m.mem, r.m.mem, roots, TableAddr(Entry(m.mem, t, Index(virt, level))), t);
    }
    hide OthersSame;
    assert FillOk(m, lv, roots, t, level, virt, r, lv');
  }

  lemma OthersWiden(a: Mem, b: Mem, roots: set<nat>, c: nat, t: nat)
    requires OthersSame(a, b, roots, c) && c !in roots
    ensures OthersSame(a, b, roots, t)
  {
  }

  lemma FillBlocked(m: Machine, lv: map<nat, nat>, roots: set<nat>, t: nat, level: nat, virt: nat)
    requires 2 <= level <= 3
    requires Present(Entry(m.mem, t, Index(virt, level))) && LargePage(Entry(m.mem, t, Index(virt, level)))
    ensures FillFine(m, lv, roots, t, level, virt, Fill(m, t, level, virt))
  {
    assert FillOk(m, lv, roots, t, level, virt, Fill(m, t, level, virt), lv);
  }

  lemma GrewNone(m: Machine)
    ensures Grew(m, m)
  {
    assert GrewBy(m, m, 0);
  }

  lemma FillAtTable(m: Machine, lv: map<nat, nat>, roots: set<nat>, t: nat, virt: nat)
    requires MachineInv(m, lv, roots) && t in m.mem && lv[t] == 1
    ensures FillFine(m, lv, roots, t, 1, virt, Filled(m, t))
  {
    GrewNone(m);
    hide MachineInv, Grew, Walk;
    assert FillOk(m, lv, roots, t, 1, virt, Filled(m, t), lv);
  }

  lemma FillPanics(m: Machine, lv: map<nat, nat>, roots: set<nat>, t: nat, level: nat, virt: nat)
    requires 1 <= level <= 4
    ensures FillFine(m, lv, roots, t, level, virt, FillPanic)
  {
    assert FillOk(m, lv, roots, t, level, virt, FillPanic, lv);
  }

  lemma SoundChild(m: Machine, lv: map<nat, nat>, roots: set<nat>, t: nat, i: nat)
    requires MachineInv(m, lv, roots) && t in m.mem && t in lv && i < 512
    requires Links(Entry(m.mem, t, i), lv[t])
    ensures var c := TableAddr(Entry(m.mem, t, i)); c in m.mem && c in lv && lv[c] == lv[t] - 1 && c !in roots
    ensures |m.mem[t]| == 512
  {
    LinkedChild(m.mem, lv, roots, t, i);
  }

  lemma {:induction false} FillKeeps(m: Machine, lv: map<nat, nat>, roots: set<nat>, t: nat, level: nat, virt: nat)
    requires MachineInv(m, lv, roots) && t in m.mem && t in lv && lv[t] == level && 1 <= level <= 4
    ensures FillFine(m, lv, roots, t, level, virt, Fill(m, t, level, virt))
    decreases level
  {
    hide MachineInv, FillOk;
    var i := Index(virt, level);
    var e := Entry(m.mem, t, i);
    if level == 1 {
      FillAtTable(m, lv, roots, t, virt);
    } else if !Present(e) {
      if AllocPage(m).Fresh? {
        var page := AllocPage(m).page;
        LinkStep(m, lv, roots, t, virt, page);
        FillAllocates(m, t, level, virt, page);
        var m2 := LinkAt(m, page, t, i, LinkEntry(page, virt));
        FillKeeps(m2, lv[page := level - 1], roots, page, level - 1, virt);
        FillAllocated(m, lv, roots, t, level, virt, m2, page, lv[page := level - 1], Fill(m2, page, level - 1, virt));
      } else {
        FillPanics(m, lv, roots, t, level, virt);
      }
    } else if level < 4 && LargePage(e) {
      FillBlocked(m, lv, roots, t, level, virt);
    } else {
      var c := TableAddr(e);
      SoundChild(m, lv, roots, t, i);
      FillKeeps(m, lv, roots, c, level - 1, virt);
      FillLinked(m, lv, roots, t, level, virt, Fill(m, c, level - 1, virt));
    }
  }

  // A fresh table maps nothing.
  lemma FreshNotLarge(m: Machine, page: nat, level: nat, virt: nat)
    requires page in m.mem && m.mem[page] == ZeroTable() && 1 <= level <= 4
    ensures WalkFrom(m.mem, page, level, virt) == Unmapped
  {
  }
}

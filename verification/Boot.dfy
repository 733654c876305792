// From raw memory segments to the first page table: the state every run of the page allocator starts from
// is one the kernel's own start-up code reaches.
module Boot {
  import opened Division
  import opened PhysicalMap
  import opened PageEntries
  import opened PageWalk
  import opened Regions
  import opened Pools
  import opened PageTables
  import opened PageMap
  import opened PageCreate
  import opened VirtualAlloc
  import opened VirtualAllocSteps
  import opened VirtualRuns
  import opened VirtualHalts

  // A segment of physical memory the loader reports, and what its first pages hold before the bitmap is
  // set up there.
  datatype Segment = Segment(base: nat, length: nat, found: seq<bool>)

  ghost predicate GoodSegment(g: Segment) {
    && PAGE_SIZE <= g.length && g.base % PAGE_SIZE == 0 && g.base + g.length <= 0x10_0000_0000_0000
    && |g.found| == ScanBits(Layout(g.base, g.length))
  }

  // At most sixteen segments of whole or partial pages, page aligned, none overlapping another.
  ghost predicate GoodSegments(gs: seq<Segment>) {
    && |gs| <= 16
    && (forall i :: 0 <= i < |gs| ==> GoodSegment(gs[i]))
    && (forall i, j :: 0 <= i < j < |gs| ==>
         gs[i].base + gs[i].length <= gs[j].base || gs[j].base + gs[j].length <= gs[i].base)
  }

  // Whole bitmap words: the segment's number of allocatable pages is a multiple of 64.
  predicate WholeWords(g: Segment)
    requires PAGE_SIZE <= g.length
  {
    Layout(g.base, g.length).bitmapSize % 64 == 0
  }

  // A region as its constructor leaves it, with the extent of the code or the one it was meant to have.
  function BuiltFrom(g: Segment, intended: bool): (s: RegionState)
    requires PAGE_SIZE <= g.length && |g.found| == ScanBits(Layout(g.base, g.length))
    ensures s.g.numPages == g.length / PAGE_SIZE && s.g.physBase == g.base && s.numAllocated == 0
    ensures s.g.bitmapSize == Layout(g.base, g.length).bitmapSize
    ensures s.g.span == if intended then s.g.numPages * PAGE_SIZE else s.g.numPages
  {
    var s := Built(g.base, g.length, g.found);
    if intended then s.(g := Intended(s.g)) else s
  }

  ghost function BuiltPool(gs: seq<Segment>, intended: bool): (ps: PoolState)
    requires GoodSegments(gs)
    ensures |ps| == |gs|
  {
    seq(|gs|, i requires 0 <= i < |gs| => BuiltFrom(gs[i], intended))
  }

  lemma BuiltFromSpec(g: Segment, intended: bool)
    requires GoodSegment(g)
    ensures var s := BuiltFrom(g, intended);
            && ValidState(s) && s.g.physBase + s.g.numPages * PAGE_SIZE <= g.base + g.length
            && (WholeWords(g) <==> TailClear(s)) && (TailClear(s) ==> Counted(s))
            && (intended ==> forall a :: IsPage(s.g, a) ==> Contains(s.g, a))
  {
    BuiltRegion(g.base, g.length, g.found);
    ContainedPages(g.base, g.length, 0);
    DivEquation(g.length, PAGE_SIZE);
    var s, t := BuiltFrom(g, intended), Built(g.base, g.length, g.found);
    assert s.bits == t.bits;
    forall a | intended && IsPage(s.g, a)
      ensures Contains(s.g, a)
    {
      assert IsPage(t.g, a);
    }
  }

  lemma {:induction false} NothingAllocated(ps: PoolState)
    requires forall i :: 0 <= i < |ps| ==> ps[i].numAllocated == 0
    ensures Allocated(ps) == 0
  {
    if ps == [] {
    } else {
      NothingAllocated(ps[1..]);
    }
  }

  // What the region built from segment i looks like from outside.
  ghost predicate BuiltAt(gs: seq<Segment>, intended: bool, ps: PoolState, i: nat)
    requires GoodSegments(gs) && |ps| == |gs| && i < |gs|
  {
    && ValidState(ps[i]) && ps[i].g.physBase == gs[i].base && ps[i].g.span <= ps[i].g.numPages * PAGE_SIZE
    && ps[i].g.physBase + ps[i].g.numPages * PAGE_SIZE <= gs[i].base + gs[i].length
    && (WholeWords(gs[i]) <==> TailClear(ps[i])) && (TailClear(ps[i]) ==> Counted(ps[i]))
    && ps[i].numAllocated == 0
    && (intended ==> forall a :: IsPage(ps[i].g, a) ==> Contains(ps[i].g, a))
  }

  lemma PoolBuilt(gs: seq<Segment>, intended: bool)
    requires GoodSegments(gs)
    ensures var ps := BuiltPool(gs, intended); forall i :: 0 <= i < |gs| ==> BuiltAt(gs, intended, ps, i)
  {
    var ps := BuiltPool(gs, intended);
    forall i | 0 <= i < |gs|
      ensures BuiltAt(gs, intended, ps, i)
    {
      BuiltFromSpec(gs[i], intended);
    }
  }

  // The pool built from good segments is sound exactly when every bitmap is made of whole words.
  lemma BuiltPoolSound(gs: seq<Segment>, intended: bool)
    requires GoodSegments(gs)
    ensures PoolInv(BuiltPool(gs, intended)) <==> forall g :: g in gs ==> WholeWords(g)
    ensures Allocated(BuiltPool(gs, intended)) == 0
  {
    hide BuiltPool, TailClear, Counted, ValidState, WholeWords, IsPage, Contains, ScanBits, Layout;
    PoolBuilt(gs, intended);
    var ps := BuiltPool(gs, intended);
    forall i | 0 <= i < |ps|
      ensures ValidState(ps[i]) && ps[i].g.physBase == gs[i].base && ps[i].g.span <= ps[i].g.numPages * PAGE_SIZE
      ensures ps[i].g.physBase + ps[i].g.numPages * PAGE_SIZE <= gs[i].base + gs[i].length
      ensures (WholeWords(gs[i]) <==> TailClear(ps[i]))
      ensures (TailClear(ps[i]) ==> Counted(ps[i])) && ps[i].numAllocated == 0
    {
      assert BuiltAt(gs, intended, ps, i);
    }
    NothingAllocated(ps);
    if PoolInv(ps) {
      forall g | g in gs
        ensures WholeWords(g)
      {
        var i: nat :| i < |gs| && gs[i] == g;
        assert TailClear(ps[i]);
      }
    }
  }

  lemma BuiltPoolPages(gs: seq<Segment>, intended: bool)
    requires GoodSegments(gs)
    ensures PhysicalBound(BuiltPool(gs, intended))
    ensures intended ==> AllContained(BuiltPool(gs, intended))
  {
    hide BuiltPool, TailClear, Counted, ValidState, WholeWords, IsPage, Contains, ScanBits, Layout;
    PoolBuilt(gs, intended);
    var ps := BuiltPool(gs, intended);
    forall a: nat | IsPoolPage(ps, a)
      ensures a + PAGE <= 0x10_0000_0000_0000
      ensures intended ==> PoolContains(ps, a)
    {
      var i: nat :| i < |ps| && IsPage(ps[i].g, a);
      assert BuiltAt(gs, intended, ps, i);
      SegmentPage(ps[i], a);
    }
  }

  lemma SegmentPage(s: RegionState, a: nat)
    requires ValidState(s) && IsPage(s.g, a)
    ensures a + PAGE_SIZE <= s.g.physBase + s.g.numPages * PAGE_SIZE
  {
    PageBounds(s.g, a);
  }

  // ----- the first page table -----

  // The machine after the kernel's first page table has been set up over a pool, with its root.
  predicate FirstMachine(ps: PoolState, root: nat, m: Machine) {
    FirstTable(Machine(map[], ps, true)) == Fresh(m, root)
  }

  // What the kernel does in early boot with the segments: every bitmap and every frame of the first page table must
  // be reachable.
  ghost function StartUp(gs: seq<Segment>, intended: bool): PageStep
    requires GoodSegments(gs)
  {
    if forall g :: g in gs ==> Mappable(g.base, true) then FirstTable(Machine(map[], BuiltPool(gs, intended), true))
    else PagePanic
  }

  lemma StartedOver(gs: seq<Segment>, intended: bool, root: nat, m: Machine)
    requires GoodSegments(gs) && StartUp(gs, intended) == Fresh(m, root)
    ensures FirstMachine(BuiltPool(gs, intended), root, m)
  {
  }

  // The aperture takes one frame for each of its PDPTs, and halts exactly when these are not to be had.
  lemma {:induction false} ApertureHaltsExact(m: Machine, lv: map<nat, nat>, roots: set<nat>, root: nat, n: nat)
    requires MachineInv(m, lv, roots) && root in roots && n <= 4
    requires forall i: nat :: 256 <= i < 260 ==> !Present(Entry(m.mem, root, i))
    ensures ApertureSome(m, root, n) == Panic <==> !Usable(m.pool, m.early, n)
    ensures ApertureSome(m, root, n).Ret? ==>
              var m' := ApertureSome(m, root, n).m;
              n <= |PoolFree(m.pool)| && PoolFree(m'.pool) == PoolFree(m.pool)[n..] && m'.early == m.early
  {
    hide MachineInv, PoolFree, PoolAlloc, Walk, Index, ApertureLeaf, AperturePdpt, Or, TableAddr;
    if n == 0 {
      NoneUsable(m.pool, m.early);
      assert PoolFree(m.pool)[0..] == PoolFree(m.pool);
    } else {
      ApertureHaltsExact(m, lv, roots, root, n - 1);
      UsableSnoc(m.pool, m.early, n);
      var before := ApertureSome(m, root, n - 1);
      if before.Ret? {
        ApertureKeeps(m, lv, roots, root, n - 1);
        var lv1 :| ApertureOk(m, before.m, lv1, roots, root, n - 1);
        if PoolFree(before.m.pool) != [] {
          NextFrame(before.m, lv1, roots);
        }
      }
    }
  }

  lemma UsableSnoc(ps: PoolState, early: bool, n: nat)
    requires n > 0
    ensures Usable(ps, early, n) <==>
              Usable(ps, early, n - 1) && n <= |PoolFree(ps)| && PoolFree(ps)[n - 1] < Reach(early)
  {
  }

  // Start-up halts exactly when a segment starts at 4 GB or above, or the pool's first five frames are too few or
  // reach that far.
  lemma StartHaltsExact(gs: seq<Segment>, intended: bool)
    requires GoodSegments(gs) && forall g :: g in gs ==> WholeWords(g)
    ensures StartUp(gs, intended) == PagePanic <==>
              (exists g :: g in gs && g.base >= 0x1_0000_0000) || !Usable(BuiltPool(gs, intended), true, 5)
  {
    hide GoodSegments, WholeWords, BuiltPool, MachineInv, PoolInv, PoolFree, PoolAlloc, Walk, Index, ApertureSome,
      AllocPage;
    var ps := BuiltPool(gs, intended);
    var m0 := Machine(map[], ps, true);
    BuiltPoolSound(gs, intended);
    NoTables(ps);
    AllocExact(m0);
    FewerUsable(ps, true, 5);
    if AllocPage(m0).Fresh? {
      var root, m1 := AllocPage(m0).page, AllocPage(m0).m;
      EmptyMachine(ps, root);
      NextFrame(m0, map[], {});
      NextRoot(m0, map[], {});
      ApertureHaltsExact(m1, map[root := 4], {root}, root, APERTURE_PDPTS);
      UsableNext(ps, m1.pool, true, 4);
    }
  }

  // The page allocator right after Init.
  ghost function Started(m: Machine, advances: bool): Vm {
    Vm(m, VALLOC_START, 0, map[], [], (set a | a in PoolPages(m.pool) && a !in PoolFree(m.pool) && a !in m.mem),
        advances)
  }

  // Taking a frame for a table counts it once on each side.
  lemma AllocCounts(m: Machine, lv: map<nat, nat>, roots: set<nat>)
    requires MachineInv(m, lv, roots) && AllocPage(m).Fresh?
    ensures var r := AllocPage(m);
            && r.page !in m.mem && |r.m.mem| == |m.mem| + 1 && Allocated(r.m.pool) == Allocated(m.pool) + 1
            && SameRegions(m.pool, r.m.pool)
  {
    NextRoot(m, lv, roots);
    PoolAllocTakesPrefix(m.pool, 1);
  }

  lemma {:induction false} ApertureCounts(m: Machine, lv: map<nat, nat>, roots: set<nat>, root: nat, n: nat)
    requires MachineInv(m, lv, roots) && root in roots && n <= 4
    requires forall i: nat :: 256 <= i < 260 ==> !Present(Entry(m.mem, root, i))
    requires ApertureSome(m, root, n).Ret?
    ensures var m' := ApertureSome(m, root, n).m;
            && Allocated(m'.pool) - |m'.mem| == Allocated(m.pool) - |m.mem|
            && SameRegions(m.pool, m'.pool)
  {
    hide MachineInv, AllocPage, SameRegions, Allocated, Index, Walk, ApertureLeaf;
    if n == 0 {
      RegionsTrans(m.pool, m.pool, m.pool);
    } else {
      ApertureUnfold(m, root, n);
      ApertureCounts(m, lv, roots, root, n - 1);
      ApertureKeeps(m, lv, roots, root, n - 1);
      var m1 := ApertureSome(m, root, n - 1).m;
      var lv1 :| ApertureOk(m, m1, lv1, roots, root, n - 1);
      AllocCounts(m1, lv1, roots);
      NextRoot(m1, lv1, roots);
      RootLength(m1, lv1, roots, root);
      RegionsTrans(m.pool, m1.pool, AllocPage(m1).m.pool);
    }
  }

  // The first page table over an empty machine.
  lemma FirstTableInv(ps: PoolState, root: nat, m: Machine)
    requires PoolInv(ps) && FirstMachine(ps, root, m)
    ensures exists lv :: MachineInv(m, lv, {root})
    ensures Allocated(m.pool) - |m.mem| == Allocated(ps) && SameRegions(ps, m.pool)
    ensures forall v :: Walk(m.mem, root, v) == if 256 <= Index(v, 4) < 260 then ApertureLeaf(v) else Unmapped
  {
    var m0 := Machine(map[], ps, true);
    var m1 := AllocPage(m0).m;
    EmptyMachine(ps, root);
    hide FirstMachine, MachineInv, AllocPage, PoolInv, SameRegions, Allocated, Index, ApertureLeaf, Walk, PoolFree,
      PoolAlloc, ApertureSome, ZeroTable;
    var lv1: map<nat, nat> := map[root := 4];
    FirstAperture(ps, root, m);
    ApertureCounts(m1, lv1, {root}, root, 4);
    ApertureKeeps(m1, lv1, {root}, root, 4);
    RegionsTrans(ps, m1.pool, m.pool);
    var lv :| ApertureOk(m1, m, lv, {root}, root, 4);
  }

  lemma FirstAperture(ps: PoolState, root: nat, m: Machine)
    requires FirstMachine(ps, root, m)
    ensures AllocPage(Machine(map[], ps, true)).Fresh?
    ensures ApertureSome(AllocPage(Machine(map[], ps, true)).m, root, 4) == Ret(m, 0)
  {
  }

  // The first table's root before anything is entered in it.
  lemma EmptyMachine(ps: PoolState, root: nat)
    requires PoolInv(ps)
    requires AllocPage(Machine(map[], ps, true)).Fresh? && AllocPage(Machine(map[], ps, true)).page == root
    ensures var m := AllocPage(Machine(map[], ps, true)).m;
            && MachineInv(m, map[root := 4], {root})
            && (forall i: nat :: 256 <= i < 260 ==> !Present(Entry(m.mem, root, i)))
            && (forall v :: Walk(m.mem, root, v) == Unmapped)
            && Allocated(m.pool) - |m.mem| == Allocated(ps) && SameRegions(ps, m.pool)
  {
    var m0 := Machine(map[], ps, true);
    NoTables(ps);
    hide MachineInv, PoolInv, SameRegions, Allocated, Index, Walk, PoolFree, PoolAlloc;
    AllocCounts(m0, map[], {});
    EmptyRootInv(m0, map[], {});
    NextRoot(m0, map[], {});
    assert map[][root := 4] == map[root := 4] && {} + {root} == {root};
    assert m0.mem[root := ZeroTable()] == map[root := ZeroTable()];
    EmptyWalks(root);
  }

  lemma NoTables(ps: PoolState)
    requires PoolInv(ps)
    ensures MachineInv(Machine(map[], ps, true), map[], {})
  {
    hide PoolInv;
  }

  lemma EmptyWalks(root: nat)
    ensures forall i: nat :: !Present(Entry(map[root := ZeroTable()], root, i))
    ensures forall v :: Walk(map[root := ZeroTable()], root, v) == Unmapped
  {
    var mem: Mem := map[root := ZeroTable()];
    forall i: nat
      ensures Entry(mem, root, i) == 0
    {
    }
  }

  // ----- the start of every run -----

  lemma WindowSlot(p: nat)
    requires InWindow(p)
    ensures 260 <= Index(p * PAGE, 4)
  {
    var v := p * PAGE;
    if v < 0x9080_0000_0000 {
      DivUnique(v, 0x80_0000_0000, 288, v - 0x9000_0000_0000);
    } else {
      DivUnique(v, 0x80_0000_0000, 289, v - 0x9080_0000_0000);
    }
  }

  lemma WindowEmpty(m: Machine, root: nat)
    requires forall v :: Walk(m.mem, root, v) == if 256 <= Index(v, 4) < 260 then ApertureLeaf(v) else Unmapped
    ensures forall p :: InWindow(p) ==> p !in View(m.mem, root)
  {
    hide Index, Walk, ApertureLeaf, InWindow;
    forall p: nat | InWindow(p)
      ensures p !in View(m.mem, root)
    {
      WindowSlot(p);
      assert Walk(m.mem, root, p * PAGE) == Unmapped;
    }
  }

  // Started over segments whose bitmaps are whole words, the allocator is in the state runs start from,
  // and no page of the pool is unaccounted for.
  lemma PowerOn(gs: seq<Segment>, intended: bool, root: nat, m: Machine, advances: bool)
    requires GoodSegments(gs) && (forall g :: g in gs ==> WholeWords(g))
    requires StartUp(gs, intended) == Fresh(m, root)
    ensures exists lv :: Booted(Started(m, advances), lv, {root}, root)
    ensures Started(m, advances).lost == {}
    ensures intended ==> AllContained(m.pool)
  {
    hide GoodSegments, WholeWords, StartUp, FirstMachine, BuiltPool, MachineInv, PoolInv, SameRegions, Allocated, Walk,
      Index, ApertureLeaf, AllContained, PoolFree, PoolPages, View, InWindow, PhysicalBound, VmInv;
    var ps := BuiltPool(gs, intended);
    StartedOver(gs, intended, root, m);
    BuiltPoolSound(gs, intended);
    BuiltPoolPages(gs, intended);
    FirstTableInv(ps, root, m);
    var lv :| MachineInv(m, lv, {root});
    WindowEmpty(m, root);
    StaysBound(ps, m.pool);
    if intended {
      ContainedStays(ps, m.pool);
    }
    assert Booted(Started(m, advances), lv, {root}, root);
    BootedInv(Started(m, advances), lv, {root}, root);
    OwnersAddUp(Started(m, advances), lv, {root}, root);
  }

  lemma StaysBound(ps: PoolState, qs: PoolState)
    requires SameRegions(ps, qs) && PhysicalBound(ps)
    ensures PhysicalBound(qs)
  {
    SamePages(ps, qs);
  }

  // Everything together: from raw segments through any run of VAlloc, VFree, table operations and map
  // creations, handed-out ranges stay disjoint with unmapped guards, live pages keep frames of their own,
  // and the pool's count is accounted for owner by owner; with the intended extents nothing is lost, and with
  // the intended output pointer every request of at most 16 pages is allowed.
  lemma SafeFromPowerOn(gs: seq<Segment>, intended: bool, root: nat, m: Machine, advances: bool,
                        events: seq<VmEvent>, end: Vm, endRoots: set<nat>)
    requires GoodSegments(gs) && (forall g :: g in gs ==> WholeWords(g))
    requires StartUp(gs, intended) == Fresh(m, root)
    requires VmRun(Started(m, advances), {root}, root, events, end, endRoots)
    ensures RangesSafe(end.ranges) && GuardsUnmapped(end, root) && LiveTranslated(end, root)
    ensures Allocated(end.m.pool) == |end.m.mem| + end.pages + if intended then 0 else |end.lost|
  {
    hide GoodSegments, StartUp, FirstMachine, BuiltPool, Booted, VmRun, RangesSafe, GuardsUnmapped, LiveTranslated,
      Allocated, AllContained, PoolFree, PoolPages;
    PowerOn(gs, intended, root, m, advances);
    var lv :| Booted(Started(m, advances), lv, {root}, root);
    RunsAreSafe(Started(m, advances), lv, {root}, root, events, end, endRoots);
    if intended {
      RunsConserve(Started(m, advances), lv, {root}, root, events, end, endRoots);
    }
  }
}

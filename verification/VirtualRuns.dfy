// Whole runs of the page allocator, interleaved with page table operations outside its window and with
// the creation of child maps.
module VirtualRuns {
  import opened PhysicalMap
  import opened Division
  import opened PageEntries
  import opened PageWalk
  import opened Regions
  import opened Pools
  import opened PageTables
  import opened PageMap
  import opened PageUnmap
  import opened PageRuns
  import opened PageCreate
  import opened VirtualAlloc
  import opened VirtualAllocSteps
  import opened VirtualFreeSteps

  // ----- VAlloc -----

  // What a request that returned promises: refused when the pool ran short, with nothing handed out, or
  // a fresh range at the cursor backed by the pool's lowest free frames.
  ghost predicate AllocOutcome(s: Vm, n: nat, s': Vm, value: nat) {
    if PoolServed(s.m.pool, n) < n then
      value == 0 && s'.live == s.live && s'.ranges == s.ranges && s'.cursor == s.cursor && s'.pages == s.pages
    else
      && value == s.cursor && s'.live == s.live[s.cursor := PoolFree(s.m.pool)[..n]] && s'.pages == s.pages + n
      && s'.ranges == s.ranges + [Range(s.cursor, n)] && s'.cursor == s.cursor + (n + 2) * 0x1000
  }

  // Regions stay what they are; and if `contains` accepts every page there is, none gets lost.
  ghost predicate Undisturbed(s: Vm, s': Vm) {
    SameRegions(s.m.pool, s'.m.pool) && (AllContained(s.m.pool) ==> s'.lost == s.lost)
  }

  // The extent test of some region accepts every page of the pool.
  ghost predicate AllContained(ps: PoolState) {
    forall a: nat :: IsPoolPage(ps, a) ==> PoolContains(ps, a)
  }

  lemma {:induction false} ContainedStays(ps: PoolState, qs: PoolState)
    requires SameRegions(ps, qs) && AllContained(ps)
    ensures AllContained(qs)
  {
    SamePages(ps, qs);
  }

  // A refused request loses nothing when every page is accepted back.
  lemma RefusedLosesNothing(s: Vm, taken: seq<nat>, pool1: PoolState)
    requires SameRegions(s.m.pool, pool1) && AllContained(s.m.pool)
    requires forall a :: a in taken ==> IsPoolPage(s.m.pool, a)
    ensures s.lost + (set a | a in taken && !PoolContains(pool1, a)) == s.lost
  {
  }

  lemma AllocKeeps(s: Vm, lv: map<nat, nat>, roots: set<nat>, root: nat, length: nat)
    requires VmInv(s, lv, roots, root) && PageCount(length) <= MAX_ALLOC_PAGES
    requires Named(s.m.pool, PageCount(length), s.advances)
    requires VirtualAlloc.Alloc(s, root, length).VmRet?
    ensures var r := VirtualAlloc.Alloc(s, root, length);
            && (exists lv' :: VmInv(r.s, lv', roots, root))
            && AllocOutcome(s, PageCount(length), r.s, r.value)
            && Adds(View(s.m.mem, root), View(r.s.m.mem, root))
            && Undisturbed(s, r.s)
  {
    hide VmInv, View, PoolContains, IsPoolPage, MapFrames, Answer, PoolAlloc, PoolRelease, Freeables, Named, PoolFree,
      NearestPageSize, PageCount, PoolContains;
    var n := PageCount(length);
    LengthPages(length);
    AllocRoom(s, lv, roots, root, n);
    AllocTaken(s, lv, roots, root, n);
    if PoolServed(s.m.pool, n) == n {
      var phys := Answer(s.m.pool, n, Buffer(), s.advances);
      MapFramesCode(s.m.(pool := PoolAlloc(s.m.pool, n)), root, phys, s.cursor, n);
      var m2 := MapFrames(s.m.(pool := PoolAlloc(s.m.pool, n)), root, phys, s.cursor, n).m;
      AllocSucceeds(s, lv, roots, root, n, m2);
    } else {
      AllocRefused(s, lv, roots, root, n);
      var taken := Answer(s.m.pool, n, Buffer(), s.advances)[..PoolServed(s.m.pool, n)];
      if AllContained(s.m.pool) {
        RefusedLosesNothing(s, taken, PoolAlloc(s.m.pool, n));
      }
    }
  }

  lemma AllocRoom(s: Vm, lv: map<nat, nat>, roots: set<nat>, root: nat, n: nat)
    requires VmInv(s, lv, roots, root) && n <= MAX_ALLOC_PAGES
    ensures (s.cursor + Extent(n)) % ADDR_LIMIT == s.cursor + Extent(n)
  {
    hide MachineInv, PhysicalBound, RangesLaidOut, WindowMapped, OneOwner, Counts, View;
    CursorBounds(s);
    DivUnique(s.cursor + Extent(n), ADDR_LIMIT, 0, s.cursor + Extent(n));
  }

  lemma MapFramesCode(m: Machine, root: nat, frames: seq<nat>, virt: nat, n: nat)
    requires n <= |frames|
    ensures MapFrames(m, root, frames, virt, n).Ret? ==> MapFrames(m, root, frames, virt, n).code == 0
  {
  }

  // ----- operations outside the window -----

  // The window looks the same through two flat maps.
  ghost predicate SameWindow(a: Flat, b: Flat) {
    forall p: nat :: InWindow(p) ==> (p in a <==> p in b) && (p in a ==> a[p] == b[p])
  }

  // Only 4K pages are mapped in the window.
  ghost predicate SmallWindow(view: Flat) {
    forall p: nat :: InWindow(p) && p in view ==> view[p].Mapped? && view[p].level == 1
  }

  // No address an operation names is in the window.
  ghost predicate Outside(op: PtOp) {
    forall v: nat :: Touches(op, v) ==> !InWindow(PageNo(v))
  }

  // Addresses of one block end at one level.
  lemma {:induction false} SameEnd(mem: Mem, t: nat, level: nat, v: nat, w: nat, k: nat)
    requires 1 <= k <= level <= 4
    requires WalkFrom(mem, t, level, v).Mapped? && WalkFrom(mem, t, level, v).level == k
    requires forall j :: k <= j <= level ==> Index(v, j) == Index(w, j)
    ensures WalkFrom(mem, t, level, w).Mapped? && WalkFrom(mem, t, level, w).level == k
    decreases level
  {
  }

  // Dropping the page of an address outside the window, whatever its size, drops nothing in it.
  lemma UnmapSparesWindow(mem: Mem, root: nat, v: nat)
    requires SmallWindow(View(mem, root)) && !InWindow(PageNo(v))
    ensures SameWindow(FlatUnmap(View(mem, root), v), View(mem, root))
  {
    hide Walk, InWindow, PageNo;
    var view := View(mem, root);
    var t := Lookup(view, v);
    if t.Mapped? && 1 <= t.level <= 4 {
      forall p: nat | InWindow(p) && p in view
        ensures Block(p * PAGE, t.level) != Block(v, t.level)
      {
        if Block(p * PAGE, t.level) == Block(v, t.level) {
          BlockNotWindow(mem, root, v, p);
        }
      }
    }
  }

  lemma BlockNotWindow(mem: Mem, root: nat, v: nat, p: nat)
    requires SmallWindow(View(mem, root)) && InWindow(p) && p in View(mem, root)
    requires var t := Lookup(View(mem, root), v);
               t.Mapped? && 1 <= t.level <= 4 && Block(p * PAGE, t.level) == Block(v, t.level)
    ensures p == PageNo(v)
  {
    hide View, Block, Index, InWindow;
    var t := Lookup(View(mem, root), v);
    WalkIsLookup(mem, root, v);
    SameBlock(v, p * PAGE, t.level);
    SameEnd(mem, root, 4, v, p * PAGE, t.level);
    ViewIsWalk(mem, root, p);
    BlockOfPage(p);
    BlockIsPage(v);
  }

  lemma ViewIsWalk(mem: Mem, root: nat, p: nat)
    requires p in View(mem, root)
    ensures p < PAGES && View(mem, root)[p] == Walk(mem, root, p * PAGE)
  {
  }

  lemma BlockIsPage(v: nat)
    ensures Block(v, 1) == PageNo(v)
  {
  }

  lemma SameWindowTrans(a: Flat, b: Flat, c: Flat)
    requires SameWindow(a, b) && SameWindow(b, c)
    ensures SameWindow(a, c)
  {
  }

  lemma SmallStays(a: Flat, b: Flat)
    requires SameWindow(a, b) && SmallWindow(b)
    ensures SmallWindow(a)
  {
  }

  lemma {:induction false} UnmapOutside(mem: Mem, lv: map<nat, nat>, roots: set<nat>, root: nat, virt: nat, n: nat,
                                        s: nat)
    requires Shape(mem, lv, roots) && root in roots && s in roots && SmallWindow(View(mem, s))
    requires forall i :: 0 <= i < n ==> !InWindow(PageNo(PageAt(virt, i)))
    ensures SameWindow(View(UnmapSome(mem, root, virt, n).mem, s), View(mem, s))
  {
    hide View, Shape, PageAt, Canonical, UnmapPage, Refused, FlatUnmap, UnmapCode, RootsStay, SharedSlot, InWindow,
      PageNo, SameWindow, SmallWindow;
    if n == 0 {
      SameWindowRefl(View(mem, s));
    } else {
      UnmapOutside(mem, lv, roots, root, virt, n - 1, s);
      var before := UnmapSome(mem, root, virt, n - 1);
      UnmapRefines(mem, lv, roots, root, virt, n - 1);
      if before.code >= 0 {
        UnmapPageOutside(before.mem, lv, roots, root, PageAt(virt, n - 1), true, s, View(mem, s));
      }
    }
  }

  lemma SameWindowRefl(a: Flat)
    ensures SameWindow(a, a)
  {
  }

  lemma UnmapPageOutside(mem: Mem, lv: map<nat, nat>, roots: set<nat>, root: nat, virt: nat, large: bool, s: nat,
                         was: Flat)
    requires Shape(mem, lv, roots) && root in roots && s in roots && SmallWindow(was) && SameWindow(View(mem, s), was)
    requires !InWindow(PageNo(virt))
    ensures SameWindow(View(UnmapPage(mem, root, virt, large).mem, s), was)
  {
    hide View, Shape, Canonical, UnmapPage, Refused, FlatUnmap, UnmapCode, RootsStay, SharedSlot, InWindow, PageNo,
      SameWindow, SmallWindow;
    UnmapPageRefines(mem, lv, roots, root, virt, large);
    SmallStays(View(mem, s), was);
    UnmapSparesWindow(mem, s, virt);
    var after := View(UnmapPage(mem, root, virt, large).mem, s);
    assert after == View(mem, s) || after == FlatUnmap(View(mem, s), virt);
    if after == FlatUnmap(View(mem, s), virt) {
      SameWindowTrans(after, View(mem, s), was);
    }
  }

  lemma MapPageOutside(m: Machine, lv: map<nat, nat>, roots: set<nat>, root: nat, phys: nat, virt: nat, mode: Mode,
                       s: nat)
    requires MachineInv(m, lv, roots) && root in roots && s in roots && !InWindow(PageNo(virt))
    requires MapPage(m, root, phys, virt, mode).Ret?
    ensures var r := MapPage(m, root, phys, virt, mode);
            SameWindow(View(r.m.mem, s), View(m.mem, s)) && Grew(m, r.m)
  {
    hide MachineInv, View, MapPage, Grew, PageNo, SharedSlot, RootsStay, OthersSame, FlatMapCode, InWindow;
    MapPageRefines(m, lv, roots, root, phys, virt, mode);
    var r := MapPage(m, root, phys, virt, mode);
    var lv' :| MapPageOk(m, lv, roots, root, phys, virt, mode, r.m, r.code, lv');
  }

  lemma StepOutside(m: Machine, lv: map<nat, nat>, roots: set<nat>, op: PtOp, s: nat)
    requires MachineInv(m, lv, roots) && op.root in roots && s in roots && Outside(op) && SmallWindow(View(m.mem, s))
    requires PtStep(m, op).Ret?
    ensures SameWindow(View(PtStep(m, op).m.mem, s), View(m.mem, s)) && Grew(m, PtStep(m, op).m)
  {
    hide View, Shape, MapPage, UnmapPage, UnmapSome, InWindow, PageNo, SameWindow, SmallWindow, Grew, PoolInv, PageAt;
    SameWindowRefl(View(m.mem, s));
    match op {
      case DoMap(root, phys, virt, mode) =>
        assert Touches(op, virt);
        MapPageOutside(m, lv, roots, root, phys, virt, mode, s);
      case DoUnmapPage(root, virt) =>
        assert Touches(op, virt);
        UnmapPageOutside(m.mem, lv, roots, root, virt, false, s, View(m.mem, s));
        UnmapPageRefines(m.mem, lv, roots, root, virt, false);
        GrewNothing(m, PtStep(m, op).m);
      case DoUnmap(root, virt, length) =>
        if virt == 0 || virt % PAGE != 0 || length == 0 || length % PAGE != 0 {
          GrewNothing(m, m);
        } else {
          forall i | 0 <= i < length / PAGE
            ensures !InWindow(PageNo(PageAt(virt, i)))
          {
            assert Touches(op, PageAt(virt, i));
          }
          UnmapOutside(m.mem, lv, roots, root, virt, length / PAGE, s);
          UnmapRefines(m.mem, lv, roots, root, virt, length / PAGE);
          GrewNothing(m, PtStep(m, op).m);
        }
    }
  }

  lemma GrewNothing(m: Machine, m': Machine)
    requires m'.pool == m.pool && m'.mem.Keys == m.mem.Keys && m'.early == m.early
    ensures Grew(m, m')
  {
    assert PoolFree(m.pool)[..0] == [];
    assert GrewBy(m, m', 0);
  }

  // ----- any growth of the paging structures keeps the allocator's invariant -----

  lemma GrowOwners(s: Vm, m': Machine)
    requires OneOwner(s) && Grew(s.m, m') && Distinct(PoolFree(s.m.pool))
    requires forall t :: t in s.m.mem ==> t !in PoolFree(s.m.pool)
    requires forall a :: IsPoolPage(m'.pool, a) <==> IsPoolPage(s.m.pool, a)
    requires forall a :: a in PoolFree(s.m.pool) ==> IsPoolPage(s.m.pool, a)
    ensures OneOwner(s.(m := m'))
  {
  }

  lemma GrowWindow(s: Vm, root: nat, m': Machine)
    requires RangesLaidOut(s) && WindowMapped(s, View(s.m.mem, root))
    requires SameWindow(View(m'.mem, root), View(s.m.mem, root))
    ensures WindowMapped(s.(m := m'), View(m'.mem, root))
  {
    hide View, RangesLaidOut, InWindow, LivePage;
    var view, view' := View(s.m.mem, root), View(m'.mem, root);
    forall p: nat, ptr: nat, i: nat | LivePage(s.live, p, ptr, i)
      ensures p in view' && ptr in s.live && i < |s.live[ptr]| && view'[p] == Mapped(s.live[ptr][i], KERNEL_PAGE, 1)
    {
      LiveBelowCursor(s, p, ptr, i);
      LiveEntry(s.live, p, ptr, i);
    }
  }

  lemma LiveEntry(live: map<nat, seq<nat>>, p: nat, ptr: nat, i: nat)
    requires LivePage(live, p, ptr, i)
    ensures ptr in live && i < |live[ptr]|
  {
  }

  lemma WindowIsSmall(s: Vm, view: Flat)
    requires WindowMapped(s, view)
    ensures SmallWindow(view)
  {
  }

  lemma MachineGrows(s: Vm, lv: map<nat, nat>, roots: set<nat>, root: nat, m': Machine, lv': map<nat, nat>,
                     roots': set<nat>)
    requires VmInv(s, lv, roots, root) && MachineInv(m', lv', roots') && root in roots'
    requires Grew(s.m, m') && SameWindow(View(m'.mem, root), View(s.m.mem, root))
    ensures VmInv(s.(m := m'), lv', roots', root)
  {
    hide Shape, RangesLaidOut, WindowMapped, OneOwner, Counts, View, PoolFree, PhysicalBound, IsPoolPage, SameWindow,
      PoolInv, Distinct, GrewBy;
    PoolFreePages(s.m.pool);
    GrewRegions(s.m, m');
    SamePages(s.m.pool, m'.pool);
    GrowOwners(s, m');
    GrowWindow(s, root, m');
    SameLive(s, s.(m := m'));
    KeepRanges(s, s.(m := m'));
  }

  lemma TableKeeps(s: Vm, lv: map<nat, nat>, roots: set<nat>, root: nat, op: PtOp)
    requires VmInv(s, lv, roots, root) && op.root in roots && Outside(op) && PtStep(s.m, op).Ret?
    ensures exists lv' :: VmInv(s.(m := PtStep(s.m, op).m), lv', roots, root)
    ensures SameRegions(s.m.pool, PtStep(s.m, op).m.pool)
  {
    hide MachineInv, RangesLaidOut, WindowMapped, OneOwner, Counts, View, PhysicalBound, SameWindow, SmallWindow, Grew,
      PtStep, RootsStay, FlatStep, Outside;
    WindowIsSmall(s, View(s.m.mem, root));
    StepOutside(s.m, lv, roots, op, root);
    StepRefines(s.m, lv, roots, op);
    var m' := PtStep(s.m, op).m;
    var lv' :| StepOk(s.m, roots, op, m', lv');
    MachineGrows(s, lv, roots, root, m', lv', roots);
    GrewRegions(s.m, m');
  }

  lemma ChildKeeps(s: Vm, lv: map<nat, nat>, roots: set<nat>, root: nat, parent: nat)
    requires VmInv(s, lv, roots, root) && parent in roots
    ensures parent in s.m.mem
    ensures var r := NewChild(s.m, parent);
            r.Fresh? ==>
              && r.page !in roots && SameRegions(s.m.pool, r.m.pool)
              && exists lv' :: VmInv(s.(m := r.m), lv', roots + {r.page}, root)
  {
    hide MachineInv, RangesLaidOut, WindowMapped, OneOwner, Counts, View, PhysicalBound, SameWindow, SmallWindow, Grew,
      NewChild, Walk, SharedSlot;
    RootLength(s.m, lv, roots, parent);
    var r := NewChild(s.m, parent);
    if r.Fresh? {
      ChildSharesUpper(s.m, lv, roots, parent);
      SameView(s.m.mem, r.m.mem, root);
      SameWindowRefl(View(s.m.mem, root));
      ChildGrew(s.m, lv, roots, parent);
      GrewRegions(s.m, r.m);
      MachineGrows(s, lv, roots, root, r.m, lv[r.page := 4], roots + {r.page});
      RootsAreTables(s.m, lv, roots, r.page);
    }
  }

  lemma RootsAreTables(m: Machine, lv: map<nat, nat>, roots: set<nat>, page: nat)
    requires MachineInv(m, lv, roots) && page !in m.mem
    ensures page !in roots
  {
  }

  lemma ChildGrew(m: Machine, lv: map<nat, nat>, roots: set<nat>, parent: nat)
    requires MachineInv(m, lv, roots) && parent in roots && parent in m.mem && NewChild(m, parent).Fresh?
    ensures Grew(m, NewChild(m, parent).m)
  {
    hide PoolInv, Shape, PoolFree, PoolAlloc;
    NextFrame(m, lv, roots);
    var r := NewChild(m, parent);
    assert PoolFree(m.pool)[..1] == [r.page];
    assert GrewBy(m, r.m, 1);
  }

  // ----- runs -----

  datatype VmEvent =
    | DoAlloc(length: nat)
    | DoFree(ptr: nat, length: nat)
    | DoTable(op: PtOp)
    | DoChild(parent: nat)
    | DoFinishBoot

  // What callers have to respect: at most 16 pages a request, and a buffer that names the frames taken (always
  // so when the pool advances its output pointer); only live ranges are freed, with their length; nobody
  // else maps or unmaps addresses of the window.
  ghost predicate Allowed(s: Vm, roots: set<nat>, e: VmEvent) {
    match e
    case DoAlloc(length) => PageCount(length) <= MAX_ALLOC_PAGES && Named(s.m.pool, PageCount(length), s.advances)
    case DoFree(ptr, length) => ptr in s.live && PageCount(length) == |s.live[ptr]| <= MAX_ALLOC_PAGES
    case DoTable(op) => op.root in roots && Outside(op)
    case DoChild(parent) => parent in roots && parent in s.m.mem
    case DoFinishBoot => true
  }

  // One event; the value is the set of roots afterwards.
  ghost function VmStep(s: Vm, roots: set<nat>, root: nat, e: VmEvent): VmResult<set<nat>>
    requires Allowed(s, roots, e)
  {
    match e
    case DoAlloc(length) =>
      var r := VirtualAlloc.Alloc(s, root, length);
      if r.VmPanic? then VmPanic else VmRet(r.s, roots)
    case DoFree(ptr, length) =>
      var r := VirtualAlloc.Free(s, root, ptr, length);
      if r.VmPanic? then VmPanic else VmRet(r.s, roots)
    case DoTable(op) =>
      var r := PtStep(s.m, op);
      if r.Panic? then VmPanic else VmRet(s.(m := r.m), roots)
    case DoChild(parent) =>
      var r := NewChild(s.m, parent);
      if r.PagePanic? then VmPanic else VmRet(s.(m := r.m), roots + {r.page})
    case DoFinishBoot => VmRet(s.(m := s.m.(early := false)), roots)
  }

  // A run that no REQUIRE stopped.
  ghost predicate VmRun(s: Vm, roots: set<nat>, root: nat, events: seq<VmEvent>, end: Vm, endRoots: set<nat>)
    decreases |events|
  {
    if events == [] then end == s && endRoots == roots
    else
      && Allowed(s, roots, events[0])
      && var r := VmStep(s, roots, root, events[0]);
         r.VmRet? && VmRun(r.s, r.value, root, events[1..], end, endRoots)
  }

  ghost predicate StepKept(s: Vm, root: nat, s': Vm, roots': set<nat>, lv': map<nat, nat>) {
    VmInv(s', lv', roots', root) && s.ranges <= s'.ranges && Undisturbed(s, s')
  }

  lemma VmStepKeeps(s: Vm, lv: map<nat, nat>, roots: set<nat>, root: nat, e: VmEvent)
    requires VmInv(s, lv, roots, root) && Allowed(s, roots, e) && VmStep(s, roots, root, e).VmRet?
    ensures var r := VmStep(s, roots, root, e); exists lv' :: StepKept(s, root, r.s, r.value, lv')
  {
    hide VmInv, Outside, Named, PtStep, NewChild, VirtualAlloc.Alloc, VirtualAlloc.Free, PoolFree, PageCount,
      SameRegions, AllContained;
    var r := VmStep(s, roots, root, e);
    match e {
      case DoAlloc(length) =>
        AllocKeeps(s, lv, roots, root, length);
        var lv' :| VmInv(r.s, lv', roots, root);
        assert StepKept(s, root, r.s, r.value, lv');
      case DoFree(ptr, length) =>
        FreeCompletes(s, lv, roots, root, ptr, length);
        FreeRecord(s, root, ptr, length);
        assert StepKept(s, root, r.s, r.value, lv);
      case DoTable(op) =>
        TableKeeps(s, lv, roots, root, op);
        var lv' :| VmInv(r.s, lv', roots, root);
        assert StepKept(s, root, r.s, r.value, lv');
      case DoChild(parent) =>
        ChildKeeps(s, lv, roots, root, parent);
        var lv' :| VmInv(r.s, lv', r.value, root);
        assert StepKept(s, root, r.s, r.value, lv');
      case DoFinishBoot =>
        FinishKeeps(s, lv, roots, root);
        assert StepKept(s, root, r.s, r.value, lv);
    }
  }

  // The end of early boot only makes more memory reachable.
  lemma FinishKeeps(s: Vm, lv: map<nat, nat>, roots: set<nat>, root: nat)
    requires VmInv(s, lv, roots, root)
    ensures VmInv(s.(m := s.m.(early := false)), lv, roots, root) && Undisturbed(s, s.(m := s.m.(early := false)))
  {
    hide MachineInv, View, PoolFree, PhysicalBound, RangesLaidOut, WindowMapped, AllContained;
    var t := s.(m := s.m.(early := false));
    SameItself(s.m.pool);
    SameLive(s, t);
    KeepRanges(s, t);
    KeepWindow(s, t, root);
    ReachGrows(s.m, lv, roots);
  }

  lemma ReachGrows(m: Machine, lv: map<nat, nat>, roots: set<nat>)
    requires MachineInv(m, lv, roots)
    ensures MachineInv(m.(early := false), lv, roots)
  {
    hide Shape, PoolInv, PoolFree, IsPoolPage;
    SoundShape(m, lv, roots);
    InAperture(m.mem, lv, roots);
  }

  lemma InAperture(mem: Mem, lv: map<nat, nat>, roots: set<nat>)
    requires Shape(mem, lv, roots)
    ensures forall t :: t in mem ==> t < APERTURE_LENGTH - PAGE
  {
  }

  lemma FreeRecord(s: Vm, root: nat, ptr: nat, length: nat)
    requires PageCount(length) <= MAX_ALLOC_PAGES && VirtualAlloc.Free(s, root, ptr, length).VmRet?
    ensures var t := VirtualAlloc.Free(s, root, ptr, length).s; t.ranges == s.ranges && t.lost == s.lost
  {
  }

  // Every run keeps the invariant and forgets no range.
  lemma {:induction false} VmRunKeeps(s: Vm, lv: map<nat, nat>, roots: set<nat>, root: nat, events: seq<VmEvent>,
                                      end: Vm, endRoots: set<nat>)
    requires VmInv(s, lv, roots, root) && VmRun(s, roots, root, events, end, endRoots)
    ensures exists lv' :: StepKept(s, root, end, endRoots, lv')
    decreases |events|
  {
    hide VmInv, Allowed, VmStep, SameRegions, AllContained;
    if events == [] {
      SameItself(s.m.pool);
      assert StepKept(s, root, end, endRoots, lv);
    } else {
      var r := VmStep(s, roots, root, events[0]);
      VmStepKeeps(s, lv, roots, root, events[0]);
      var lv1 :| StepKept(s, root, r.s, r.value, lv1);
      VmRunKeeps(r.s, lv1, r.value, root, events[1..], end, endRoots);
      var lv' :| StepKept(r.s, root, end, endRoots, lv');
      RegionsTrans(s.m.pool, r.s.m.pool, end.m.pool);
      if AllContained(s.m.pool) {
        ContainedStays(s.m.pool, r.s.m.pool);
      }
      assert StepKept(s, root, end, endRoots, lv');
    }
  }

  lemma SameItself(ps: PoolState)
    ensures SameRegions(ps, ps)
  {
  }

  // ----- what the invariant says to callers -----

  // The state Init leaves: nothing handed out, the window empty below the kernel's root. Pool pages that
  // are neither free nor paging structures have no owner the allocator knows.
  ghost predicate Booted(s: Vm, lv: map<nat, nat>, roots: set<nat>, root: nat) {
    && MachineInv(s.m, lv, roots) && root in roots && PhysicalBound(s.m.pool)
    && s.cursor == VALLOC_START && s.pages == 0 && s.live == map[] && s.ranges == []
    && (forall p :: InWindow(p) ==> p !in View(s.m.mem, root))
    && s.lost == set a | a in PoolPages(s.m.pool) && a !in PoolFree(s.m.pool) && a !in s.m.mem
  }

  lemma BootedInv(s: Vm, lv: map<nat, nat>, roots: set<nat>, root: nat)
    requires Booted(s, lv, roots, root)
    ensures VmInv(s, lv, roots, root)
  {
    hide Shape, PoolInv, View, PoolFree, PhysicalBound, PoolPages, IsPoolPage;
    assert forall a :: !IsLive(s.live, a);
    forall a
      ensures a in PoolPages(s.m.pool) <==> IsPoolPage(s.m.pool, a)
    {
      PoolPagesMembers(s.m.pool, a);
    }
    assert LiveSet(s) == {};
    assert RangesLaidOut(s) && WindowMapped(s, View(s.m.mem, root)) && OneOwner(s) && Counts(s);
  }

  // Over any run from boot, everything ever handed out is 1 to 16 pages of 4 KB, page aligned, inside the
  // window reserved for it and pairwise disjoint, two guard pages included.
  ghost predicate RangesSafe(ranges: seq<Range>) {
    && (forall k :: 0 <= k < |ranges| ==>
          && ranges[k].ptr % 0x1000 == 0 && 1 <= ranges[k].count <= 16
          && 0xFFFF_9000_0000_0000 <= ranges[k].ptr
          && ranges[k].ptr + (ranges[k].count + 2) * 0x1000 <= 0xFFFF_90FF_FFFF_FFFF)
    && (forall j, k :: 0 <= j < k < |ranges| ==> ranges[j].ptr + (ranges[j].count + 2) * 0x1000 <= ranges[k].ptr)
  }

  // Start of guard page g behind a range, and byte b of page i of an allocation.
  function GuardAddr(r: Range, g: nat): nat {
    r.ptr + (r.count + g) * 0x1000
  }

  function ByteAddr(ptr: nat, i: nat, b: nat): nat {
    ptr + i * 0x1000 + b
  }

  // The two pages behind every range handed out are not mapped.
  ghost predicate GuardsUnmapped(s: Vm, root: nat) {
    forall k: nat, g: nat :: k < |s.ranges| && g < 2 ==>
        Walk(s.m.mem, root, GuardAddr(s.ranges[k], g)) == Unmapped
  }

  // Every byte of every live page translates to the page's own frame, which the kernel may read and write
  // (and execute) and user space may not touch, no table on the way forbids the writing, and no two live pages
  // share a frame.
  ghost predicate LiveTranslated(s: Vm, root: nat) {
    && (forall ptr, i: nat, b: nat :: ptr in s.live && i < |s.live[ptr]| && b < 0x1000 ==>
          && Walk(s.m.mem, root, ByteAddr(ptr, i, b)) ==
             Mapped(s.live[ptr][i] + b, Mode(true, true, true, false, false, false), 1)
          && AllowsWrites(s.m.mem, root, 4, ByteAddr(ptr, i, b)))
    && (forall a, ptr, i, ptr', i' :: LiveFrame(s.live, a, ptr, i) && LiveFrame(s.live, a, ptr', i') ==>
         ptr == ptr' && i == i')
  }

  lemma GuardPage(s: Vm, root: nat, k: nat, g: nat)
    requires RangesLaidOut(s) && WindowMapped(s, View(s.m.mem, root)) && k < |s.ranges| && g < NUM_GUARD_PAGES
    ensures Walk(s.m.mem, root, s.ranges[k].ptr + (s.ranges[k].count + g) * PAGE) == Unmapped
  {
    hide View, Walk;
    var ptr, n := s.ranges[k].ptr, s.ranges[k].count;
    assert ptr + Extent(n) <= s.cursor;
    WindowPage(ptr, 0);
    WindowPage(ptr, n + g);
    var a := ptr + (n + g) * PAGE;
    var p := PageNo(a);
    WalkIsLookup(s.m.mem, root, a);
    if p in View(s.m.mem, root) {
      var q: nat, i: nat :| LivePage(s.live, p, q, i);
      NotGuard(s, k, g, q, i);
      assert false;
    }
  }

  lemma NotGuard(s: Vm, k: nat, g: nat, q: nat, i: nat)
    requires RangesLaidOut(s) && k < |s.ranges| && g < NUM_GUARD_PAGES && q in s.live && i < |s.live[q]|
    ensures PageNo(q) + i != PageNo(s.ranges[k].ptr) + s.ranges[k].count + g
  {
    var ptr, n := s.ranges[k].ptr, s.ranges[k].count;
    var j :| 0 <= j < |s.ranges| && s.ranges[j] == Range(q, |s.live[q]|);
    assert j < k ==> q + Extent(|s.live[q]|) <= ptr;
    assert k < j ==> ptr + Extent(n) <= q;
    WindowPage(ptr, 0);
    WindowPage(q, 0);
    DivEquation(ptr, PAGE);
    DivEquation(q, PAGE);
  }

  lemma LiveByte(s: Vm, root: nat, ptr: nat, i: nat, b: nat)
    requires RangesLaidOut(s) && WindowMapped(s, View(s.m.mem, root)) && ptr in s.live && i < |s.live[ptr]| && b < PAGE
    ensures Walk(s.m.mem, root, ptr + i * PAGE + b) == Mapped(s.live[ptr][i] + b, KERNEL_PAGE, 1)
  {
    hide View, Walk;
    var a := ptr + i * PAGE;
    LivePageResolves(s, root, ptr, i);
    assert LivePage(s.live, PageNo(ptr) + i, ptr, i);
    LiveBelowCursor(s, PageNo(ptr) + i, ptr, i);
    WindowPage(ptr, i);
    WalkIsLookup(s.m.mem, root, a + b);
    SamePageByte(a, b);
  }

  lemma SamePageByte(a: nat, b: nat)
    requires VALLOC_START <= a <= VALLOC_END && a % PAGE == 0 && b < PAGE
    ensures PageNo(a + b) == PageNo(a) && (a + b) % PAGE == b
  {
    var q := a / PAGE;
    DivEquation(a, PAGE);
    DivUnique(a + b, PAGE, q, b);
    var base := 0xFFFF_0000_0000_0000;
    DivUnique(a, 0x1_0000_0000_0000, 0xFFFF, a - base);
    DivUnique(a + b, 0x1_0000_0000_0000, 0xFFFF, a + b - base);
    DivUnique(a - base, PAGE, q - 0xF_FFF0_0000_0000, 0);
    DivUnique(a + b - base, PAGE, q - 0xF_FFF0_0000_0000, b);
  }

  lemma InvSafe(s: Vm, lv: map<nat, nat>, roots: set<nat>, root: nat)
    requires VmInv(s, lv, roots, root)
    ensures RangesSafe(s.ranges) && GuardsUnmapped(s, root) && LiveTranslated(s, root)
    ensures Allocated(s.m.pool) == |s.m.mem| + s.pages + |s.lost|
  {
    hide MachineInv, View, PhysicalBound, Walk, Counts, Allocated, AllowsWrites;
    OwnersAddUp(s, lv, roots, root);
    forall k: nat, g: nat | k < |s.ranges| && g < NUM_GUARD_PAGES
      ensures Walk(s.m.mem, root, GuardAddr(s.ranges[k], g)) == Unmapped
    {
      GuardPage(s, root, k, g);
    }
    forall ptr, i: nat, b: nat | ptr in s.live && i < |s.live[ptr]| && b < PAGE
      ensures Walk(s.m.mem, root, ByteAddr(ptr, i, b)) == Mapped(s.live[ptr][i] + b, KERNEL_PAGE, 1)
      ensures AllowsWrites(s.m.mem, root, 4, ByteAddr(ptr, i, b))
    {
      LiveByte(s, root, ptr, i, b);
      MayWrite(s.m, lv, roots, root, ByteAddr(ptr, i, b));
    }
  }

  // The main result: after any run of VAlloc, VFree, table operations and map creations from boot, the
  // ranges handed out are disjoint for all time with unmapped guards behind them, live pages translate to
  // frames of their own, and the pool's count of allocated pages is accounted for owner by owner.
  lemma RunsAreSafe(s: Vm, lv: map<nat, nat>, roots: set<nat>, root: nat, events: seq<VmEvent>, end: Vm,
                    endRoots: set<nat>)
    requires Booted(s, lv, roots, root) && VmRun(s, roots, root, events, end, endRoots)
    ensures RangesSafe(end.ranges) && GuardsUnmapped(end, root) && LiveTranslated(end, root)
    ensures Allocated(end.m.pool) == |end.m.mem| + end.pages + |end.lost|
  {
    hide VmInv, VmRun, RangesSafe, GuardsUnmapped, LiveTranslated, Booted;
    BootedInv(s, lv, roots, root);
    VmRunKeeps(s, lv, roots, root, events, end, endRoots);
    var lv' :| StepKept(s, root, end, endRoots, lv');
    InvSafe(end, lv', endRoots, root);
  }

  // With extents that cover the regions, and nothing lost at boot, the pages counted as allocated are the
  // paging structures and the pages handed out, at the end of every run.
  lemma RunsConserve(s: Vm, lv: map<nat, nat>, roots: set<nat>, root: nat, events: seq<VmEvent>, end: Vm,
                     endRoots: set<nat>)
    requires Booted(s, lv, roots, root) && VmRun(s, roots, root, events, end, endRoots)
    requires AllContained(s.m.pool) && s.lost == {}
    ensures Allocated(end.m.pool) == |end.m.mem| + end.pages
  {
    hide VmInv, VmRun, Booted, AllContained, SameRegions, RangesSafe, GuardsUnmapped, LiveTranslated;
    BootedInv(s, lv, roots, root);
    VmRunKeeps(s, lv, roots, root, events, end, endRoots);
    var lv' :| StepKept(s, root, end, endRoots, lv');
    InvSafe(end, lv', endRoots, root);
  }
}

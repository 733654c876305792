// VFree on one processor whose TLB may load any current translation, or drop any entry, between any two
// steps: unmap every page, invalidate every page, and only then release the frames.
module TlbCoherence {
  import opened Division
  import opened PageEntries
  import opened PageWalk
  import opened Pools
  import opened PageTables
  import opened PageMap
  import opened PageUnmap
  import opened PageRuns
  import opened PageCreate
  import opened VirtualAlloc
  import opened VirtualAllocSteps
  import opened VirtualFreeSteps
  import opened VirtualRuns

  // Where VFree is: i pages of the range at ptr have been unmapped, or unmapped and invalidated.
  datatype Phase = Idle | Unmapping(ptr: nat, i: nat) | Invalidating(ptr: nat, i: nat)

  // s is the allocator as the last completed call left it, roots the maps there are, mem the paging structures
  // as they are now, tlb the cached translation of some pages of the kernel's map.
  datatype Cpu = Cpu(s: Vm, roots: set<nat>, mem: Mem, tlb: Flat, phase: Phase)

  datatype CpuStep =
    | Load(p: nat)
    | Evict(p: nat)
    | CallAlloc(length: nat)
    | CallMap(op: PtOp)
    | CallOther(op: PtOp)
    | CallChild(parent: nat)
    | BeginFree(ptr: nat, length: nat)
    | UnmapNext
    | UnmapEnd
    | InvalidateNext
    | Release

  // The steps; Load, Evict are the processor's, the others are the kernel's. Besides VAlloc and VFree it maps
  // pages that are absent from its map, works on the lower half of other maps, and creates maps.
  ghost predicate CpuNext(c: Cpu, root: nat, e: CpuStep, c': Cpu) {
    match e
    case Load(p) => p in View(c.mem, root) && c' == c.(tlb := c.tlb[p := View(c.mem, root)[p]])
    case Evict(p) => c' == c.(tlb := c.tlb - {p})
    case CallAlloc(length) =>
      && c.phase.Idle? && PageCount(length) <= MAX_ALLOC_PAGES && Named(c.s.m.pool, PageCount(length), c.s.advances)
      && var r := VirtualAlloc.Alloc(c.s, root, length); r.VmRet? && c' == c.(s := r.s, mem := r.s.m.mem)
    case CallMap(op) =>
      && c.phase.Idle? && op.DoMap? && op.root in c.roots && Outside(op) && PageNo(op.virt) !in View(c.mem, root)
      && var r := PtStep(c.s.m, op); r.Ret? && c' == c.(s := c.s.(m := r.m), mem := r.m.mem)
    case CallOther(op) =>
      && c.phase.Idle? && op.root in c.roots && op.root != root && LowerHalf(op)
      && var r := PtStep(c.s.m, op); r.Ret? && c' == c.(s := c.s.(m := r.m), mem := r.m.mem)
    case CallChild(parent) =>
      && c.phase.Idle? && parent in c.roots && parent in c.s.m.mem
      && var r := NewChild(c.s.m, parent);
         r.Fresh? && c' == c.(s := c.s.(m := r.m), roots := c.roots + {r.page}, mem := r.m.mem)
    case BeginFree(ptr, length) =>
      c.phase.Idle? && ptr in c.s.live && PageCount(length) == |c.s.live[ptr]| && c' == c.(phase := Unmapping(ptr, 0))
    case UnmapNext =>
      && c.phase.Unmapping? && c.phase.ptr in c.s.live && c.phase.i < |c.s.live[c.phase.ptr]|
      && var r := UnmapPage(c.mem, root, PageAt(c.phase.ptr, c.phase.i), true);
         r.code >= 0 && c' == c.(mem := r.mem, phase := Unmapping(c.phase.ptr, c.phase.i + 1))
    case UnmapEnd =>
      && c.phase.Unmapping? && c.phase.ptr in c.s.live && c.phase.i == |c.s.live[c.phase.ptr]|
      && c' == c.(phase := Invalidating(c.phase.ptr, 0))
    case InvalidateNext =>
      && c.phase.Invalidating? && c.phase.ptr in c.s.live && c.phase.i < |c.s.live[c.phase.ptr]|
      && c' == c.(tlb := c.tlb - {PageNo(PageAt(c.phase.ptr, c.phase.i))},
           phase := Invalidating(c.phase.ptr, c.phase.i + 1))
    case Release =>
      && c.phase.Invalidating? && c.phase.ptr in c.s.live && c.phase.i == |c.s.live[c.phase.ptr]|
      && var frames := c.s.live[c.phase.ptr];
         && Freeables(c.s.m.pool, frames) && PoolCount(c.s.m.pool, frames) == |frames|
         && c' == c.(s := FreeDone(c.s, c.phase.ptr, c.mem), phase := Idle)
  }

  // How many pages of the range being freed are unmapped, and from which on the TLB may still know them.
  function Unmapped(c: Cpu): nat {
    match c.phase
    case Idle => 0
    case Unmapping(_, i) => i
    case Invalidating(ptr, _) => if ptr in c.s.live then |c.s.live[ptr]| else 0
  }

  function Invalidated(c: Cpu): nat {
    if c.phase.Invalidating? then c.phase.i else 0
  }

  // Page p was unmapped by the free in progress and not yet invalidated.
  ghost predicate Pending(c: Cpu, p: nat) {
    !c.phase.Idle? && PageNo(c.phase.ptr) + Invalidated(c) <= p < PageNo(c.phase.ptr) + Unmapped(c)
  }

  // A cached translation is the walk's; a stale one can only be of a page pending invalidation, and is
  // what the walk gave before.
  ghost predicate Coherent(c: Cpu, root: nat) {
    forall p :: p in c.tlb ==>
      || (p in View(c.mem, root) && c.tlb[p] == View(c.mem, root)[p])
      || (Pending(c, p) && p in View(c.s.m.mem, root) && c.tlb[p] == View(c.s.m.mem, root)[p])
  }

  ghost predicate MemNow(c: Cpu, root: nat) {
    if c.phase.Idle? then c.mem == c.s.m.mem
    else
      && c.phase.ptr in c.s.live && Invalidated(c) <= Unmapped(c) <= |c.s.live[c.phase.ptr]|
      && c.mem == UnmapSome(c.s.m.mem, root, c.phase.ptr, Unmapped(c)).mem
  }

  ghost predicate CpuInv(c: Cpu, lv: map<nat, nat>, roots: set<nat>, root: nat) {
    c.roots == roots && VmInv(c.s, lv, roots, root) && MemNow(c, root) && Coherent(c, root)
  }

  // The flat map while a free is in progress.
  lemma ViewNow(c: Cpu, lv: map<nat, nat>, roots: set<nat>, root: nat)
    requires VmInv(c.s, lv, roots, root) && MemNow(c, root) && !c.phase.Idle?
    ensures var view := View(c.s.m.mem, root);
            View(c.mem, root) == map p | p in view
                && !(PageNo(c.phase.ptr) <= p < PageNo(c.phase.ptr) + Unmapped(c)) :: view[p]
  {
    hide VmInv, View;
    UnmapLiveSome(c.s, lv, roots, root, c.phase.ptr, Unmapped(c));
  }

  lemma UnmapKeepsTlb(c: Cpu, lv: map<nat, nat>, roots: set<nat>, root: nat, c': Cpu)
    requires CpuInv(c, lv, roots, root) && CpuNext(c, root, UnmapNext, c')
    ensures CpuInv(c', lv, roots, root)
  {
    hide VmInv, View, PageAt, UnmapPage, PageNo;
    var ptr, i := c.phase.ptr, c.phase.i;
    UnmapLiveSome(c.s, lv, roots, root, ptr, i);
    assert c'.mem == UnmapSome(c.s.m.mem, root, ptr, i + 1).mem;
    ViewNow(c, lv, roots, root);
    ViewNow(c', lv, roots, root);
  }

  lemma InvalidateKeepsTlb(c: Cpu, lv: map<nat, nat>, roots: set<nat>, root: nat, c': Cpu)
    requires CpuInv(c, lv, roots, root) && CpuNext(c, root, InvalidateNext, c')
    ensures CpuInv(c', lv, roots, root)
  {
    hide VmInv, View, PageAt, UnmapSome, PageNo;
    InvalidatedPage(c.s, lv, roots, root, c.phase.ptr, c.phase.i);
  }

  lemma InvalidatedPage(s: Vm, lv: map<nat, nat>, roots: set<nat>, root: nat, ptr: nat, i: nat)
    requires VmInv(s, lv, roots, root) && ptr in s.live && i < |s.live[ptr]|
    ensures PageNo(PageAt(ptr, i)) == PageNo(ptr) + i
  {
    hide MachineInv, View, RangesLaidOut, WindowMapped, OneOwner, Counts, PhysicalBound, PageNo, PageAt;
    LiveRange(s, root, ptr, i + 1);
  }

  // Once every page of the range has been invalidated, the TLB agrees with the walk.
  lemma AllCoherent(c: Cpu, lv: map<nat, nat>, roots: set<nat>, root: nat)
    requires CpuInv(c, lv, roots, root)
    requires c.phase.Idle? || (c.phase.Invalidating? && c.phase.i == |c.s.live[c.phase.ptr]|)
    ensures forall p :: p in c.tlb ==> p in View(c.mem, root) && c.tlb[p] == View(c.mem, root)[p]
  {
    hide VmInv, View, UnmapSome, PageNo;
  }

  // The frame a window page was mapped to by a live allocation that is not the one being freed is none of
  // the frames being released.
  lemma OtherFrame(s: Vm, lv: map<nat, nat>, roots: set<nat>, root: nat, ptr: nat, p: nat)
    requires VmInv(s, lv, roots, root) && ptr in s.live && InWindow(p) && p in View(s.m.mem, root)
    requires !(PageNo(ptr) <= p < PageNo(ptr) + |s.live[ptr]|)
    ensures View(s.m.mem, root)[p].Mapped? && View(s.m.mem, root)[p].phys !in s.live[ptr]
  {
    hide MachineInv, View, RangesLaidOut, Counts, PhysicalBound, PageNo, InWindow, LiveFrame;
    var q: nat, i: nat :| LivePage(s.live, p, q, i);
    var a := s.live[q][i];
    FrameAt(s.live, q, i);
    if a in s.live[ptr] {
      FrameIsLive(s.live, a, ptr);
      assert false;
    }
  }

  lemma FrameAt(live: map<nat, seq<nat>>, ptr: nat, i: nat)
    requires ptr in live && i < |live[ptr]|
    ensures LiveFrame(live, live[ptr][i], ptr, i)
  {
  }

  lemma FrameIsLive(live: map<nat, seq<nat>>, a: nat, ptr: nat)
    requires ptr in live && a in live[ptr]
    ensures exists j :: LiveFrame(live, a, ptr, j)
  {
    var j :| 0 <= j < |live[ptr]| && live[ptr][j] == a;
    FrameAt(live, ptr, j);
  }

  // When the frames go back to the pool, every cached translation is the walk's, and none of a window page
  // leads to a released frame; the state is what the call computes.
  lemma ReleaseIsSafe(c: Cpu, lv: map<nat, nat>, roots: set<nat>, root: nat, c': Cpu)
    requires c.phase.Invalidating? && c.phase.ptr in c.s.live
    requires CpuInv(c, lv, roots, root) && CpuNext(c, root, Release, c')
    ensures forall p :: p in c'.tlb ==> p in View(c'.mem, root) && c'.tlb[p] == View(c'.mem, root)[p]
    ensures forall p :: p in c'.tlb && InWindow(p) ==> c'.tlb[p].Mapped? && c'.tlb[p].phys !in c.s.live[c.phase.ptr]
    ensures FreeResult(c.s, root, c.phase.ptr, |c.s.live[c.phase.ptr]|, c'.s)
    ensures CpuInv(c', lv, roots, root)
  {
    hide VmInv, View, UnmapSome, PageNo, InWindow, PoolCount, PageCount, NearestPageSize, Freeables, PoolRelease,
      ReadFrames, Unmap;
    var ptr := c.phase.ptr;
    AllCoherent(c, lv, roots, root);
    ViewNow(c, lv, roots, root);
    forall p | p in c'.tlb && InWindow(p)
      ensures c'.tlb[p].Mapped? && c'.tlb[p].phys !in c.s.live[ptr]
    {
      OtherFrame(c.s, lv, roots, root, ptr, p);
    }
    ReleaseIsFree(c, lv, roots, root, c');
  }

  // Freeing n pages at ptr in one call leads from s to s'.
  ghost predicate FreeResult(s: Vm, root: nat, ptr: nat, n: nat, s': Vm) {
    && n <= MAX_ALLOC_PAGES
    && forall length: nat :: PageCount(length) == n ==> VirtualAlloc.Free(s, root, ptr, length) == VmRet(s', ())
  }

  lemma ReleaseIsFree(c: Cpu, lv: map<nat, nat>, roots: set<nat>, root: nat, c': Cpu)
    requires c.phase.Invalidating? && c.phase.ptr in c.s.live
    requires CpuInv(c, lv, roots, root) && CpuNext(c, root, Release, c')
    ensures FreeResult(c.s, root, c.phase.ptr, |c.s.live[c.phase.ptr]|, c'.s)
    ensures VmInv(c'.s, lv, roots, root)
  {
    hide VmInv, View, UnmapSome, PageNo, PoolCount, PageCount, NearestPageSize, Freeables, PoolRelease, ReadFrames,
      Unmap, Coherent, PoolContains;
    var ptr := c.phase.ptr;
    var n := |c.s.live[ptr]|;
    FreeSteps(c.s, lv, roots, root, ptr);
    UnmapLive(c.s, lv, roots, root, ptr);
    assert c.s.live[ptr][..n] == c.s.live[ptr];
    forall length: nat | PageCount(length) == n
      ensures VirtualAlloc.Free(c.s, root, ptr, length) == VmRet(c'.s, ())
    {
      LengthPages(length);
      LengthPositive(length);
    }
    FreeReturns(c.s, lv, roots, root, ptr);
  }

  // Every step keeps the invariant.
  lemma CpuStepKeeps(c: Cpu, lv: map<nat, nat>, roots: set<nat>, root: nat, e: CpuStep, c': Cpu)
    requires CpuInv(c, lv, roots, root) && CpuNext(c, root, e, c')
    ensures exists lv' :: CpuInv(c', lv', c'.roots, root)
  {
    hide VmInv, UnmapSome, PageNo, PageAt, UnmapPage, View, FreeDone, Named, VirtualAlloc.Alloc, PoolCount, Freeables,
      PageCount;
    match e {
      case Load(p) => assert CpuInv(c', lv, roots, root);
      case Evict(p) => assert CpuInv(c', lv, roots, root);
      case CallMap(op) => MapKeepsTlb(c, lv, roots, root, op, c');
      case CallOther(op) => OtherKeepsTlb(c, lv, roots, root, op, c');
      case CallChild(parent) => ChildKeepsTlb(c, lv, roots, root, parent, c');
      case CallAlloc(length) => AllocKeepsTlb(c, lv, roots, root, length, c');
      case BeginFree(ptr, length) => BeginKeepsTlb(c, lv, roots, root, ptr, length, c');
      case UnmapNext => UnmapKeepsTlb(c, lv, roots, root, c');
      case UnmapEnd => assert CpuInv(c', lv, roots, root);
      case InvalidateNext => InvalidateKeepsTlb(c, lv, roots, root, c');
      case Release => ReleaseIsSafe(c, lv, roots, root, c');
    }
  }

  lemma AllocKeepsTlb(c: Cpu, lv: map<nat, nat>, roots: set<nat>, root: nat, length: nat, c': Cpu)
    requires CpuInv(c, lv, roots, root) && CpuNext(c, root, CallAlloc(length), c')
    ensures exists lv' :: CpuInv(c', lv', roots, root)
  {
    hide VmInv, PageNo, View, PageCount, Named, VirtualAlloc.Alloc, PoolFree, AllocOutcome;
    AllocKeeps(c.s, lv, roots, root, length);
    var lv' :| VmInv(c'.s, lv', roots, root);
    assert CpuInv(c', lv', roots, root);
  }

  // New translations beside the old ones leave the TLB coherent.
  lemma MoreMapped(c: Cpu, lv: map<nat, nat>, roots: set<nat>, root: nat, c': Cpu, lv': map<nat, nat>)
    requires CpuInv(c, lv, roots, root) && c.phase.Idle?
    requires c' == c.(s := c'.s, roots := c'.roots, mem := c'.s.m.mem) && VmInv(c'.s, lv', c'.roots, root)
    requires Adds(View(c.mem, root), View(c'.mem, root))
    ensures CpuInv(c', lv', c'.roots, root)
  {
    hide VmInv, View, PageNo;
  }

  lemma MapKeepsTlb(c: Cpu, lv: map<nat, nat>, roots: set<nat>, root: nat, op: PtOp, c': Cpu)
    requires CpuInv(c, lv, roots, root) && CpuNext(c, root, CallMap(op), c')
    ensures exists lv' :: CpuInv(c', lv', c'.roots, root)
  {
    hide VmInv, View, PageNo, Outside, PtStep, Coherent, CpuInv, MachineInv, StepOk;
    assert CpuInv(c, lv, roots, root);
    MapParts(c, lv, roots, root);
    TableKeeps(c.s, lv, roots, root, op);
    var lv' :| VmInv(c'.s, lv', roots, root);
    Rooted(c.s, lv, roots, root);
    StepRefines(c.s.m, lv, roots, op);
    var lv1 :| StepOk(c.s.m, roots, op, c'.s.m, lv1);
    MapAdds(c.s.m, roots, root, op, c'.s.m, lv1);
    MoreMapped(c, lv, roots, root, c', lv');
  }

  lemma MapParts(c: Cpu, lv: map<nat, nat>, roots: set<nat>, root: nat)
    requires CpuInv(c, lv, roots, root)
    ensures c.roots == roots && VmInv(c.s, lv, roots, root) && (c.phase.Idle? ==> c.mem == c.s.m.mem)
  {
    hide VmInv, Coherent;
  }

  lemma FlatMapAdds(view: Flat, own: Flat, slots: set<nat>, op: PtOp)
    requires op.DoMap? && PageNo(op.virt) !in view
    ensures Adds(view, FlatStep(view, op)) && Adds(view, FlatStepShared(own, view, slots, op))
  {
    hide PageNo, FlatMapCode, Index;
  }

  // Mapping an absent page adds translations, whichever map it is done in.
  lemma MapAdds(m: Machine, roots: set<nat>, root: nat, op: PtOp, m': Machine, lv': map<nat, nat>)
    requires StepOk(m, roots, op, m', lv') && root in roots && op.DoMap? && PageNo(op.virt) !in View(m.mem, root)
    ensures Adds(View(m.mem, root), View(m'.mem, root))
  {
    hide View, MachineInv, RootsStay, FlatStep, FlatStepShared, SharedSlots, SharingOf, PageNo, Adds;
    FlatMapAdds(View(m.mem, root), View(m.mem, op.root), SharedSlots(m.mem, op.root, root), op);
  }

  lemma Rooted(s: Vm, lv: map<nat, nat>, roots: set<nat>, root: nat)
    requires VmInv(s, lv, roots, root)
    ensures MachineInv(s.m, lv, roots) && root in roots
  {
  }

  // mapPage does not invalidate: mapping any page of the kernel's map leaves the TLB coherent exactly when it does
  // not hold another translation of that page.
  lemma RemapExact(c: Cpu, lv: map<nat, nat>, roots: set<nat>, root: nat, op: PtOp, c': Cpu)
    requires CpuInv(c, lv, roots, root) && c.phase.Idle? && op.DoMap? && op.root == root
    requires PtStep(c.s.m, op).Ret?
    requires c' == c.(s := c.s.(m := PtStep(c.s.m, op).m), mem := PtStep(c.s.m, op).m.mem)
    ensures var p := PageNo(op.virt);
            Coherent(c', root) <==>
              (FlatMapCode(View(c.mem, root), op.virt) == 0 && p in c.tlb ==>
                 c.tlb[p] == Mapped(DecodeAddr(op.phys), Normalised(op.mode), 1))
  {
    hide VmInv, View, PageNo, PtStep, MachineInv, StepOk, FlatMapCode, DecodeAddr, Normalised;
    MapParts(c, lv, roots, root);
    Rooted(c.s, lv, roots, root);
    StepRefines(c.s.m, lv, roots, op);
    var lv1 :| StepOk(c.s.m, roots, op, c'.s.m, lv1);
    OwnView(c.s.m, roots, op, c'.s.m, lv1);
  }

  lemma OwnView(m: Machine, roots: set<nat>, op: PtOp, m': Machine, lv': map<nat, nat>)
    requires StepOk(m, roots, op, m', lv') && op.DoMap?
    ensures View(m'.mem, op.root) == FlatMapPage(View(m.mem, op.root), op.phys, op.virt, op.mode)
  {
    hide View, MachineInv, RootsStay, FlatMapPage, FlatStepShared, SharedSlots, SharingOf;
  }

  lemma OtherKeepsTlb(c: Cpu, lv: map<nat, nat>, roots: set<nat>, root: nat, op: PtOp, c': Cpu)
    requires CpuInv(c, lv, roots, root) && CpuNext(c, root, CallOther(op), c')
    ensures exists lv' :: CpuInv(c', lv', c'.roots, root)
  {
    hide VmInv, View, PageNo, Outside, PtStep, Coherent, LowerHalf;
    LowerIsOutside(op);
    TableKeeps(c.s, lv, roots, root, op);
    var lv' :| VmInv(c'.s, lv', roots, root);
    Rooted(c.s, lv, roots, root);
    StepIsolated(c.s.m, lv, roots, op, root);
    MoreMapped(c, lv, roots, root, c', lv');
  }

  // The window is in the upper half.
  lemma LowerIsOutside(op: PtOp)
    requires LowerHalf(op)
    ensures Outside(op)
  {
    hide Touches;
    forall v: nat | Touches(op, v)
      ensures !InWindow(PageNo(v))
    {
      assert Index(v, 4) < 256;
      LowerPage(v);
    }
  }

  lemma LowerPage(v: nat)
    requires Index(v, 4) < 256
    ensures !InWindow(PageNo(v))
  {
    var low := Low48(v);
    DivEquation(low, 0x80_0000_0000);
    assert low / 0x80_0000_0000 < 512;
    DivUnique(low / 0x80_0000_0000, 512, 0, low / 0x80_0000_0000);
    DivEquation(low, PAGE);
  }

  lemma ChildKeepsTlb(c: Cpu, lv: map<nat, nat>, roots: set<nat>, root: nat, parent: nat, c': Cpu)
    requires CpuInv(c, lv, roots, root) && CpuNext(c, root, CallChild(parent), c')
    ensures exists lv' :: CpuInv(c', lv', c'.roots, root)
  {
    hide VmInv, View, PageNo, Coherent, NewChild, MachineInv, SharedSlot, Walk;
    ChildKeeps(c.s, lv, roots, root, parent);
    var lv' :| VmInv(c'.s, lv', c'.roots, root);
    Rooted(c.s, lv, roots, root);
    ChildSharesUpper(c.s.m, lv, roots, parent);
    SameView(c.mem, c'.mem, root);
    MoreMapped(c, lv, roots, root, c', lv');
  }

  lemma BeginKeepsTlb(c: Cpu, lv: map<nat, nat>, roots: set<nat>, root: nat, ptr: nat, length: nat, c': Cpu)
    requires CpuInv(c, lv, roots, root) && CpuNext(c, root, BeginFree(ptr, length), c')
    ensures CpuInv(c', lv, roots, root)
  {
    hide VmInv, PageNo, View, PageCount;
  }

  // ----- runs -----

  ghost predicate CpuRun(run: seq<Cpu>, steps: seq<CpuStep>, root: nat) {
    && |run| == |steps| + 1
    && forall k :: 0 <= k < |steps| ==> CpuNext(run[k], root, steps[k], run[k + 1])
  }

  ghost predicate Kept(c: Cpu, root: nat) {
    exists lv :: CpuInv(c, lv, c.roots, root)
  }

  lemma {:induction false} RunKeeps(run: seq<Cpu>, steps: seq<CpuStep>, root: nat, k: nat)
    requires CpuRun(run, steps, root) && k < |run| && Kept(run[0], root)
    ensures Kept(run[k], root)
  {
    hide CpuInv, CpuNext;
    if k == 0 {
    } else {
      RunKeeps(run, steps, root, k - 1);
      var lv :| CpuInv(run[k - 1], lv, run[k - 1].roots, root);
      CpuStepKeeps(run[k - 1], lv, run[k - 1].roots, root, steps[k - 1], run[k]);
    }
  }

  // No cached translation disagrees with the walk, and none of a window page leads to one of the frames.
  ghost predicate NoneStale(c: Cpu, root: nat, frames: seq<nat>) {
    && (forall p :: p in c.tlb ==> p in View(c.mem, root) && c.tlb[p] == View(c.mem, root)[p])
    && (forall p :: p in c.tlb && InWindow(p) ==> c.tlb[p].Mapped? && c.tlb[p].phys !in frames)
  }

  // The main result: in every run that starts without a call in progress and with a coherent TLB, whenever
  // VFree hands frames back no cached translation is stale or leads to them.
  lemma FreedFramesUncached(run: seq<Cpu>, steps: seq<CpuStep>, root: nat, k: nat)
    requires CpuRun(run, steps, root) && Kept(run[0], root)
    requires k < |steps| && steps[k] == Release
    ensures run[k].phase.Invalidating? && run[k].phase.ptr in run[k].s.live
    ensures NoneStale(run[k + 1], root, run[k].s.live[run[k].phase.ptr])
    ensures FreeResult(run[k].s, root, run[k].phase.ptr, |run[k].s.live[run[k].phase.ptr]|, run[k + 1].s)
  {
    hide CpuInv, CpuNext, FreeResult, View, InWindow;
    RunKeeps(run, steps, root, k);
    var lv :| CpuInv(run[k], lv, run[k].roots, root);
    assert CpuNext(run[k], root, Release, run[k + 1]);
    ReleasePhase(run[k], root, run[k + 1]);
    ReleaseIsSafe(run[k], lv, run[k].roots, root, run[k + 1]);
  }

  lemma ReleasePhase(c: Cpu, root: nat, c': Cpu)
    requires CpuNext(c, root, Release, c')
    ensures c.phase.Invalidating? && c.phase.ptr in c.s.live
  {
  }

  // The order matters: if any page of a live range has been loaded before the free began and nothing was
  // evicted, then after all pages are unmapped, and before they are invalidated, the TLB still leads to
  // the page's frame although the walk no longer does.
  lemma {:induction false} StaleWithoutInvalidate(c: Cpu, lv: map<nat, nat>, roots: set<nat>, root: nat, ptr: nat,
                                                  i: nat, n: nat)
    requires CpuInv(c, lv, roots, root) && c.phase.Idle? && ptr in c.s.live
    requires i < |c.s.live[ptr]| && n <= |c.s.live[ptr]|
    ensures exists run, steps :: StaleRun(run, steps, c, root, ptr, i, n)
  {
    hide CpuInv, StaleRun;
    if n == 0 {
      StaleStart(c, lv, roots, root, ptr, i);
    } else {
      StaleWithoutInvalidate(c, lv, roots, root, ptr, i, n - 1);
      var run: seq<Cpu>, steps: seq<CpuStep> :| StaleRun(run, steps, c, root, ptr, i, n - 1);
      StaleNext(c, lv, roots, root, ptr, i, n, run, steps);
    }
  }

  lemma StaleStart(c: Cpu, lv: map<nat, nat>, roots: set<nat>, root: nat, ptr: nat, i: nat)
    requires CpuInv(c, lv, roots, root) && c.phase.Idle? && ptr in c.s.live && i < |c.s.live[ptr]|
    ensures exists run, steps :: StaleRun(run, steps, c, root, ptr, i, 0)
  {
    hide VmInv, View, UnmapSome, PageNo, Coherent, PageCount, WindowMapped;
    InvWindow(c.s, lv, roots, root);
    LiveIsMapped(c.s, root, ptr, i);
    LengthOf(c.s, lv, roots, root, ptr);
    UnmapNone(c.s.m.mem, root, ptr);
    var p := PageNo(ptr) + i;
    var loaded := c.(tlb := c.tlb[p := View(c.mem, root)[p]]);
    var length: nat := |c.s.live[ptr]| * PAGE;
    var run, steps := [c, loaded, loaded.(phase := Unmapping(ptr, 0))], [Load(p), BeginFree(ptr, length)];
    assert CpuNext(run[0], root, steps[0], run[1]);
    assert CpuNext(run[1], root, steps[1], run[2]);
    assert StaleRun(run, steps, c, root, ptr, i, 0);
  }

  lemma StaleNext(c: Cpu, lv: map<nat, nat>, roots: set<nat>, root: nat, ptr: nat, i: nat, n: nat,
                  run: seq<Cpu>, steps: seq<CpuStep>)
    requires CpuInv(c, lv, roots, root) && ptr in c.s.live && 1 <= n <= |c.s.live[ptr]|
    requires StaleRun(run, steps, c, root, ptr, i, n - 1)
    ensures exists run', steps' :: StaleRun(run', steps', c, root, ptr, i, n)
  {
    hide VmInv, View, UnmapSome, PageNo, PageAt, UnmapPage, Coherent;
    var last := run[|run| - 1];
    UnmapLiveSome(c.s, lv, roots, root, ptr, n - 1);
    UnmapLiveSome(c.s, lv, roots, root, ptr, n);
    UnmapUnfold(c.s.m.mem, root, ptr, n);
    var r := UnmapPage(last.mem, root, PageAt(ptr, n - 1), true);
    var next := last.(mem := r.mem, phase := Unmapping(ptr, n));
    assert CpuNext(last, root, UnmapNext, next);
    CpuRunSnoc(run, steps, root, UnmapNext, next);
    assert StaleRun(run + [next], steps + [UnmapNext], c, root, ptr, i, n);
  }

  lemma CpuRunSnoc(run: seq<Cpu>, steps: seq<CpuStep>, root: nat, e: CpuStep, next: Cpu)
    requires CpuRun(run, steps, root) && CpuNext(run[|run| - 1], root, e, next)
    ensures CpuRun(run + [next], steps + [e], root)
  {
  }

  ghost predicate StaleRun(run: seq<Cpu>, steps: seq<CpuStep>, c: Cpu, root: nat, ptr: nat, i: nat, n: nat) {
    && CpuRun(run, steps, root) && run[0] == c && ptr in c.s.live && i < |c.s.live[ptr]|
    && var last := run[|run| - 1];
       && last.s == c.s && last.phase == Unmapping(ptr, n) && last.mem == UnmapSome(c.s.m.mem, root, ptr, n).mem
       && PageNo(ptr) + i in last.tlb && last.tlb[PageNo(ptr) + i] == Mapped(c.s.live[ptr][i], KERNEL_PAGE, 1)
       && (n > i ==> PageNo(ptr) + i !in View(last.mem, root))
  }

  lemma UnmapUnfold(mem: Mem, root: nat, virt: nat, n: nat)
    requires n > 0 && UnmapSome(mem, root, virt, n - 1).code >= 0
    ensures var r := UnmapPage(UnmapSome(mem, root, virt, n - 1).mem, root, PageAt(virt, n - 1), true);
            UnmapSome(mem, root, virt, n) == Cleared(r.mem, if r.code < 0 then r.code else 0)
  {
  }

  lemma InvWindow(s: Vm, lv: map<nat, nat>, roots: set<nat>, root: nat)
    requires VmInv(s, lv, roots, root)
    ensures WindowMapped(s, View(s.m.mem, root))
  {
  }

  lemma LiveIsMapped(s: Vm, root: nat, ptr: nat, i: nat)
    requires ptr in s.live && i < |s.live[ptr]| && WindowMapped(s, View(s.m.mem, root))
    ensures var p := PageNo(ptr) + i;
              p in View(s.m.mem, root) && View(s.m.mem, root)[p] == Mapped(s.live[ptr][i], KERNEL_PAGE, 1)
  {
    hide View, PageNo;
    assert LivePage(s.live, PageNo(ptr) + i, ptr, i);
  }

  lemma UnmapNone(mem: Mem, root: nat, virt: nat)
    ensures UnmapSome(mem, root, virt, 0).mem == mem
  {
  }

  lemma LengthOf(s: Vm, lv: map<nat, nat>, roots: set<nat>, root: nat, ptr: nat)
    requires VmInv(s, lv, roots, root) && ptr in s.live
    ensures PageCount(|s.live[ptr]| * PAGE) == |s.live[ptr]|
  {
    var n := |s.live[ptr]|;
    DivUnique(n * PAGE, PAGE, n, 0);
  }
}

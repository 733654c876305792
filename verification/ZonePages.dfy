// A zone over the page allocator: its regions are what VAlloc answers, in the middle of everything else the
// kernel does with VAlloc, VFree and page tables.
module ZonePages {
  import opened Division
  import opened PageEntries
  import opened PageWalk
  import opened PageTables
  import opened PageMap
  import opened VirtualAlloc
  import opened VirtualAllocSteps
  import opened VirtualRuns
  import Regions
  import opened Pools
  import Zones

  datatype System = System(s: Vm, roots: set<nat>, w: Zones.World)

  datatype SystemEvent = ZoneAlloc | ZoneFree(ptr: nat, stepping: bool) | Kernel(e: VmEvent)

  // alloc asks VAlloc for a region when every region is full; nobody frees the zone's regions.
  ghost predicate SystemNext(z: Zones.Shape, root: nat, a: System, e: SystemEvent, b: System)
    requires Zones.ValidShape(z)
  {
    match e
    case ZoneAlloc =>
      if Zones.FindSpace(a.w.zs) < |a.w.zs| then b.s == a.s && b.roots == a.roots && Zones.Allocates(z, a.w, 0, b.w)
      else
        && Allowed(a.s, a.roots, DoAlloc(z.regionSize))
        && var r := VirtualAlloc.Alloc(a.s, root, z.regionSize);
           r.VmRet? && b.s == r.s && b.roots == a.roots && Zones.Allocates(z, a.w, r.value, b.w)
    case ZoneFree(ptr, stepping) =>
      b.s == a.s && b.roots == a.roots && Zones.Next(z, a.w, Zones.DoFree(ptr, stepping), b.w)
    case Kernel(event) =>
      && Allowed(a.s, a.roots, event) && (event.DoFree? ==> !IsRegion(a.w.zs, event.ptr))
      && var r := VmStep(a.s, a.roots, root, event);
         r.VmRet? && b.s == r.s && b.roots == r.value && b.w == a.w
  }

  ghost predicate IsRegion(zs: Zones.ZoneState, ptr: nat) {
    exists k :: 0 <= k < |zs| && zs[k].base == ptr
  }

  // Every region of the zone is a live range of its size.
  ghost predicate Backed(z: Zones.Shape, s: Vm, zs: Zones.ZoneState) {
    forall k :: 0 <= k < |zs| ==> zs[k].base in s.live && |s.live[zs[k].base]| == PageCount(z.regionSize)
  }

  ghost predicate SystemInv(z: Zones.Shape, root: nat, a: System, lv: map<nat, nat>)
    requires Zones.ValidShape(z)
  {
    VmInv(a.s, lv, a.roots, root) && Zones.Good(z, a.w) && Backed(z, a.s, a.w.zs)
  }

  // ----- live ranges -----

  lemma LaidOut(s: Vm, lv: map<nat, nat>, roots: set<nat>, root: nat)
    requires VmInv(s, lv, roots, root)
    ensures RangesLaidOut(s) && s.cursor !in s.live
  {
    hide MachineInv, WindowMapped, OneOwner, Counts, PhysicalBound, View;
    CursorNotLive(s);
  }

  // Different live ranges do not overlap.
  lemma RangesApart(z: Zones.Shape, s: Vm, p: nat, q: nat)
    requires RangesLaidOut(s) && p in s.live && q in s.live && p != q
    requires |s.live[p]| == PageCount(z.regionSize) && |s.live[q]| == PageCount(z.regionSize)
    ensures Zones.Apart(z, p, q)
  {
    LengthPages(z.regionSize);
    var j :| 0 <= j < |s.ranges| && s.ranges[j] == Range(p, |s.live[p]|);
    var k :| 0 <= k < |s.ranges| && s.ranges[k] == Range(q, |s.live[q]|);
    assert j < k ==> p + Extent(|s.live[p]|) <= q;
    assert k < j ==> q + Extent(|s.live[q]|) <= p;
  }

  // What an event does to the live ranges: it adds one, or removes the one it names, or leaves them.
  lemma LiveAfterStep(s: Vm, lv: map<nat, nat>, roots: set<nat>, root: nat, e: VmEvent)
    requires VmInv(s, lv, roots, root) && Allowed(s, roots, e) && VmStep(s, roots, root, e).VmRet?
    ensures var t := VmStep(s, roots, root, e).s;
            forall p :: p in s.live && !(e.DoFree? && e.ptr == p) ==> p in t.live && t.live[p] == s.live[p]
  {
    hide VmInv, Outside, Named, PageCount, VirtualAlloc.Alloc, VirtualAlloc.Free, View, PoolFree;
    if e.DoAlloc? {
      LaidOut(s, lv, roots, root);
      AllocKeeps(s, lv, roots, root, e.length);
    } else if e.DoFree? {
      FreeLive(s, root, e.ptr, e.length);
    }
  }

  lemma FreeLive(s: Vm, root: nat, ptr: nat, length: nat)
    requires PageCount(length) <= MAX_ALLOC_PAGES && VirtualAlloc.Free(s, root, ptr, length).VmRet?
    ensures VirtualAlloc.Free(s, root, ptr, length).s.live == s.live - {ptr}
  {
  }

  // ----- steps -----

  // The address VAlloc answers for a new region is apart from every other region.
  lemma NewRegionApart(z: Zones.Shape, root: nat, a: System, lv: map<nat, nat>)
    requires Zones.ValidShape(z) && SystemInv(z, root, a, lv) && Allowed(a.s, a.roots, DoAlloc(z.regionSize))
    requires VirtualAlloc.Alloc(a.s, root, z.regionSize).VmRet?
    ensures var r := VirtualAlloc.Alloc(a.s, root, z.regionSize);
            && (exists lv' :: VmInv(r.s, lv', a.roots, root)) && Backed(z, r.s, a.w.zs)
            && (r.value > 0 ==> r.value in r.s.live && |r.s.live[r.value]| == PageCount(z.regionSize))
            && (r.value > 0 ==> forall k :: 0 <= k < |a.w.zs| ==> Zones.Apart(z, a.w.zs[k].base, r.value))
  {
    hide VmInv, Named, PageCount, VirtualAlloc.Alloc, View, PoolFree, Zones.Good, Zones.Apart, RangesLaidOut;
    var r := VirtualAlloc.Alloc(a.s, root, z.regionSize);
    LaidOut(a.s, lv, a.roots, root);
    AllocKeeps(a.s, lv, a.roots, root, z.regionSize);
    var lv' :| VmInv(r.s, lv', a.roots, root);
    LaidOut(r.s, lv', a.roots, root);
    CursorPositive(a.s);
    if r.value > 0 {
      forall k | 0 <= k < |a.w.zs|
        ensures Zones.Apart(z, a.w.zs[k].base, r.value)
      {
        RangesApart(z, r.s, a.w.zs[k].base, r.value);
      }
    }
  }

  lemma CursorPositive(s: Vm)
    requires RangesLaidOut(s)
    ensures s.cursor > 0
  {
  }

  lemma BackedAfter(z: Zones.Shape, s: Vm, w: Zones.World, base: nat, w': Zones.World)
    requires Zones.ValidShape(z) && Backed(z, s, w.zs) && Zones.Allocates(z, w, base, w')
    requires Zones.FindSpace(w.zs) == |w.zs| ==> base in s.live && |s.live[base]| == PageCount(z.regionSize)
    ensures Backed(z, s, w'.zs)
  {
    hide PageCount, Zones.NumItems;
  }

  lemma FreeKeepsBases(z: Zones.Shape, s: Vm, w: Zones.World, ptr: nat, stepping: bool, w': Zones.World)
    requires Zones.ValidShape(z) && Zones.Good(z, w) && Backed(z, s, w.zs)
    requires Zones.Next(z, w, Zones.DoFree(ptr, stepping), w')
    ensures Backed(z, s, w'.zs)
  {
    hide PageCount, Zones.Live, Zones.Inv, Zones.Storable, Zones.FreeAsWritten, Zones.IndexFor;
    Zones.FreeSpec(z, w.zs, ptr);
    Zones.FreeAsWrittenExact(z, w.zs, ptr);
  }

  lemma SystemKeeps(z: Zones.Shape, root: nat, a: System, lv: map<nat, nat>, e: SystemEvent, b: System)
    requires Zones.ValidShape(z) && SystemInv(z, root, a, lv) && SystemNext(z, root, a, e, b)
    ensures exists lv' :: SystemInv(z, root, b, lv')
  {
    hide VmInv, Named, PageCount, VirtualAlloc.Alloc, Zones.Good, Zones.Allocates, VmStep, Backed;
    match e {
      case ZoneAlloc =>
        if Zones.FindSpace(a.w.zs) < |a.w.zs| {
          Zones.NextKeeps(z, a.w, Zones.DoAlloc(0), b.w);
          BackedAfter(z, a.s, a.w, 0, b.w);
          assert SystemInv(z, root, b, lv);
        } else {
          var base := VirtualAlloc.Alloc(a.s, root, z.regionSize).value;
          NewRegionApart(z, root, a, lv);
          var lv' :| VmInv(b.s, lv', b.roots, root);
          NeedsRegion(z, a.w, base, b.w);
          Zones.NextKeeps(z, a.w, Zones.DoAlloc(base), b.w);
          BackedAfter(z, b.s, a.w, base, b.w);
          assert SystemInv(z, root, b, lv');
        }
      case ZoneFree(ptr, stepping) =>
        Zones.NextKeeps(z, a.w, Zones.DoFree(ptr, stepping), b.w);
        FreeKeepsBases(z, a.s, a.w, ptr, stepping, b.w);
        assert SystemInv(z, root, b, lv);
      case Kernel(event) =>
        VmStepKeeps(a.s, lv, a.roots, root, event);
        var lv' :| StepKept(a.s, root, b.s, b.roots, lv');
        LiveAfterStep(a.s, lv, a.roots, root, event);
        StillBacked(z, a.s, a.w.zs, event, b.s);
        assert SystemInv(z, root, b, lv');
    }
  }

  lemma NeedsRegion(z: Zones.Shape, w: Zones.World, base: nat, w': Zones.World)
    requires Zones.ValidShape(z) && Zones.FindSpace(w.zs) == |w.zs| && Zones.Allocates(z, w, base, w')
    ensures base > 0
  {
  }

  lemma StillBacked(z: Zones.Shape, s: Vm, zs: Zones.ZoneState, e: VmEvent, t: Vm)
    requires Backed(z, s, zs) && (e.DoFree? ==> !IsRegion(zs, e.ptr))
    requires forall p :: p in s.live && !(e.DoFree? && e.ptr == p) ==> p in t.live && t.live[p] == s.live[p]
    ensures Backed(z, t, zs)
  {
    hide PageCount;
  }

  // ----- whole runs -----

  ghost predicate SystemRun(z: Zones.Shape, root: nat, run: seq<System>, events: seq<SystemEvent>)
    requires Zones.ValidShape(z)
  {
    |run| == |events| + 1 && forall k :: 0 <= k < |events| ==> SystemNext(z, root, run[k], events[k], run[k + 1])
  }

  lemma {:induction false} SystemRunKeeps(z: Zones.Shape, lv: map<nat, nat>, root: nat, run: seq<System>,
                                          events: seq<SystemEvent>, k: nat)
    requires Zones.ValidShape(z) && SystemRun(z, root, run, events) && k < |run|
    requires Booted(run[0].s, lv, run[0].roots, root) && run[0].w == Zones.World([], {})
    ensures exists lv' :: SystemInv(z, root, run[k], lv')
  {
    hide SystemNext, VmInv, Booted;
    if k == 0 {
      BootedInv(run[0].s, lv, run[0].roots, root);
      EmptyZone(z, run[0].w);
      assert SystemInv(z, root, run[0], lv);
    } else {
      hide SystemInv;
      SystemRunKeeps(z, lv, root, run, events, k - 1);
      var lv1 :| SystemInv(z, root, run[k - 1], lv1);
      SystemKeeps(z, root, run[k - 1], lv1, events[k - 1], run[k]);
    }
  }

  lemma EmptyZone(z: Zones.Shape, w: Zones.World)
    requires Zones.ValidShape(z) && w == Zones.World([], {})
    ensures Zones.Good(z, w)
  {
  }

  // The address translates to memory the kernel can read and write, every table on the way allowing it, and user
  // space cannot.
  ghost predicate ByteMapped(s: Vm, root: nat, addr: nat) {
    var t := Walk(s.m.mem, root, addr);
    && t.Mapped? && t.level == 1
    && t.mode.kernelRead && t.mode.kernelWrite
    && !t.mode.userRead && !t.mode.userWrite && !t.mode.userExec
    && AllowsWrites(s.m.mem, root, 4, addr)
  }

  // A byte of a held object is a byte of a page of a live range.
  lemma ObjectByte(z: Zones.Shape, a: System, p: nat, b: nat) returns (r: nat, i: nat, x: nat)
    requires Zones.ValidShape(z) && Zones.Good(z, a.w) && Backed(z, a.s, a.w.zs) && p in a.w.held && b < z.size
    ensures r in a.s.live && i < |a.s.live[r]| && x < PAGE && p + b == r + i * PAGE + x
  {
    hide PageCount, Zones.Inv, Zones.NumItems, Zones.Slot, Zones.Holds, Zones.IndexFor;
    assert Zones.Live(z, a.w.zs, p);
    var k: nat, j: nat :| Zones.InUse(z, a.w.zs, p, k, j);
    r := a.w.zs[k].base;
    InsideRegion(z, a.w.zs, p, k, j);
    LengthPages(z.regionSize);
    var off := p + b - r;
    i, x := off / PAGE, off % PAGE;
    DivEquation(off, PAGE);
    assert off < PageCount(z.regionSize) * PAGE;
  }

  lemma InsideRegion(z: Zones.Shape, zs: Zones.ZoneState, p: nat, k: nat, j: nat)
    requires Zones.ValidShape(z) && Zones.Inv(z, zs) && Zones.InUse(z, zs, p, k, j)
    ensures zs[k].base <= p && p + z.size <= zs[k].base + z.regionSize
  {
    Zones.LiveDisjoint(z, zs, p, k, j, p, k, j);
  }

  lemma LiveByteMapped(s: Vm, lv: map<nat, nat>, roots: set<nat>, root: nat, r: nat, i: nat, x: nat)
    requires VmInv(s, lv, roots, root) && r in s.live && i < |s.live[r]| && x < PAGE
    ensures Walk(s.m.mem, root, r + i * PAGE + x) == Mapped(s.live[r][i] + x, KERNEL_PAGE, 1)
    ensures ByteMapped(s, root, r + i * PAGE + x)
  {
    hide MachineInv, OneOwner, Counts, PhysicalBound, View, Walk, AllowsWrites;
    LiveByte(s, root, r, i, x);
    MayWrite(s.m, lv, roots, root, r + i * PAGE + x);
  }

  // Frames are page aligned and back one page each, so a physical address tells the page and the byte.
  lemma FramesTellBytes(s: Vm, lv: map<nat, nat>, roots: set<nat>, root: nat, r: nat, i: nat, x: nat, r': nat, i': nat,
                        x': nat)
    requires VmInv(s, lv, roots, root)
    requires r in s.live && i < |s.live[r]| && x < PAGE && r' in s.live && i' < |s.live[r']| && x' < PAGE
    requires s.live[r][i] + x == s.live[r'][i'] + x'
    ensures r == r' && i == i' && x == x'
  {
    hide VmInv;
    FrameAligned(s, lv, roots, root, r, i);
    FrameAligned(s, lv, roots, root, r', i');
    NoAlias(s, lv, roots, root);
    var f, g := s.live[r][i], s.live[r'][i'];
    DivUnique(f + x, PAGE, f / PAGE, x);
    DivUnique(g + x', PAGE, g / PAGE, x');
    assert LiveFrame(s.live, f, r, i) && LiveFrame(s.live, g, r', i');
  }

  lemma NoAlias(s: Vm, lv: map<nat, nat>, roots: set<nat>, root: nat)
    requires VmInv(s, lv, roots, root)
    ensures Unaliased(s.live)
  {
    hide MachineInv, RangesLaidOut, WindowMapped, Counts, PhysicalBound, View;
  }

  lemma FrameAligned(s: Vm, lv: map<nat, nat>, roots: set<nat>, root: nat, r: nat, i: nat)
    requires VmInv(s, lv, roots, root) && r in s.live && i < |s.live[r]|
    ensures s.live[r][i] % PAGE == 0
  {
    assert LiveFrame(s.live, s.live[r][i], r, i);
    hide Shape, RangesLaidOut, WindowMapped, Counts, PhysicalBound, View, PoolFree;
    PoolPageAligned(s.m.pool, s.live[r][i]);
  }

  lemma PoolPageAligned(ps: PoolState, a: nat)
    requires PoolInv(ps) && IsPoolPage(ps, a)
    ensures a % PAGE == 0
  {
    var i: nat :| i < |ps| && Regions.IsPage(ps[i].g, a);
    PageBounds(ps[i].g, a);
  }

  // The main result. In every run of zone and page operations from boot, every byte of every object that is
  // held is mapped as kernel memory, and no two different bytes of held objects are the same physical byte.
  lemma ObjectsAreMemory(z: Zones.Shape, lv: map<nat, nat>, root: nat, run: seq<System>, events: seq<SystemEvent>,
                         k: nat,
                         p: nat, b: nat, q: nat, c: nat)
    requires Zones.ValidShape(z) && SystemRun(z, root, run, events) && k < |run|
    requires Booted(run[0].s, lv, run[0].roots, root) && run[0].w == Zones.World([], {})
    requires p in run[k].w.held && b < z.size && q in run[k].w.held && c < z.size
    ensures ByteMapped(run[k].s, root, p + b)
    ensures Walk(run[k].s.m.mem, root, p + b) == Walk(run[k].s.m.mem, root, q + c) ==> p == q && b == c
  {
    hide SystemRun, VmInv, Booted, Zones.Good, Backed, Walk, View, ByteMapped;
    SystemRunKeeps(z, lv, root, run, events, k);
    var lv' :| SystemInv(z, root, run[k], lv');
    var s := run[k].s;
    var r, i, x := ObjectByte(z, run[k], p, b);
    var r', i', x' := ObjectByte(z, run[k], q, c);
    LiveByteMapped(s, lv', run[k].roots, root, r, i, x);
    LiveByteMapped(s, lv', run[k].roots, root, r', i', x');
    if Walk(s.m.mem, root, p + b) == Walk(s.m.mem, root, q + c) {
      FramesTellBytes(s, lv', run[k].roots, root, r, i, x, r', i', x');
      if p != q {
        Zones.HeldApart(z, run[k].w, p, q);
      }
    }
  }
}

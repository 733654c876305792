// VAlloc and VFree (Vm/PageAllocator.cpp): a cursor over a window of the kernel map, tying physical
// frames and page table entries together.
module VirtualAlloc {
  import opened Division
  import opened PageEntries
  import opened PageWalk
  import opened FreeBits
  import opened Regions
  import opened Pools
  import opened PageTables
  import opened PageMap
  import opened PageUnmap

  const VALLOC_START: nat := 0xFFFF_9000_0000_0000
  const VALLOC_END: nat := 0xFFFF_90FF_FFFF_FFFF
  const NUM_GUARD_PAGES: nat := 2
  const MAX_ALLOC_PAGES: nat := 16

  // A range that was handed out at some time: its start and its number of pages.
  datatype Range = Range(ptr: nat, count: nat)

  // The kernel map's memory, the allocator's two counters and, for the specification, what happened so
  // far: the frames behind each live allocation, every range ever handed out, and the frames a refused
  // request did not get back. `advances` says whether the pool advances its output pointer between regions,
  // as it was meant to.
  datatype Vm = Vm(m: Machine, cursor: nat, pages: int, live: map<nat, seq<nat>>, ranges: seq<Range>, lost: set<nat>,
                   advances: bool)

  datatype VmResult<T> = VmPanic | VmRet(s: Vm, value: T)

  // NearestPageSize
  function NearestPageSize(length: nat): nat {
    if length % PAGE != 0 then length + (PAGE - length % PAGE) else length
  }

  function PageCount(length: nat): nat {
    NearestPageSize(length) / PAGE
  }

  // The loop that maps the first n frames at consecutive pages; any error is fatal.
  function MapFrames(m: Machine, root: nat, frames: seq<nat>, virt: nat, n: nat): Step
    requires n <= |frames|
  {
    if n == 0 then Ret(m, 0)
    else
      match MapFrames(m, root, frames, virt, n - 1)
      case Panic => Panic
      case Ret(m1, _) =>
        match MapPage(m1, root, frames[n - 1], virt + (n - 1) * PAGE, KERNEL_RW)
        case Panic => Panic
        case Ret(m2, code) => if code != 0 then Panic else Ret(m2, 0)
  }

  function Buffer(): (b: seq<nat>)
    ensures |b| == MAX_ALLOC_PAGES
  {
    seq(MAX_ALLOC_PAGES, _ => 0)
  }

  // PageAllocator::Alloc; the value is the start of the range, or 0 when the request was refused.
  ghost function Alloc(s: Vm, root: nat, length: nat): VmResult<nat>
    requires PageCount(length) <= MAX_ALLOC_PAGES
  {
    var n := PageCount(length);
    var span := NearestPageSize(length) + NUM_GUARD_PAGES * PAGE;
    var end := (s.cursor + span) % ADDR_LIMIT;
    if !(end < VALLOC_END && end > s.cursor) then VmPanic
    else if n == 0 then VmPanic
    else
      var served := PoolServed(s.m.pool, n);
      var phys := Answer(s.m.pool, n, Buffer(), s.advances);
      var m1 := s.m.(pool := PoolAlloc(s.m.pool, n));
      if served != n then
        if served == 0 || !Freeables(m1.pool, phys[..served]) then VmPanic
        else VmRet(s.(m := m1.(pool := PoolRelease(m1.pool, phys[..served])),
                      lost := s.lost + (set a | a in phys[..served] && !PoolContains(m1.pool, a))), 0)
      else
        match MapFrames(m1, root, phys, s.cursor, n)
        case Panic => VmPanic
        case Ret(m2, _) =>
          VmRet(Vm(m2, s.cursor + span, s.pages + n, s.live[s.cursor := phys[..n]],
                   s.ranges + [Range(s.cursor, n)], s.lost, s.advances), s.cursor)
  }

  // The frames getPhysAddr reports for the first n pages of a range, if each of them is a mapped 4K page.
  datatype Frames = NotMapped | Found(frames: seq<nat>)

  function ReadFrames(mem: Mem, root: nat, virt: nat, n: nat): Frames {
    if n == 0 then Found([])
    else
      match ReadFrames(mem, root, virt, n - 1)
      case NotMapped => NotMapped
      case Found(frames) =>
        var r := GetPhysAddr(mem, root, PageAt(virt, n - 1));
        if r.code == 1 && r.out.Mapped? then Found(frames + [r.out.phys]) else NotMapped
  }

  // The state after the frames behind a range have been released.
  ghost function Freed(s: Vm, ptr: nat, frames: seq<nat>, mem: Mem): Vm
    requires Freeables(s.m.pool, frames)
  {
    s.(m := s.m.(mem := mem, pool := PoolRelease(s.m.pool, frames)), pages := s.pages - |frames|,
        live := s.live - {ptr})
  }

  // PageAllocator::Free: read the frames, unmap, invalidate, release; any surprise is fatal.
  ghost function Free(s: Vm, root: nat, ptr: nat, length: nat): VmResult<()>
    requires PageCount(length) <= MAX_ALLOC_PAGES
  {
    if ptr == 0 || length == 0 || ptr % PAGE != 0 then VmPanic
    else
      var n := PageCount(length);
      match ReadFrames(s.m.mem, root, ptr, n)
      case NotMapped => VmPanic
      case Found(frames) =>
        var c := Unmap(s.m.mem, root, ptr, NearestPageSize(length));
        if c.code != 0 || !Freeables(s.m.pool, frames) || PoolCount(s.m.pool, frames) != n then VmPanic
        else VmRet(Freed(s, ptr, frames, c.mem), ())
  }

  // ----- invariant -----

  // Page numbers of the window the allocator hands out.
  predicate InWindow(p: nat) {
    PageNo(VALLOC_START) <= p <= PageNo(VALLOC_END)
  }

  // The bytes n pages take from the window, guard pages included.
  function Extent(n: nat): nat {
    (n + NUM_GUARD_PAGES) * PAGE
  }

  // Page p belongs to the allocation at ptr, as its i-th page.
  ghost predicate LivePage(live: map<nat, seq<nat>>, p: nat, ptr: nat, i: nat) {
    ptr in live && i < |live[ptr]| && p == PageNo(ptr) + i
  }

  ghost predicate LiveFrame(live: map<nat, seq<nat>>, a: nat, ptr: nat, i: nat) {
    ptr in live && i < |live[ptr]| && a == live[ptr][i]
  }

  ghost predicate IsLive(live: map<nat, seq<nat>>, a: nat) {
    exists ptr, i :: LiveFrame(live, a, ptr, i)
  }

  // No frame backs two pages.
  ghost predicate Unaliased(live: map<nat, seq<nat>>) {
    forall a, ptr, i, ptr', i' :: LiveFrame(live, a, ptr, i) && LiveFrame(live, a, ptr', i') ==> ptr == ptr' && i == i'
  }

  const KERNEL_PAGE := Normalised(KERNEL_RW)

  // Ranges lie in the part of the window the cursor has passed, one after the other, guards included;
  // live allocations are ranges that were handed out.
  ghost predicate RangesLaidOut(s: Vm) {
    && VALLOC_START <= s.cursor <= VALLOC_END && s.cursor % PAGE == 0
    && (forall k :: 0 <= k < |s.ranges| ==>
          && VALLOC_START <= s.ranges[k].ptr && s.ranges[k].ptr % PAGE == 0
          && 1 <= s.ranges[k].count <= MAX_ALLOC_PAGES
          && s.ranges[k].ptr + Extent(s.ranges[k].count) <= s.cursor)
    && (forall j, k :: 0 <= j < k < |s.ranges| ==> s.ranges[j].ptr + Extent(s.ranges[j].count) <= s.ranges[k].ptr)
    && (forall ptr :: ptr in s.live ==> Range(ptr, |s.live[ptr]|) in s.ranges)
  }

  // In the window exactly the live pages are mapped, each to its own frame.
  ghost predicate WindowMapped(s: Vm, view: Flat) {
    && (forall p: nat, ptr: nat, i: nat :: LivePage(s.live, p, ptr, i) ==>
         p in view && view[p] == Mapped(s.live[ptr][i], KERNEL_PAGE, 1))
    && (forall p :: InWindow(p) && p in view ==> exists ptr, i :: LivePage(s.live, p, ptr, i))
  }

  // Every frame of the pool has exactly one owner: the free list, a paging structure, one page of one
  // allocation, or nobody any more.
  ghost predicate OneOwner(s: Vm) {
    && Unaliased(s.live)
    && (forall a :: IsLive(s.live, a) ==>
         IsPoolPage(s.m.pool, a) && a !in PoolFree(s.m.pool) && a !in s.m.mem && a !in s.lost)
    && (forall a :: a in s.lost ==> IsPoolPage(s.m.pool, a) && a !in PoolFree(s.m.pool) && a !in s.m.mem)
    && (forall a :: IsPoolPage(s.m.pool, a) ==>
         a in PoolFree(s.m.pool) || a in s.m.mem || IsLive(s.live, a) || a in s.lost)
  }

  // The allocatable pages of a region and of a pool.
  ghost function PagesOf(g: Geometry, n: nat): (r: set<nat>)
    ensures forall a :: a in r <==> exists i: nat :: i < n && a == Addr(g, i)
    ensures |r| == n
  {
    if n == 0 then {}
    else
      var before := PagesOf(g, n - 1);
      assert Addr(g, n - 1) !in before;
      before + {Addr(g, n - 1)}
  }

  ghost function PoolPages(ps: PoolState): set<nat> {
    if ps == [] then {} else PagesOf(ps[0].g, ps[0].g.bitmapSize) + PoolPages(ps[1..])
  }

  ghost function LiveSet(s: Vm): set<nat> {
    set a | a in PoolPages(s.m.pool) && IsLive(s.live, a)
  }

  // gPagesAllocated counts the frames handed out.
  ghost predicate Counts(s: Vm) {
    s.pages == |LiveSet(s)|
  }

  // Physical addresses fit in the 52 bits an entry holds.
  ghost predicate PhysicalBound(ps: PoolState) {
    forall a: nat :: IsPoolPage(ps, a) ==> a + PAGE <= 0x10_0000_0000_0000
  }

  ghost predicate VmInv(s: Vm, lv: map<nat, nat>, roots: set<nat>, root: nat) {
    && MachineInv(s.m, lv, roots) && root in roots && PhysicalBound(s.m.pool)
    && RangesLaidOut(s) && WindowMapped(s, View(s.m.mem, root)) && OneOwner(s) && Counts(s)
  }

  // ----- counting owners -----

  lemma PageOfAddr(g: Geometry, i: nat)
    ensures PageOf(g, Addr(g, i)) == i && (Addr(g, i) - g.allocBase) % PAGE_SIZE == 0
  {
  }

  lemma PagesOfMembers(g: Geometry, a: nat)
    ensures a in PagesOf(g, g.bitmapSize) <==> IsPage(g, a)
  {
    if IsPage(g, a) {
      var i := PageOf(g, a);
      DivEquation(a - g.allocBase, PAGE_SIZE);
      assert a == Addr(g, i);
    }
    if i: nat :| i < g.bitmapSize && a == Addr(g, i) {
      PageOfAddr(g, i);
    }
  }

  lemma {:induction false} PoolPagesMembers(ps: PoolState, a: nat)
    ensures a in PoolPages(ps) <==> IsPoolPage(ps, a)
  {
    hide IsPage;
    if ps == [] {
    } else {
      PoolPagesMembers(ps[1..], a);
      PagesOfMembers(ps[0].g, a);
      if IsPoolPage(ps, a) {
        var i :| 0 <= i < |ps| && IsPage(ps[i].g, a);
        assert i > 0 ==> ps[1..][i - 1] == ps[i];
      }
      if IsPoolPage(ps[1..], a) {
        var i :| 0 <= i < |ps[1..]| && IsPage(ps[1..][i].g, a);
        assert ps[1..][i] == ps[i + 1];
      }
    }
  }

  lemma {:induction false} PoolPagesSize(ps: PoolState)
    requires PoolInv(ps)
    ensures |PoolPages(ps)| == Total(ps)
  {
    if ps == [] {
    } else {
      TailInv(ps);
      PoolPagesSize(ps[1..]);
      HeadPagesApart(ps);
    }
  }

  lemma InvValid(ps: PoolState)
    requires PoolInv(ps)
    ensures ValidPool(ps)
  {
  }

  lemma HeadPagesApart(ps: PoolState)
    requires PoolInv(ps) && ps != []
    ensures PagesOf(ps[0].g, ps[0].g.bitmapSize) !! PoolPages(ps[1..])
  {
    hide PoolInv, ValidPool, IsPage, PagesOf, PoolPages;
    InvValid(ps);
    forall a | a in PagesOf(ps[0].g, ps[0].g.bitmapSize)
      ensures a !in PoolPages(ps[1..])
    {
      PagesOfMembers(ps[0].g, a);
      PoolPagesMembers(ps[1..], a);
      if IsPoolPage(ps[1..], a) {
        var i :| 0 <= i < |ps[1..]| && IsPage(ps[1..][i].g, a);
        assert ps[1..][i] == ps[i + 1];
        OnlyRegion(ps, 0, i + 1, a);
        assert false;
      }
    }
  }

  // Because every frame has exactly one owner, the pages the pool counts as allocated are the paging
  // structures, the pages handed out and the lost pages.
  lemma OwnersAddUp(s: Vm, lv: map<nat, nat>, roots: set<nat>, root: nat)
    requires VmInv(s, lv, roots, root)
    ensures Allocated(s.m.pool) == |s.m.mem| + s.pages + |s.lost|
  {
    var ps := s.m.pool;
    OwnersPartition(s, lv, roots, root);
    hide VmInv, PoolInv, PoolFree, Elements, LiveSet, PoolPages, Counted;
    Pooled(s, lv, roots, root);
    PoolPagesSize(ps);
    Conservation(ps);
    PoolFreePages(ps);
    DistinctCount(PoolFree(ps));
  }

  lemma Pooled(s: Vm, lv: map<nat, nat>, roots: set<nat>, root: nat)
    requires VmInv(s, lv, roots, root)
    ensures PoolInv(s.m.pool) && s.pages == |LiveSet(s)|
    ensures forall i :: 0 <= i < |s.m.pool| ==> Counted(s.m.pool[i])
  {
  }

  lemma OwnersPartition(s: Vm, lv: map<nat, nat>, roots: set<nat>, root: nat)
    requires VmInv(s, lv, roots, root)
    ensures PoolPages(s.m.pool) == Elements(PoolFree(s.m.pool)) + s.m.mem.Keys + LiveSet(s) + s.lost
    ensures |PoolPages(s.m.pool)| == |Elements(PoolFree(s.m.pool))| + |s.m.mem.Keys| + |LiveSet(s)| + |s.lost|
  {
    hide PoolInv, Shape, RangesLaidOut, WindowMapped, Counts, PoolFree, PoolPages, IsPoolPage;
    var ps := s.m.pool;
    var free, tables, live := Elements(PoolFree(ps)), s.m.mem.Keys, LiveSet(s);
    forall a
      ensures a in PoolPages(ps) <==> IsPoolPage(ps, a)
    {
      PoolPagesMembers(ps, a);
    }
    forall a | a in free
      ensures a in PoolPages(ps)
    {
      FreeIsPoolPage(s, lv, roots, root, a);
    }
    assert PoolPages(ps) == free + tables + live + s.lost;
    assert free !! tables;
    assert (free + tables) !! live;
    assert (free + tables + live) !! s.lost;
  }

  lemma FreeIsPoolPage(s: Vm, lv: map<nat, nat>, roots: set<nat>, root: nat, a: nat)
    requires VmInv(s, lv, roots, root) && a in PoolFree(s.m.pool)
    ensures IsPoolPage(s.m.pool, a)
  {
    FreeIsPage(s.m.pool, a);
  }
}

// Every step of the page allocator keeps its invariant.
module VirtualAllocSteps {
  import opened Division
  import opened PageEntries
  import opened PageWalk
  import opened FreeBits
  import opened Regions
  import opened Pools
  import opened PageTables
  import opened PageMap
  import opened PageUnmap
  import opened VirtualAlloc

  // ----- window arithmetic -----

  lemma WindowPage(v: nat, i: nat)
    requires VALLOC_START <= v && v % PAGE == 0 && v + i * PAGE <= VALLOC_END
    ensures var a := v + i * PAGE;
            && Canonical(a) && a % PAGE == 0 && a < ADDR_LIMIT && PageAt(v, i) == a
            && PageNo(a) == PageNo(v) + i && InWindow(PageNo(a))
            && PageNo(v) == v / PAGE - 0xFFFF_0000_0000_0000 / PAGE
  {
  }

  lemma LengthPages(length: nat)
    ensures NearestPageSize(length) == PageCount(length) * PAGE && PageCount(length) == (length + 0xFFF) / 0x1000
    ensures length <= NearestPageSize(length) < length + PAGE
  {
  }

  // ----- lists of frames -----

  lemma SplitFree(free: seq<nat>, n: nat)
    requires Distinct(free) && n <= |free|
    ensures Distinct(free[..n]) && Distinct(free[n..])
    ensures forall a :: a in free <==> a in free[..n] || a in free[n..]
    ensures forall a :: !(a in free[..n] && a in free[n..])
  {
  }

  // ----- mapping frames one after the other -----

  // n pages from page p on mapped to the given frames.
  ghost function FlatRange(view: Flat, frames: seq<nat>, p: nat, n: nat): Flat
    requires n <= |frames|
  {
    if n == 0 then view else FlatRange(view, frames, p, n - 1)[p + (n - 1) := Mapped(frames[n - 1], KERNEL_PAGE, 1)]
  }

  lemma {:induction false} FlatRangeAt(view: Flat, frames: seq<nat>, p: nat, n: nat, q: nat)
    requires n <= |frames|
    ensures q in FlatRange(view, frames, p, n) <==> q in view || p <= q < p + n
    ensures p <= q < p + n ==> FlatRange(view, frames, p, n)[q] == Mapped(frames[q - p], KERNEL_PAGE, 1)
    ensures q in view && !(p <= q < p + n) ==> FlatRange(view, frames, p, n)[q] == view[q]
  {
    if n == 0 {
    } else {
      FlatRangeAt(view, frames, p, n - 1, q);
    }
  }

  ghost predicate MapFramesOk(m: Machine, roots: set<nat>, root: nat, frames: seq<nat>, p: nat, n: nat,
                              m': Machine, lv': map<nat, nat>)
    requires n <= |frames|
  {
    && MachineInv(m', lv', roots) && Grew(m, m')
    && View(m'.mem, root) == FlatRange(View(m.mem, root), frames, p, n)
  }

  lemma MapNext(m: Machine, roots: set<nat>, root: nat, frames: seq<nat>, virt: nat, n: nat, m1: Machine,
                lv1: map<nat, nat>)
    requires 0 < n <= |frames| && root in roots
    requires VALLOC_START <= virt && virt % PAGE == 0 && virt + (n - 1) * PAGE <= VALLOC_END
    requires MapFramesOk(m, roots, root, frames, PageNo(virt), n - 1, m1, lv1)
    requires PageNo(virt) + (n - 1) !in View(m.mem, root)
    requires frames[n - 1] % PAGE == 0 && frames[n - 1] < 0x10_0000_0000_0000
    requires MapPage(m1, root, frames[n - 1], virt + (n - 1) * PAGE, KERNEL_RW).Ret?
    ensures var r := MapPage(m1, root, frames[n - 1], virt + (n - 1) * PAGE, KERNEL_RW);
            r.code == 0 && exists lv' :: MapFramesOk(m, roots, root, frames, PageNo(virt), n, r.m, lv')
  {
    hide MachineInv, View, MapPage, Grew, PageNo, Canonical, SharedSlot, RootsStay, OthersSame, DecodeAddr;
    var v := virt + (n - 1) * PAGE;
    WindowPage(virt, n - 1);
    MapPageRefines(m1, lv1, roots, root, frames[n - 1], v, KERNEL_RW);
    var r := MapPage(m1, root, frames[n - 1], v, KERNEL_RW);
    var lv' :| MapPageOk(m1, lv1, roots, root, frames[n - 1], v, KERNEL_RW, r.m, r.code, lv');
    FlatRangeAt(View(m.mem, root), frames, PageNo(virt), n - 1, PageNo(v));
    DecodeAligned(frames[n - 1]);
    GrewChain(m, m1, r.m);
    assert MapFramesOk(m, roots, root, frames, PageNo(virt), n, r.m, lv');
  }

  lemma {:induction false} MapFramesRefines(m: Machine, lv: map<nat, nat>, roots: set<nat>, root: nat,
                                            frames: seq<nat>, virt: nat, n: nat)
    requires MachineInv(m, lv, roots) && root in roots && n <= |frames|
    requires VALLOC_START <= virt && virt % PAGE == 0 && virt + n * PAGE <= VALLOC_END
    requires forall p :: PageNo(virt) <= p < PageNo(virt) + n ==> p !in View(m.mem, root)
    requires forall i :: 0 <= i < n ==> frames[i] % PAGE == 0 && frames[i] < 0x10_0000_0000_0000
    requires MapFrames(m, root, frames, virt, n).Ret?
    ensures exists lv' :: MapFramesOk(m, roots, root, frames, PageNo(virt), n, MapFrames(m, root, frames, virt, n).m,
              lv')
  {
    hide MachineInv, View, MapPage, PageNo, Grew;
    if n == 0 {
      GrewNone(m);
      assert MapFramesOk(m, roots, root, frames, PageNo(virt), 0, m, lv);
    } else {
      MapFramesRefines(m, lv, roots, root, frames, virt, n - 1);
      var m1 := MapFrames(m, root, frames, virt, n - 1).m;
      var lv1 :| MapFramesOk(m, roots, root, frames, PageNo(virt), n - 1, m1, lv1);
      MapNext(m, roots, root, frames, virt, n, m1, lv1);
    }
  }

  // ----- Alloc: the successful case -----

  // The window page numbers of a range handed out earlier end before the cursor.
  lemma LiveBelowCursor(s: Vm, p: nat, ptr: nat, i: nat)
    requires RangesLaidOut(s) && LivePage(s.live, p, ptr, i)
    ensures VALLOC_START <= ptr && ptr % PAGE == 0 && ptr + i * PAGE <= VALLOC_END
    ensures p < PageNo(s.cursor) && PageNo(ptr) + |s.live[ptr]| + NUM_GUARD_PAGES <= PageNo(s.cursor)
    ensures InWindow(p)
  {
    var k :| 0 <= k < |s.ranges| && s.ranges[k] == Range(ptr, |s.live[ptr]|);
    var n := |s.live[ptr]|;
    assert ptr + Extent(n) <= s.cursor;
    WindowPage(ptr, 0);
    WindowPage(ptr, i);
    WindowPage(s.cursor, 0);
    DivEquation(ptr, PAGE);
    DivEquation(s.cursor, PAGE);
  }

  // Nothing at or above the cursor is mapped in the window.
  lemma AboveCursorFree(s: Vm, root: nat, i: nat)
    requires RangesLaidOut(s) && WindowMapped(s, View(s.m.mem, root))
    requires s.cursor + i * PAGE <= VALLOC_END
    ensures PageNo(s.cursor) + i !in View(s.m.mem, root)
  {
    hide View;
    WindowPage(s.cursor, i);
    var p := PageNo(s.cursor) + i;
    if p in View(s.m.mem, root) {
      var ptr: nat, j: nat :| LivePage(s.live, p, ptr, j);
      LiveBelowCursor(s, p, ptr, j);
      assert false;
    }
  }

  lemma CursorNotLive(s: Vm)
    requires RangesLaidOut(s)
    ensures s.cursor !in s.live
  {
  }

  // Frames taken from the pool for an allocation.
  lemma PoolTaken(s: Vm, lv: map<nat, nat>, roots: set<nat>, root: nat, n: nat)
    requires VmInv(s, lv, roots, root) && 1 <= n <= MAX_ALLOC_PAGES
    ensures var k := PoolServed(s.m.pool, n);
            var taken := PoolFree(s.m.pool)[..k];
            var m1 := s.m.(pool := PoolAlloc(s.m.pool, n));
            && Distinct(taken) && Distinct(PoolFree(s.m.pool))
            && MachineInv(m1, lv, roots)
            && PoolFree(m1.pool) == PoolFree(s.m.pool)[k..]
            && |m1.pool| == |s.m.pool| && (forall i :: 0 <= i < |s.m.pool| ==> m1.pool[i].g == s.m.pool[i].g)
            && AllocatedInPool(m1.pool, taken)
            && (forall a :: a in PoolFree(s.m.pool) ==>
                 IsPoolPage(s.m.pool, a) && a % PAGE == 0 && PAGE <= a < 0x10_0000_0000_0000)
  {
    hide Shape, WindowMapped, RangesLaidOut, OneOwner, Counts, PoolFree, PoolAlloc;
    var ps := s.m.pool;
    PoolFreePages(ps);
    PoolAllocTakesPrefix(ps, n);
    TakenFromPool(ps, n);
    SplitFree(PoolFree(ps), PoolServed(ps, n));
  }

  // The same as the buffer names them.
  lemma AllocTaken(s: Vm, lv: map<nat, nat>, roots: set<nat>, root: nat, n: nat)
    requires VmInv(s, lv, roots, root) && 1 <= n <= MAX_ALLOC_PAGES
    requires Named(s.m.pool, n, s.advances)
    ensures var k := PoolServed(s.m.pool, n);
            var taken := PoolFree(s.m.pool)[..k];
            var m1 := s.m.(pool := PoolAlloc(s.m.pool, n));
            && Answer(s.m.pool, n, Buffer(), s.advances)[..k] == taken && Distinct(taken)
            && MachineInv(m1, lv, roots)
            && PoolFree(m1.pool) == PoolFree(s.m.pool)[k..]
            && |m1.pool| == |s.m.pool| && (forall i :: 0 <= i < |s.m.pool| ==> m1.pool[i].g == s.m.pool[i].g)
            && AllocatedInPool(m1.pool, taken)
            && (forall a :: a in taken ==>
                 a in PoolFree(s.m.pool) && IsPoolPage(s.m.pool, a) && a % PAGE == 0 && a < 0x10_0000_0000_0000)
  {
    hide VmInv, MachineInv, Answer, Named, PoolFree, PoolAlloc, AllocatedInPool;
    PoolTaken(s, lv, roots, root, n);
    AnswerExact(s.m.pool, n, Buffer(), s.advances);
  }

  // After an allocation has been recorded, exactly its frames have become live.
  lemma LiveAfter(live: map<nat, seq<nat>>, c: nat, taken: seq<nat>, live': map<nat, seq<nat>>)
    requires c !in live && Distinct(taken) && live' == live[c := taken]
    requires forall a :: a in taken ==> !IsLive(live, a)
    requires Unaliased(live)
    ensures forall a :: IsLive(live', a) <==> IsLive(live, a) || a in taken
    ensures Unaliased(live')
  {
    forall a: nat, ptr: nat, i: nat
      ensures LiveFrame(live', a, ptr, i) <==> LiveFrame(live, a, ptr, i) || (ptr == c && i < |taken| && taken[i] == a)
    {
    }
    forall a
      ensures IsLive(live', a) <==> IsLive(live, a) || a in taken
    {
      if IsLive(live, a) {
        var ptr: nat, i: nat :| LiveFrame(live, a, ptr, i);
        assert LiveFrame(live', a, ptr, i);
      }
      if a in taken {
        var i :| 0 <= i < |taken| && taken[i] == a;
        assert LiveFrame(live', a, c, i);
      }
    }
    forall a: nat, ptr: nat, i: nat, ptr': nat, i': nat | LiveFrame(live', a, ptr, i) && LiveFrame(live', a, ptr', i')
      ensures ptr == ptr' && i == i'
    {
      if LiveFrame(live, a, ptr, i) {
        assert IsLive(live, a);
      }
      if LiveFrame(live, a, ptr', i') {
        assert IsLive(live, a);
      }
    }
  }

  lemma AllocOwners(s: Vm, n: nat, taken: seq<nat>, m1: Machine, m2: Machine, s': Vm)
    requires OneOwner(s) && n <= |PoolFree(s.m.pool)| && Distinct(PoolFree(s.m.pool))
    requires forall t :: t in s.m.mem ==> t !in PoolFree(s.m.pool)
    requires taken == PoolFree(s.m.pool)[..n] && PoolFree(m1.pool) == PoolFree(s.m.pool)[n..]
    requires m1.mem == s.m.mem && Grew(m1, m2)
    requires s'.m == m2 && s'.lost == s.lost && s.cursor !in s.live && s'.live == s.live[s.cursor := taken]
    requires forall a :: IsPoolPage(m2.pool, a) <==> IsPoolPage(s.m.pool, a)
    requires forall a :: a in PoolFree(s.m.pool) ==> IsPoolPage(s.m.pool, a)
    ensures OneOwner(s')
    ensures forall a :: IsLive(s'.live, a) <==> IsLive(s.live, a) || a in taken
    ensures forall a :: a in taken ==> !IsLive(s.live, a)
  {
    hide PoolFree, IsPoolPage, IsLive, LiveFrame;
    var free := PoolFree(s.m.pool);
    var k: nat :| GrewBy(m1, m2, k);
    SplitFree(free, n);
    SplitFree(free[n..], k);
    LiveAfter(s.live, s.cursor, taken, s'.live);
  }

  lemma AllocCounts(s: Vm, s': Vm, taken: seq<nat>)
    requires Counts(s) && s'.pages == s.pages + |taken| && Distinct(taken)
    requires forall a :: IsPoolPage(s'.m.pool, a) <==> IsPoolPage(s.m.pool, a)
    requires forall a :: IsLive(s'.live, a) <==> IsLive(s.live, a) || a in taken
    requires forall a :: a in taken ==> !IsLive(s.live, a) && IsPoolPage(s.m.pool, a)
    ensures Counts(s')
  {
    hide IsPoolPage, IsLive, PoolPages;
    forall a
      ensures a in LiveSet(s') <==> a in LiveSet(s) + Elements(taken)
    {
      PoolPagesMembers(s'.m.pool, a);
      PoolPagesMembers(s.m.pool, a);
    }
    assert LiveSet(s') == LiveSet(s) + Elements(taken);
    DistinctCount(taken);
  }

  lemma AllocLayout(s: Vm, s': Vm, n: nat, taken: seq<nat>)
    requires RangesLaidOut(s) && 1 <= n <= MAX_ALLOC_PAGES && |taken| == n
    requires s.cursor + Extent(n) < VALLOC_END
    requires s'.cursor == s.cursor + Extent(n) && s'.live == s.live[s.cursor := taken]
    requires s'.ranges == s.ranges + [Range(s.cursor, n)]
    ensures RangesLaidOut(s')
  {
  }

  lemma AllocWindow(s: Vm, root: nat, s': Vm, n: nat, frames: seq<nat>, taken: seq<nat>)
    requires RangesLaidOut(s) && WindowMapped(s, View(s.m.mem, root)) && s.cursor !in s.live
    requires 1 <= n <= |frames| && taken == frames[..n] && s.cursor + Extent(n) <= VALLOC_END
    requires s'.live == s.live[s.cursor := taken]
    requires View(s'.m.mem, root) == FlatRange(View(s.m.mem, root), frames, PageNo(s.cursor), n)
    ensures WindowMapped(s', View(s'.m.mem, root))
  {
    hide View, FlatRange, RangesLaidOut, InWindow, LivePage;
    var view, view' := View(s.m.mem, root), View(s'.m.mem, root);
    var c := PageNo(s.cursor);
    LivePageAfter(s.live, s.cursor, taken, s'.live);
    forall p: nat, ptr: nat, i: nat | LivePage(s'.live, p, ptr, i)
      ensures p in view' && ptr in s'.live && i < |s'.live[ptr]| && view'[p] == Mapped(s'.live[ptr][i], KERNEL_PAGE, 1)
    {
      FlatRangeAt(view, frames, c, n, p);
      if LivePage(s.live, p, ptr, i) {
        LiveBelowCursor(s, p, ptr, i);
        SameEntry(s.live, s.cursor, taken, s'.live, p, ptr, i);
      }
    }
    forall p: nat | InWindow(p) && p in view'
      ensures exists ptr, i :: LivePage(s'.live, p, ptr, i)
    {
      FlatRangeAt(view, frames, c, n, p);
      if p in view {
        var ptr: nat, i: nat :| LivePage(s.live, p, ptr, i);
        assert LivePage(s'.live, p, ptr, i);
      } else {
        assert LivePage(s'.live, p, s.cursor, p - c);
      }
    }
  }

  lemma LivePageAfter(live: map<nat, seq<nat>>, c: nat, taken: seq<nat>, live': map<nat, seq<nat>>)
    requires c !in live && live' == live[c := taken]
    ensures forall p: nat, ptr: nat, i: nat ::
              LivePage(live', p, ptr, i) <==>
                  LivePage(live, p, ptr, i) || (ptr == c && i < |taken| && p == PageNo(c) + i)
  {
  }

  lemma SameEntry(live: map<nat, seq<nat>>, c: nat, taken: seq<nat>, live': map<nat, seq<nat>>, p: nat, ptr: nat,
                  i: nat)
    requires c !in live && live' == live[c := taken] && LivePage(live, p, ptr, i)
    ensures ptr in live && ptr in live' && i < |live[ptr]| == |live'[ptr]| && live'[ptr][i] == live[ptr][i]
  {
  }

  lemma SamePages(ps: PoolState, qs: PoolState)
    requires |ps| == |qs| && forall i :: 0 <= i < |ps| ==> ps[i].g == qs[i].g
    ensures forall a :: IsPoolPage(ps, a) <==> IsPoolPage(qs, a)
    ensures forall a :: PoolContains(ps, a) <==> PoolContains(qs, a)
    ensures PhysicalBound(ps) ==> PhysicalBound(qs)
  {
  }

  // The state a successful request ends in.
  function AllocDone(s: Vm, n: nat, taken: seq<nat>, m2: Machine): Vm {
    Vm(m2, s.cursor + Extent(n), s.pages + n, s.live[s.cursor := taken], s.ranges + [Range(s.cursor, n)], s.lost,
        s.advances)
  }

  // The same regions, whatever is free in them.
  ghost predicate SameRegions(ps: PoolState, qs: PoolState) {
    |ps| == |qs| && forall i :: 0 <= i < |ps| ==> qs[i].g == ps[i].g
  }

  lemma GrewRegions(m: Machine, m': Machine)
    requires Grew(m, m')
    ensures SameRegions(m.pool, m'.pool)
  {
  }

  lemma RegionsTrans(ps: PoolState, qs: PoolState, rs: PoolState)
    requires SameRegions(ps, qs) && SameRegions(qs, rs)
    ensures SameRegions(ps, rs)
  {
  }

  // Translations are added, none is changed.
  ghost predicate Adds(a: Flat, b: Flat) {
    forall p :: p in a ==> p in b && b[p] == a[p]
  }

  lemma {:induction false} FlatRangeAdds(view: Flat, frames: seq<nat>, p: nat, n: nat)
    requires n <= |frames| && forall q :: p <= q < p + n ==> q !in view
    ensures Adds(view, FlatRange(view, frames, p, n))
  {
    forall q | q in view
      ensures q in FlatRange(view, frames, p, n) && FlatRange(view, frames, p, n)[q] == view[q]
    {
      FlatRangeAt(view, frames, p, n, q);
    }
  }

  lemma AllocSucceeds(s: Vm, lv: map<nat, nat>, roots: set<nat>, root: nat, n: nat, m2: Machine)
    requires VmInv(s, lv, roots, root) && 1 <= n <= MAX_ALLOC_PAGES && Named(s.m.pool, n, s.advances)
    requires PoolServed(s.m.pool, n) == n && s.cursor + Extent(n) < VALLOC_END
    requires MapFrames(s.m.(pool := PoolAlloc(s.m.pool, n)), root, Answer(s.m.pool, n, Buffer(), s.advances), s.cursor,
               n) == Ret(m2, 0)
    ensures exists lv' :: VmInv(AllocDone(s, n, Answer(s.m.pool, n, Buffer(), s.advances)[..n], m2), lv', roots, root)
    ensures Adds(View(s.m.mem, root), View(m2.mem, root)) && SameRegions(s.m.pool, m2.pool)
  {
    hide MachineInv, RangesLaidOut, WindowMapped, OneOwner, Counts, View, PoolFree, PoolAlloc, Answer, MapFrames,
      PhysicalBound, PageNo, Distinct, AllocatedInPool, GrewBy;
    var frames := Answer(s.m.pool, n, Buffer(), s.advances);
    var taken := frames[..n];
    var m1 := s.m.(pool := PoolAlloc(s.m.pool, n));
    AllocTaken(s, lv, roots, root, n);
    CursorBounds(s);
    CursorNotLive(s);
    forall p | PageNo(s.cursor) <= p < PageNo(s.cursor) + n
      ensures p !in View(m1.mem, root)
    {
      AboveCursorFree(s, root, p - PageNo(s.cursor));
    }
    assert forall i :: 0 <= i < n ==> frames[i] in taken by {
      assert forall i :: 0 <= i < n ==> frames[i] == taken[i];
    }
    MapFramesRefines(m1, lv, roots, root, frames, s.cursor, n);
    var lv' :| MapFramesOk(m1, roots, root, frames, PageNo(s.cursor), n, m2, lv');
    var s' := AllocDone(s, n, taken, m2);
    GrewRegions(m1, m2);
    RegionsTrans(s.m.pool, m1.pool, m2.pool);
    FlatRangeAdds(View(s.m.mem, root), frames, PageNo(s.cursor), n);
    AllocSucceedsOwners(s, lv, roots, root, n, taken, m1, m2, s');
    AllocLayout(s, s', n, taken);
    AllocWindow(s, root, s', n, frames, taken);
    assert VmInv(s', lv', roots, root);
  }

  lemma CursorBounds(s: Vm)
    requires RangesLaidOut(s)
    ensures VALLOC_START <= s.cursor <= VALLOC_END && s.cursor % PAGE == 0
  {
  }

  lemma AllocSucceedsOwners(s: Vm, lv: map<nat, nat>, roots: set<nat>, root: nat, n: nat, taken: seq<nat>,
                            m1: Machine, m2: Machine, s': Vm)
    requires VmInv(s, lv, roots, root) && n <= |PoolFree(s.m.pool)| && s.cursor !in s.live
    requires taken == PoolFree(s.m.pool)[..n] && PoolFree(m1.pool) == PoolFree(s.m.pool)[n..] && Distinct(taken)
    requires m1.mem == s.m.mem && Grew(m1, m2)
    requires |m1.pool| == |s.m.pool| && forall i :: 0 <= i < |s.m.pool| ==> m1.pool[i].g == s.m.pool[i].g
    requires s'.m == m2 && s'.lost == s.lost && s'.live == s.live[s.cursor := taken] && s'.pages == s.pages + n
    ensures OneOwner(s') && Counts(s') && PhysicalBound(m2.pool)
  {
    hide Shape, RangesLaidOut, WindowMapped, OneOwner, Counts, PoolFree, PhysicalBound, IsPoolPage;
    PoolFreePages(s.m.pool);
    SamePages(s.m.pool, m1.pool);
    var k: nat :| GrewBy(m1, m2, k);
    SamePages(m1.pool, m2.pool);
    assert forall t :: t in s.m.mem ==> t !in PoolFree(s.m.pool);
    AllocOwners(s, n, taken, m1, m2, s');
    assert forall a :: a in taken ==> a in PoolFree(s.m.pool);
    AllocCounts(s, s', taken);
  }
}

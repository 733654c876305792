// Refused requests, frees and operations outside the window keep the page allocator's invariant.
module VirtualFreeSteps {
  import opened Division
  import opened PageEntries
  import opened PageWalk
  import opened FreeBits
  import opened Regions
  import opened Pools
  import opened PageTables
  import opened PageMap
  import opened PageUnmap
  import opened VirtualAlloc
  import opened VirtualAllocSteps

  // ----- a refused request -----

  // The state a refused request ends in: what was taken is given back, as far as `free` accepts it.
  ghost function AllocUndone(s: Vm, taken: seq<nat>, pool1: PoolState): Vm
    requires Freeables(pool1, taken)
  {
    s.(m := s.m.(pool := PoolRelease(pool1, taken)),
       lost := s.lost + (set a | a in taken && !PoolContains(pool1, a)))
  }

  lemma AllocRefusedOwners(s: Vm, taken: seq<nat>, pool1: PoolState, s': Vm)
    requires OneOwner(s) && (forall t :: t in s.m.mem ==> t !in PoolFree(s.m.pool))
    requires forall a :: a in PoolFree(s.m.pool) <==> a in taken || a in PoolFree(pool1)
    requires forall a :: !(a in taken && a in PoolFree(pool1))
    requires forall a :: a in taken ==> IsPoolPage(s.m.pool, a)
    requires s'.live == s.live && s'.m.mem == s.m.mem && s'.pages == s.pages
    requires s'.lost == s.lost + (set a | a in taken && !PoolContains(pool1, a))
    requires forall x :: x in PoolFree(s'.m.pool) <==> x in PoolFree(pool1) || (x in taken && PoolContains(pool1, x))
    requires forall a :: IsPoolPage(s'.m.pool, a) <==> IsPoolPage(s.m.pool, a)
    ensures OneOwner(s')
  {
  }

  lemma SameLive(s: Vm, s': Vm)
    requires Counts(s) && s'.live == s.live && s'.pages == s.pages
    requires forall a :: IsPoolPage(s'.m.pool, a) <==> IsPoolPage(s.m.pool, a)
    ensures Counts(s')
  {
    hide IsPoolPage, IsLive, PoolPages;
    forall a
      ensures a in LiveSet(s') <==> a in LiveSet(s)
    {
      PoolPagesMembers(s'.m.pool, a);
      PoolPagesMembers(s.m.pool, a);
    }
    assert LiveSet(s') == LiveSet(s);
  }

  lemma AllocRefused(s: Vm, lv: map<nat, nat>, roots: set<nat>, root: nat, n: nat)
    requires VmInv(s, lv, roots, root) && 1 <= n <= MAX_ALLOC_PAGES && Named(s.m.pool, n, s.advances)
    ensures var k := PoolServed(s.m.pool, n);
            var pool1 := PoolAlloc(s.m.pool, n);
            var taken := Answer(s.m.pool, n, Buffer(), s.advances)[..k];
            && Freeables(pool1, taken)
            && VmInv(AllocUndone(s, taken, pool1), lv, roots, root)
            && SameRegions(s.m.pool, AllocUndone(s, taken, pool1).m.pool)
            && (forall a :: a in taken ==> IsPoolPage(s.m.pool, a))
  {
    hide RangesLaidOut, WindowMapped, OneOwner, Counts, View, PoolFree, PoolAlloc, Answer, PhysicalBound, Distinct,
      AllocatedInPool, PoolInv, Shape, PoolRelease, IsPoolPage, PoolContains, Freeables;
    AllocTaken(s, lv, roots, root, n);
    var pool1 := PoolAlloc(s.m.pool, n);
    var k := PoolServed(s.m.pool, n);
    var taken := Answer(s.m.pool, n, Buffer(), s.advances)[..k];
    PoolReleaseGivesBack(pool1, taken);
    var s' := AllocUndone(s, taken, pool1);
    SamePages(s.m.pool, pool1);
    SamePages(pool1, s'.m.pool);
    PoolFreePages(s.m.pool);
    SplitFree(PoolFree(s.m.pool), k);
    AllocRefusedOwners(s, taken, pool1, s');
    SameLive(s, s');
    KeepRanges(s, s');
    KeepWindow(s, s', root);
  }

  lemma KeepRanges(s: Vm, s': Vm)
    requires RangesLaidOut(s) && s'.cursor == s.cursor && s'.live == s.live && s'.ranges == s.ranges
    ensures RangesLaidOut(s')
  {
  }

  lemma KeepWindow(s: Vm, s': Vm, root: nat)
    requires WindowMapped(s, View(s.m.mem, root)) && s'.m.mem == s.m.mem && s'.live == s.live
    ensures WindowMapped(s', View(s'.m.mem, root))
  {
  }

  // ----- Free -----

  lemma LengthPositive(length: nat)
    ensures PageCount(length) > 0 ==> length > 0
  {
  }

  // The frame getPhysAddr reports for a live page.
  lemma LivePageResolves(s: Vm, root: nat, ptr: nat, i: nat)
    requires RangesLaidOut(s) && WindowMapped(s, View(s.m.mem, root)) && ptr in s.live && i < |s.live[ptr]|
    ensures var a := ptr + i * PAGE;
            && GetPhysAddr(s.m.mem, root, a) == Resolved(1, Mapped(s.live[ptr][i], KERNEL_PAGE, 1))
            && Canonical(a) && PageAt(ptr, i) == a && PageNo(a) == PageNo(ptr) + i
  {
    hide View, Walk;
    var p := PageNo(ptr) + i;
    assert LivePage(s.live, p, ptr, i);
    LiveBelowCursor(s, p, ptr, i);
    WindowPage(ptr, i);
    WalkIsLookup(s.m.mem, root, ptr + i * PAGE);
  }

  lemma {:induction false} ReadsLive(s: Vm, root: nat, ptr: nat, n: nat)
    requires RangesLaidOut(s) && WindowMapped(s, View(s.m.mem, root)) && ptr in s.live && n <= |s.live[ptr]|
    ensures ReadFrames(s.m.mem, root, ptr, n) == Found(s.live[ptr][..n])
  {
    hide View, Walk, RangesLaidOut, WindowMapped, GetPhysAddr;
    if n == 0 {
    } else {
      ReadsLive(s, root, ptr, n - 1);
      LivePageResolves(s, root, ptr, n - 1);
    }
  }

  // The first n pages of a live range are canonical, are the pages they should be, and none is large.
  lemma LiveRange(s: Vm, root: nat, ptr: nat, n: nat)
    requires RangesLaidOut(s) && WindowMapped(s, View(s.m.mem, root)) && ptr in s.live && n <= |s.live[ptr]|
    ensures CanonicalRange(ptr, n)
    ensures forall i :: 0 <= i < n ==> PageNo(PageAt(ptr, i)) == PageNo(ptr) + i
    ensures forall p: nat :: InRange(p, ptr, n) <==> PageNo(ptr) <= p < PageNo(ptr) + n
    ensures forall p: nat :: p in View(s.m.mem, root) && InRange(p, ptr, n) ==>
              View(s.m.mem, root)[p].Mapped? && View(s.m.mem, root)[p].level == 1
  {
    hide View, RangesLaidOut, PageAt, Canonical, PageNo, GetPhysAddr;
    forall i | 0 <= i < n
      ensures Canonical(PageAt(ptr, i)) && PageNo(PageAt(ptr, i)) == PageNo(ptr) + i
    {
      LivePageResolves(s, root, ptr, i);
    }
    forall p: nat
      ensures InRange(p, ptr, n) <==> PageNo(ptr) <= p < PageNo(ptr) + n
    {
      if PageNo(ptr) <= p < PageNo(ptr) + n {
        var i := p - PageNo(ptr);
        assert PageNo(PageAt(ptr, i)) == p;
      }
    }
    var view := View(s.m.mem, root);
    forall p: nat | p in view && InRange(p, ptr, n)
      ensures view[p].Mapped? && view[p].level == 1
    {
      assert LivePage(s.live, p, ptr, p - PageNo(ptr));
    }
  }

  // Unmapping the first n pages of a live range succeeds and drops exactly them.
  lemma UnmapLiveSome(s: Vm, lv: map<nat, nat>, roots: set<nat>, root: nat, ptr: nat, n: nat)
    requires VmInv(s, lv, roots, root) && ptr in s.live && n <= |s.live[ptr]|
    ensures var c := UnmapSome(s.m.mem, root, ptr, n);
            var view := View(s.m.mem, root);
            && c.code == 0 && Shape(c.mem, lv, roots) && c.mem.Keys == s.m.mem.Keys && OnlyClears(s.m.mem, c.mem)
            && View(c.mem, root) == (map p | p in view && !(PageNo(ptr) <= p < PageNo(ptr) + n) :: view[p])
  {
    hide View, Shape, OneOwner, Counts, PhysicalBound, PoolInv, PoolFree, UnmapSome, RangesLaidOut, WindowMapped,
      PageNo, RootsStay, InRange, CanonicalRange, FlatUnmapSome, PageAt, OnlyClears;
    LiveRange(s, root, ptr, n);
    UnmapRefines(s.m.mem, lv, roots, root, ptr, n);
    ViewLevels(s.m.mem, root);
    FlatUnmapExact(View(s.m.mem, root), ptr, n);
  }

  lemma UnmapLive(s: Vm, lv: map<nat, nat>, roots: set<nat>, root: nat, ptr: nat)
    requires VmInv(s, lv, roots, root) && ptr in s.live
    ensures var n := |s.live[ptr]|;
            var c := Unmap(s.m.mem, root, ptr, n * PAGE);
            var view := View(s.m.mem, root);
            && c == UnmapSome(s.m.mem, root, ptr, n)
            && c.code == 0 && MachineInv(s.m.(mem := c.mem), lv, roots) && c.mem.Keys == s.m.mem.Keys
            && View(c.mem, root) == (map p | p in view && !(PageNo(ptr) <= p < PageNo(ptr) + n) :: view[p])
  {
    hide View, Shape, OneOwner, Counts, PhysicalBound, PoolInv, PoolFree, UnmapSome, RangesLaidOut, WindowMapped,
      PageNo, OnlyClears;
    var n := |s.live[ptr]|;
    LiveStart(s, ptr);
    DivUnique(n * PAGE, PAGE, n, 0);
    UnmapLiveSome(s, lv, roots, root, ptr, n);
    KeepsInv(s.m, lv, roots, Unmap(s.m.mem, root, ptr, n * PAGE).mem);
  }

  lemma LiveStart(s: Vm, ptr: nat)
    requires RangesLaidOut(s) && ptr in s.live
    ensures ptr >= VALLOC_START && ptr % PAGE == 0 && 1 <= |s.live[ptr]| <= MAX_ALLOC_PAGES
  {
  }

  // The frames behind an allocation are pages a caller may give back.
  lemma LiveIsAllocated(s: Vm, ptr: nat)
    requires OneOwner(s) && ptr in s.live
    ensures AllocatedInPool(s.m.pool, s.live[ptr])
    ensures forall a :: a in s.live[ptr] ==> IsLive(s.live, a)
  {
    hide PoolFree, IsPoolPage;
    var frames := s.live[ptr];
    forall i, j | 0 <= i < j < |frames|
      ensures frames[i] != frames[j]
    {
      assert LiveFrame(s.live, frames[i], ptr, i) && LiveFrame(s.live, frames[j], ptr, j);
    }
    forall a | a in frames
      ensures IsLive(s.live, a)
    {
      var i :| 0 <= i < |frames| && frames[i] == a;
      assert LiveFrame(s.live, a, ptr, i);
    }
  }

  lemma FreeWindow(s: Vm, root: nat, ptr: nat, s': Vm)
    requires RangesLaidOut(s) && WindowMapped(s, View(s.m.mem, root)) && ptr in s.live
    requires s'.live == s.live - {ptr}
    requires View(s'.m.mem, root) ==
             var view := View(s.m.mem, root);
                 map p | p in view && !(PageNo(ptr) <= p < PageNo(ptr) + |s.live[ptr]|) :: view[p]
    ensures WindowMapped(s', View(s'.m.mem, root))
  {
    hide View, RangesLaidOut, InWindow, PageNo;
    var view, view' := View(s.m.mem, root), View(s'.m.mem, root);
    forall p: nat, q: nat, i: nat | LivePage(s'.live, p, q, i)
      ensures p in view' && view'[p] == Mapped(s'.live[q][i], KERNEL_PAGE, 1)
    {
      assert LivePage(s.live, p, q, i);
      LiveApart(s, ptr, q, i);
    }
    forall p | InWindow(p) && p in view'
      ensures exists q, i :: LivePage(s'.live, p, q, i)
    {
      var q: nat, i: nat :| LivePage(s.live, p, q, i);
      assert LivePage(s'.live, p, q, i);
    }
  }

  // Pages of different allocations are different.
  lemma LiveApart(s: Vm, ptr: nat, q: nat, i: nat)
    requires RangesLaidOut(s) && ptr in s.live && q in s.live && q != ptr && i < |s.live[q]|
    ensures !(PageNo(ptr) <= PageNo(q) + i < PageNo(ptr) + |s.live[ptr]|)
  {
    var j :| 0 <= j < |s.ranges| && s.ranges[j] == Range(ptr, |s.live[ptr]|);
    var k :| 0 <= k < |s.ranges| && s.ranges[k] == Range(q, |s.live[q]|);
    assert j < k ==> ptr + Extent(|s.live[ptr]|) <= q;
    assert k < j ==> q + Extent(|s.live[q]|) <= ptr;
    WindowPage(ptr, 0);
    WindowPage(q, 0);
    DivEquation(ptr, PAGE);
    DivEquation(q, PAGE);
  }

  lemma LiveWithout(live: map<nat, seq<nat>>, ptr: nat, live': map<nat, seq<nat>>)
    requires ptr in live && live' == live - {ptr} && Unaliased(live)
    ensures Unaliased(live')
    ensures forall a :: IsLive(live', a) <==> IsLive(live, a) && a !in live[ptr]
  {
    assert forall a: nat, q: nat, i: nat :: LiveFrame(live', a, q, i) <==> LiveFrame(live, a, q, i) && q != ptr;
    forall a
      ensures IsLive(live', a) <==> IsLive(live, a) && a !in live[ptr]
    {
      if IsLive(live', a) {
        var q: nat, i: nat :| LiveFrame(live', a, q, i);
        assert LiveFrame(live, a, q, i);
        if a in live[ptr] {
          var j :| 0 <= j < |live[ptr]| && live[ptr][j] == a;
          assert LiveFrame(live, a, ptr, j);
        }
      }
      if IsLive(live, a) && a !in live[ptr] {
        var q: nat, i: nat :| LiveFrame(live, a, q, i);
        assert q != ptr;
        assert LiveFrame(live', a, q, i);
      }
    }
  }

  lemma FreeOwners(s: Vm, ptr: nat, s': Vm)
    requires OneOwner(s) && ptr in s.live && s'.live == s.live - {ptr} && s'.lost == s.lost
    requires s'.m.mem.Keys == s.m.mem.Keys && (forall t :: t in s.m.mem ==> t !in PoolFree(s.m.pool))
    requires forall a :: a in s.live[ptr] ==> IsLive(s.live, a)
    requires forall x :: x in PoolFree(s'.m.pool) <==> x in PoolFree(s.m.pool) || x in s.live[ptr]
    requires forall a :: IsPoolPage(s'.m.pool, a) <==> IsPoolPage(s.m.pool, a)
    ensures OneOwner(s')
    ensures forall t :: t in s'.m.mem ==> t !in PoolFree(s'.m.pool)
    ensures forall a :: IsLive(s'.live, a) <==> IsLive(s.live, a) && a !in s.live[ptr]
  {
    LiveWithout(s.live, ptr, s'.live);
    hide PoolFree, IsPoolPage, IsLive, Unaliased;
    assert forall t :: t in s'.m.mem <==> t in s.m.mem;
  }

  lemma FreeCounts(s: Vm, ptr: nat, s': Vm)
    requires Counts(s) && ptr in s.live && s'.pages == s.pages - |s.live[ptr]| && Distinct(s.live[ptr])
    requires forall a :: a in s.live[ptr] ==> IsLive(s.live, a) && IsPoolPage(s.m.pool, a)
    requires forall a :: IsPoolPage(s'.m.pool, a) <==> IsPoolPage(s.m.pool, a)
    requires forall a :: IsLive(s'.live, a) <==> IsLive(s.live, a) && a !in s.live[ptr]
    ensures Counts(s')
  {
    hide IsPoolPage, IsLive, PoolPages;
    var frames := Elements(s.live[ptr]);
    forall a
      ensures a in LiveSet(s) <==> a in LiveSet(s') + frames
      ensures !(a in LiveSet(s') && a in frames)
    {
      PoolPagesMembers(s'.m.pool, a);
      PoolPagesMembers(s.m.pool, a);
    }
    assert LiveSet(s) == LiveSet(s') + frames && LiveSet(s') !! frames;
    DistinctCount(s.live[ptr]);
  }

  // The state a completed free ends in.
  ghost function FreeDone(s: Vm, ptr: nat, mem: Mem): Vm
    requires ptr in s.live && Freeables(s.m.pool, s.live[ptr])
  {
    Freed(s, ptr, s.live[ptr], mem)
  }

  lemma FreeReturns(s: Vm, lv: map<nat, nat>, roots: set<nat>, root: nat, ptr: nat)
    requires VmInv(s, lv, roots, root) && ptr in s.live
    requires forall a :: a in s.live[ptr] ==> PoolContains(s.m.pool, a)
    ensures Freeables(s.m.pool, s.live[ptr])
    ensures VmInv(FreeDone(s, ptr, Unmap(s.m.mem, root, ptr, |s.live[ptr]| * PAGE).mem), lv, roots, root)
    ensures SameRegions(s.m.pool, PoolRelease(s.m.pool, s.live[ptr]))
  {
    hide RangesLaidOut, WindowMapped, OneOwner, Counts, View, PoolFree, PhysicalBound, Distinct, AllocatedInPool,
      PoolInv, Shape, PoolRelease, IsPoolPage, PoolContains, Freeables, Unmap, IsLive, PageNo;
    LiveIsAllocated(s, ptr);
    PoolReleaseGivesBack(s.m.pool, s.live[ptr]);
    UnmapLive(s, lv, roots, root, ptr);
    var s' := FreeDone(s, ptr, Unmap(s.m.mem, root, ptr, |s.live[ptr]| * PAGE).mem);
    SamePages(s.m.pool, s'.m.pool);
    AllocatedFacts(s.m.pool, s.live[ptr]);
    FreeOwners(s, ptr, s');
    FreeCounts(s, ptr, s');
    FreeWindow(s, root, ptr, s');
    FreeRanges(s, ptr, s');
  }

  lemma AllocatedFacts(ps: PoolState, addrs: seq<nat>)
    requires AllocatedInPool(ps, addrs)
    ensures Distinct(addrs) && forall a :: a in addrs ==> IsPoolPage(ps, a)
  {
  }

  lemma FreeRanges(s: Vm, ptr: nat, s': Vm)
    requires RangesLaidOut(s) && s'.cursor == s.cursor && s'.live == s.live - {ptr} && s'.ranges == s.ranges
    ensures RangesLaidOut(s')
  {
  }

  // VFree of a live allocation completes exactly when the extent test of some region accepts every frame
  // behind it, and then the frames are free again.
  lemma FreeCompletes(s: Vm, lv: map<nat, nat>, roots: set<nat>, root: nat, ptr: nat, length: nat)
    requires VmInv(s, lv, roots, root) && ptr in s.live && PageCount(length) == |s.live[ptr]|
    ensures PageCount(length) <= MAX_ALLOC_PAGES
    ensures VirtualAlloc.Free(s, root, ptr, length).VmRet? <==>
              forall a :: a in s.live[ptr] ==> PoolContains(s.m.pool, a)
    ensures VirtualAlloc.Free(s, root, ptr, length).VmRet? ==>
              var t := VirtualAlloc.Free(s, root, ptr, length).s;
                  VmInv(t, lv, roots, root) && SameRegions(s.m.pool, t.m.pool)
  {
    hide VmInv, PoolContains, Freeables, PoolCount, PoolRelease, Unmap, ReadFrames;
    LengthPages(length);
    FreeSteps(s, lv, roots, root, ptr);
    assert s.live[ptr][..|s.live[ptr]|] == s.live[ptr];
    if forall a :: a in s.live[ptr] ==> PoolContains(s.m.pool, a) {
      FreeReturns(s, lv, roots, root, ptr);
    }
  }

  lemma FreeSteps(s: Vm, lv: map<nat, nat>, roots: set<nat>, root: nat, ptr: nat)
    requires VmInv(s, lv, roots, root) && ptr in s.live
    ensures var n := |s.live[ptr]|;
            && 1 <= n <= MAX_ALLOC_PAGES && ptr > 0 && ptr % PAGE == 0
            && ReadFrames(s.m.mem, root, ptr, n) == Found(s.live[ptr][..n])
            && Unmap(s.m.mem, root, ptr, n * PAGE).code == 0
            && Freeables(s.m.pool, s.live[ptr])
            && (PoolCount(s.m.pool, s.live[ptr]) == n <==> forall a :: a in s.live[ptr] ==> PoolContains(s.m.pool, a))
  {
    hide RangesLaidOut, WindowMapped, OneOwner, Counts, View, PoolFree, PhysicalBound, Distinct, PoolInv, Shape,
      IsPoolPage, PoolContains, Freeables, Unmap, IsLive, PageNo, PoolCount, ReadFrames;
    LiveStart(s, ptr);
    ReadsLive(s, root, ptr, |s.live[ptr]|);
    UnmapLive(s, lv, roots, root, ptr);
    LiveIsAllocated(s, ptr);
    InvValid(s.m.pool);
    AllFreeable(s.m.pool, s.live[ptr]);
    forall a | a in s.live[ptr]
      ensures AtMostOne(s.m.pool, a)
    {
      ContainedOnce(s.m.pool, a);
    }
    CountAll(s.m.pool, s.live[ptr]);
  }
}

// Requests the pool serves from more than one region, with its output pointer as written: what VAlloc maps then,
// and which pages end up without an owner.
module VirtualSpans {
  import opened PageWalk
  import opened FreeBits
  import opened Regions
  import opened Pools
  import opened PageTables
  import opened PageMap
  import opened VirtualAlloc
  import opened VirtualAllocSteps
  import opened VirtualFreeSteps
  import opened VirtualRuns
  import opened VirtualHalts

  // A page of the pool that is neither free nor a paging structure, nor behind a live range, nor known to be lost.
  ghost predicate Orphaned(s: Vm, a: nat) {
    IsPoolPage(s.m.pool, a) && a !in PoolFree(s.m.pool) && a !in s.m.mem && !IsLive(s.live, a) && a !in s.lost
  }

  lemma OrphanBreaksOwners(s: Vm, a: nat)
    requires Orphaned(s, a)
    ensures !OneOwner(s)
  {
  }

  // ----- giving back addresses that were never taken -----

  // A bit a release sets is that of one of the addresses.
  lemma {:induction false} SetByRelease(s: RegionState, addrs: seq<nat>, p: nat)
    requires (forall a :: a in addrs ==> Freeable(s, a)) && p < |s.bits| && Regions.Free(s, addrs).bits[p]
    ensures s.bits[p] || exists a :: a in addrs && Contains(s.g, a) && s.g.allocBase <= a && PageOf(s.g, a) == p
    decreases |addrs|
  {
    if addrs == [] {
    } else {
      var n := |addrs| - 1;
      var before, last := addrs[..n], addrs[n];
      assert addrs == before + [last];
      if Regions.Free(s, before).bits[p] {
        SetByRelease(s, before, p);
      } else {
        assert last in addrs && Contains(s.g, last) && PageOf(s.g, last) == p;
      }
    }
  }

  // What is not among the addresses handed back, all of them pages of the pool or zero, does not become free.
  lemma NotReleased(ps: PoolState, addrs: seq<nat>, x: nat)
    requires PoolInv(ps) && Freeables(ps, addrs) && IsPoolPage(ps, x) && x !in PoolFree(ps) && x !in addrs
    requires forall a :: a in addrs ==> IsPoolPage(ps, a) || a == 0
    ensures x !in PoolFree(PoolRelease(ps, addrs))
  {
    if x in PoolFree(PoolRelease(ps, addrs)) {
      ReleasedSomewhere(ps, addrs, x);
      assert false;
    }
  }

  lemma ReleasedSomewhere(ps: PoolState, addrs: seq<nat>, x: nat)
    requires PoolInv(ps) && Freeables(ps, addrs) && IsPoolPage(ps, x) && x in PoolFree(PoolRelease(ps, addrs))
    requires forall a :: a in addrs ==> IsPoolPage(ps, a) || a == 0
    ensures x in PoolFree(ps) || x in addrs
  {
    hide PoolFree, FreeAddrs, FreeList, TailClear, Counted;
    var qs := PoolRelease(ps, addrs);
    PoolFreeMembers(qs, x);
    var i: nat :| i < |qs| && x in FreeAddrs(qs[i]);
    InRegion(ps, addrs, i, x);
    if x in FreeAddrs(ps[i]) {
      PoolFreeMembers(ps, x);
    }
  }

  lemma InRegion(ps: PoolState, addrs: seq<nat>, i: nat, x: nat)
    requires PoolInv(ps) && Freeables(ps, addrs) && i < |ps| && IsPoolPage(ps, x)
    requires forall a :: a in addrs ==> Freeable(ps[i], a)
    requires x in FreeAddrs(Regions.Free(ps[i], addrs))
    requires forall a :: a in addrs ==> IsPoolPage(ps, a) || a == 0
    ensures x in FreeAddrs(ps[i]) || x in addrs
  {
    hide PoolFree, PoolInv;
    var s, t := ps[i], Regions.Free(ps[i], addrs);
    FreeAddrsMembers(t, x);
    var p: nat :| p in FreeSet(t.bits) && x == Addr(t.g, p);
    FreeListSpec(t.bits);
    FreeListSpec(s.bits);
    SetByRelease(s, addrs, p);
    if s.bits[p] {
      assert p in FreeSet(s.bits);
      FreeAddrsMembers(s, x);
    } else {
      var a :| a in addrs && Contains(s.g, a) && s.g.allocBase <= a && PageOf(s.g, a) == p;
      SamePageSame(ps, i, a);
    }
  }

  // An address region i accepts, which is a page of the pool or zero, is the address of the page its bit is for.
  lemma SamePageSame(ps: PoolState, i: nat, a: nat)
    requires PoolInv(ps) && i < |ps| && Contains(ps[i].g, a) && ps[i].g.allocBase <= a && (IsPoolPage(ps, a) || a == 0)
    ensures a == Addr(ps[i].g, PageOf(ps[i].g, a))
  {
    if IsPoolPage(ps, a) {
      var j: nat :| j < |ps| && IsPage(ps[j].g, a);
      OnlyRegion(ps, j, i, a);
    }
  }

  // ----- VAlloc -----

  // Growing the paging structures takes free frames only.
  lemma GrewAround(m: Machine, m': Machine, a: nat)
    requires Grew(m, m') && IsPoolPage(m.pool, a) && a !in PoolFree(m.pool) && a !in m.mem
    ensures IsPoolPage(m'.pool, a) && a !in PoolFree(m'.pool) && a !in m'.mem
  {
    hide PoolFree, IsPoolPage;
    var n: nat :| GrewBy(m, m', n);
    SamePages(m.pool, m'.pool);
    var free := PoolFree(m.pool);
    assert free == free[..n] + free[n..];
  }

  lemma FirstTaken(s: Vm, lv: map<nat, nat>, roots: set<nat>, root: nat, n: nat)
    requires VmInv(s, lv, roots, root) && 1 <= n <= MAX_ALLOC_PAGES && !Named(s.m.pool, n, s.advances)
    ensures PoolFree(s.m.pool) != []
    ensures var a := PoolFree(s.m.pool)[0];
            var m1 := s.m.(pool := PoolAlloc(s.m.pool, n));
            && MachineInv(m1, lv, roots)
            && IsPoolPage(m1.pool, a) && a !in PoolFree(m1.pool) && a !in m1.mem && !IsLive(s.live, a) && a !in s.lost
            && a !in Answer(s.m.pool, n, Buffer(), s.advances)
  {
    hide Shape, PoolInv, PoolFree, PoolAlloc, View, WindowMapped, RangesLaidOut, Counts, IsPoolPage, Stored, OneRegion;
    var ps := s.m.pool;
    PoolTaken(s, lv, roots, root, n);
    HeadLost(ps, n, Buffer());
    SamePages(ps, PoolAlloc(ps, n));
    SplitFree(PoolFree(ps), PoolServed(ps, n));
    assert PoolFree(ps)[0] == PoolFree(ps)[..PoolServed(ps, n)][0];
  }

  // The frames behind a served request are what the buffer holds, page by page, and the first page taken is
  // orphaned.
  lemma ServedSpan(s: Vm, lv: map<nat, nat>, roots: set<nat>, root: nat, n: nat, m2: Machine)
    requires VmInv(s, lv, roots, root) && 1 <= n <= MAX_ALLOC_PAGES && !Named(s.m.pool, n, s.advances)
    requires s.cursor + Extent(n) < VALLOC_END
    requires var phys := Answer(s.m.pool, n, Buffer(), s.advances);
             MapFrames(s.m.(pool := PoolAlloc(s.m.pool, n)), root, phys, s.cursor, n) == Ret(m2, 0)
    ensures var phys := Answer(s.m.pool, n, Buffer(), s.advances);
            View(m2.mem, root) == FlatRange(View(s.m.mem, root), phys, PageNo(s.cursor), n)
    ensures PoolFree(s.m.pool) != []
    ensures Orphaned(AllocDone(s, n, Answer(s.m.pool, n, Buffer(), s.advances)[..n], m2), PoolFree(s.m.pool)[0])
  {
    hide VmInv, MachineInv, PoolFree, PoolAlloc, Answer, View, IsPoolPage, PageNo, Named, MapFrames, Grew, IsLive;
    var phys := Answer(s.m.pool, n, Buffer(), s.advances);
    var m1 := s.m.(pool := PoolAlloc(s.m.pool, n));
    FirstTaken(s, lv, roots, root, n);
    FramesReady(s, lv, roots, root, n);
    WindowReady(s, lv, roots, root, n);
    MapFramesRefines(m1, lv, roots, root, phys, s.cursor, n);
    var lv' :| MapFramesOk(m1, roots, root, phys, PageNo(s.cursor), n, m2, lv');
    var a := PoolFree(s.m.pool)[0];
    GrewAround(m1, m2, a);
    NotLiveAfter(s.live, s.cursor, phys[..n], a);
  }

  lemma NotLiveAfter(live: map<nat, seq<nat>>, c: nat, frames: seq<nat>, a: nat)
    requires !IsLive(live, a) && a !in frames
    ensures !IsLive(live[c := frames], a)
  {
    var now := live[c := frames];
    assert forall ptr, i :: LiveFrame(now, a, ptr, i) ==> LiveFrame(live, a, ptr, i);
  }

  // So is it when the request was only partly served and the buffer's addresses were given back.
  lemma RefusedSpan(s: Vm, lv: map<nat, nat>, roots: set<nat>, root: nat, n: nat)
    requires VmInv(s, lv, roots, root) && 1 <= n <= MAX_ALLOC_PAGES && !Named(s.m.pool, n, s.advances)
    requires var k := PoolServed(s.m.pool, n);
             Freeables(PoolAlloc(s.m.pool, n), Answer(s.m.pool, n, Buffer(), s.advances)[..k])
    ensures PoolFree(s.m.pool) != []
    ensures var k := PoolServed(s.m.pool, n);
            var m1, back := s.m.(pool := PoolAlloc(s.m.pool, n)), Answer(s.m.pool, n, Buffer(), s.advances)[..k];
            Orphaned(AllocUndone(s.(m := m1), back, m1.pool), PoolFree(s.m.pool)[0])
  {
    hide VmInv, MachineInv, PoolInv, PoolFree, PoolAlloc, Answer, IsPoolPage, Named, Freeables, PoolRelease,
      PoolContains, IsLive;
    var ps, k := s.m.pool, PoolServed(s.m.pool, n);
    var m1, phys := s.m.(pool := PoolAlloc(ps, n)), Answer(ps, n, Buffer(), s.advances);
    FirstTaken(s, lv, roots, root, n);
    var a, back := PoolFree(ps)[0], phys[..k];
    PoolTaken(s, lv, roots, root, n);
    InvPool(m1, lv, roots);
    SamePages(ps, m1.pool);
    forall b | b in back
      ensures IsPoolPage(m1.pool, b) || b == 0
    {
      var j: nat :| j < k && back[j] == b;
      AnswerEntries(ps, n, Buffer(), s.advances, j);
    }
    NotReleased(m1.pool, back, a);
    ReleaseRegions(m1.pool, back);
    SamePages(m1.pool, PoolRelease(m1.pool, back));
  }

  lemma ReleaseRegions(ps: PoolState, addrs: seq<nat>)
    requires Freeables(ps, addrs)
    ensures |PoolRelease(ps, addrs)| == |ps|
    ensures forall i :: 0 <= i < |ps| ==> ps[i].g == PoolRelease(ps, addrs)[i].g
  {
  }

  // What VAlloc promises of ownership it keeps exactly when the buffer names the pages taken: otherwise the first
  // page taken is left without an owner, whether the request is served or refused.
  lemma AllocOwnersExact(s: Vm, lv: map<nat, nat>, roots: set<nat>, root: nat, length: nat)
    requires VmInv(s, lv, roots, root) && PageCount(length) <= MAX_ALLOC_PAGES
    requires VirtualAlloc.Alloc(s, root, length).VmRet?
    ensures OneOwner(VirtualAlloc.Alloc(s, root, length).s) <==> Named(s.m.pool, PageCount(length), s.advances)
    ensures !Named(s.m.pool, PageCount(length), s.advances) ==>
              && PoolFree(s.m.pool) != []
              && Orphaned(VirtualAlloc.Alloc(s, root, length).s, PoolFree(s.m.pool)[0])
  {
    hide VmInv, MapFrames, Answer, PoolAlloc, PoolRelease, Freeables, PoolFree, PoolContains, MachineInv, View, PageNo,
      Named, Buffer, AllocUndone, AllocDone, AllocPart, VirtualAlloc.Alloc, PageCount, OneOwner, Orphaned;
    var n := PageCount(length);
    var r := VirtualAlloc.Alloc(s, root, length);
    if Named(s.m.pool, n, s.advances) {
      AllocKeeps(s, lv, roots, root, length);
      var lv' :| VmInv(r.s, lv', roots, root);
      OwnersOf(r.s, lv', roots, root);
    } else {
      AllocRoom(s, lv, roots, root, n);
      AllocSplit(s, root, length);
      AllocPartCases(s, root, n);
      if PoolServed(s.m.pool, n) == n {
        var m1, phys := s.m.(pool := PoolAlloc(s.m.pool, n)), Answer(s.m.pool, n, Buffer(), s.advances);
        MapFramesCode(m1, root, phys, s.cursor, n);
        DoneIs(s, m1, n, phys[..n], MapFrames(m1, root, phys, s.cursor, n).m);
        ServedSpan(s, lv, roots, root, n, MapFrames(m1, root, phys, s.cursor, n).m);
      } else {
        RefusedSpan(s, lv, roots, root, n);
      }
      OrphanBreaksOwners(r.s, PoolFree(s.m.pool)[0]);
    }
  }

  lemma DoneIs(s: Vm, m1: Machine, n: nat, taken: seq<nat>, m2: Machine)
    ensures AllocDone(s.(m := m1), n, taken, m2) == AllocDone(s, n, taken, m2)
  {
  }

  lemma OwnersOf(s: Vm, lv: map<nat, nat>, roots: set<nat>, root: nat)
    requires VmInv(s, lv, roots, root)
    ensures OneOwner(s)
  {
    hide MachineInv, WindowMapped, RangesLaidOut, Counts, PhysicalBound, View, OneOwner;
  }
}

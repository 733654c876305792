// When the kernel halts: mapPage when the frames for missing tables run out, VAlloc when its window, the pool or those
// frames do, VFree when a page of the range is not its own to free.
module VirtualHalts {
  import opened Division
  import opened PageEntries
  import opened PageWalk
  import opened Regions
  import opened Pools
  import opened PageTables
  import opened PageMap
  import opened PageUnmap
  import opened VirtualAlloc
  import opened VirtualAllocSteps
  import opened VirtualFreeSteps
  import opened VirtualRuns

  // ----- mapPage -----

  // How many tables mapPage has to allocate below a table on its way to virt.
  function Missing(mem: Mem, table: nat, level: nat, virt: nat): nat
    requires 1 <= level <= 4
    decreases level
  {
    if level == 1 then 0
    else
      var e := Entry(mem, table, Index(virt, level));
      if !Present(e) then level - 1
      else if level < 4 && LargePage(e) then 0
      else Missing(mem, TableAddr(e), level - 1, virt)
  }

  // The pool's next k frames exist and can be reached.
  predicate Usable(ps: PoolState, early: bool, k: nat) {
    k <= |PoolFree(ps)| && forall i :: 0 <= i < k ==> PoolFree(ps)[i] < Reach(early)
  }

  // In early boot only memory below 4 GB can be reached, later all but the last page of 2 TB.
  lemma UsableIs(ps: PoolState, early: bool, k: nat)
    ensures Usable(ps, early, k) <==>
              && k <= |PoolFree(ps)|
              && forall i :: 0 <= i < k ==> PoolFree(ps)[i] < if early then 0x1_0000_0000 else 0x1FF_FFFF_F000
  {
    hide PoolFree;
  }

  lemma UsableNext(ps: PoolState, qs: PoolState, early: bool, k: nat)
    requires PoolFree(ps) != [] && PoolFree(qs) == PoolFree(ps)[1..] && PoolFree(ps)[0] < Reach(early)
    ensures Usable(ps, early, k + 1) <==> Usable(qs, early, k)
  {
    hide PoolFree;
    if Usable(ps, early, k + 1) {
      assert forall i :: 0 <= i < k ==> PoolFree(qs)[i] == PoolFree(ps)[i + 1];
    }
    if Usable(qs, early, k) {
      assert forall i :: 1 <= i < k + 1 ==> PoolFree(ps)[i] == PoolFree(qs)[i - 1];
    }
  }

  // A fresh table has nothing below it.
  lemma MissingBelowFresh(mem: Mem, page: nat, level: nat, virt: nat)
    requires 1 <= level <= 4 && page in mem && mem[page] == ZeroTable()
    ensures Missing(mem, page, level, virt) == level - 1
  {
  }

  lemma AllocExact(m: Machine)
    ensures AllocPage(m) == PagePanic <==> !Usable(m.pool, m.early, 1)
    ensures AllocPage(m).Fresh? ==>
              PoolFree(m.pool) != [] && AllocPage(m).page == PoolFree(m.pool)[0] < Reach(m.early)
  {
  }

  lemma {:induction false} FillHaltsExact(m: Machine, lv: map<nat, nat>, roots: set<nat>, t: nat, level: nat, virt: nat)
    requires MachineInv(m, lv, roots) && t in m.mem && t in lv && lv[t] == level && 1 <= level <= 4
    ensures Fill(m, t, level, virt) == FillPanic <==> !Usable(m.pool, m.early, Missing(m.mem, t, level, virt))
    decreases level
  {
    hide MachineInv, PoolFree, AllocPage, Usable, LinkAt, PoolAlloc;
    var i := Index(virt, level);
    var e := Entry(m.mem, t, i);
    NoneUsable(m.pool, m.early);
    if level > 1 && !Present(e) {
      AllocExact(m);
      FewerUsable(m.pool, m.early, level - 1);
      if AllocPage(m).Fresh? {
        var page := AllocPage(m).page;
        NextFrame(m, lv, roots);
        LinkStep(m, lv, roots, t, virt, page);
        FillAllocates(m, t, level, virt, page);
        var m2 := LinkAt(m, page, t, i, LinkEntry(page, virt));
        AddedTable(m, m2, roots, page, t, i, level);
        LinkLevel(m, lv, t, page);
        FillHaltsExact(m2, lv[page := level - 1], roots, page, level - 1, virt);
        MissingBelowFresh(m2.mem, page, level - 1, virt);
        LinkPool(m, t, i, page, LinkEntry(page, virt));
        UsableNext(m.pool, m2.pool, m.early, level - 2);
      }
    } else if level > 1 && !(level < 4 && LargePage(e)) {
      SoundChild(m, lv, roots, t, i);
      FillHaltsExact(m, lv, roots, TableAddr(e), level - 1, virt);
    }
  }

  lemma NoneUsable(ps: PoolState, early: bool)
    ensures Usable(ps, early, 0)
  {
  }

  lemma FewerUsable(ps: PoolState, early: bool, k: nat)
    requires k >= 1
    ensures Usable(ps, early, k) ==> Usable(ps, early, 1)
  {
  }

  lemma LinkPool(m: Machine, t: nat, i: nat, page: nat, entry: nat)
    ensures LinkAt(m, page, t, i, entry).pool == PoolAlloc(m.pool, 1) && LinkAt(m, page, t, i, entry).early == m.early
  {
  }

  lemma LinkLevel(m: Machine, lv: map<nat, nat>, t: nat, page: nat)
    requires t in lv && lv[t] >= 1
    ensures lv[page := lv[t] - 1][page] == lv[t] - 1
  {
  }

  lemma AddedTable(m: Machine, m': Machine, roots: set<nat>, page: nat, t: nat, i: nat, level: nat)
    requires Added(m, m', roots, page, t, i, level)
    ensures page in m'.mem && m'.mem[page] == ZeroTable()
  {
  }

  // mapPage halts exactly when the next frames of the pool are too few, or too far up, for the tables missing
  // on the way to the page.
  predicate Starved(m: Machine, root: nat, virt: nat) {
    !Usable(m.pool, m.early, Missing(m.mem, root, 4, virt))
  }

  lemma MapPageHaltsExact(m: Machine, lv: map<nat, nat>, roots: set<nat>, root: nat, phys: nat, virt: nat, mode: Mode)
    requires MachineInv(m, lv, roots) && root in roots
    ensures MapPage(m, root, phys, virt, mode) == Panic <==> Canonical(virt) && Starved(m, root, virt)
  {
    RootLevel(m, lv, roots, root);
    hide MachineInv, Usable, Missing, Fill;
    FillHaltsExact(m, lv, roots, root, 4, virt);
  }

  // ----- the mapping loop of VAlloc -----

  // The loop gets to page i and finds no frames for its tables.
  ghost predicate RunsOut(m: Machine, root: nat, frames: seq<nat>, virt: nat, i: nat)
    requires i <= |frames|
  {
    var r := MapFrames(m, root, frames, virt, i);
    r.Ret? && Starved(r.m, root, virt + i * PAGE)
  }

  lemma {:induction false} MapFramesHaltsExact(m: Machine, lv: map<nat, nat>, roots: set<nat>, root: nat,
                                               frames: seq<nat>, virt: nat, n: nat)
    requires MachineInv(m, lv, roots) && root in roots && n <= |frames|
    requires VALLOC_START <= virt && virt % PAGE == 0 && virt + n * PAGE <= VALLOC_END
    requires forall p :: PageNo(virt) <= p < PageNo(virt) + n ==> p !in View(m.mem, root)
    requires forall i :: 0 <= i < n ==> frames[i] % PAGE == 0 && frames[i] < 0x10_0000_0000_0000
    ensures MapFrames(m, root, frames, virt, n) == Panic <==>
              exists i :: 0 <= i < n && RunsOut(m, root, frames, virt, i)
  {
    hide MachineInv, View, MapPage, PageNo, Grew, Starved, Canonical;
    if n == 0 {
    } else {
      MapFramesHaltsExact(m, lv, roots, root, frames, virt, n - 1);
      var before := MapFrames(m, root, frames, virt, n - 1);
      if before.Ret? {
        MapFramesRefines(m, lv, roots, root, frames, virt, n - 1);
        var lv1 :| MapFramesOk(m, roots, root, frames, PageNo(virt), n - 1, before.m, lv1);
        var v := virt + (n - 1) * PAGE;
        WindowPage(virt, n - 1);
        MapPageHaltsExact(before.m, lv1, roots, root, frames[n - 1], v, KERNEL_RW);
        if MapPage(before.m, root, frames[n - 1], v, KERNEL_RW).Ret? {
          MapNext(m, roots, root, frames, virt, n, before.m, lv1);
        }
        assert RunsOut(m, root, frames, virt, n - 1) <==> Starved(before.m, root, v);
      }
    }
  }

  // ----- VAlloc -----

  // What Alloc does once the request has been checked.
  ghost function AllocPart(s: Vm, root: nat, n: nat): VmResult<nat>
    requires 1 <= n <= MAX_ALLOC_PAGES
  {
    var phys := Answer(s.m.pool, n, Buffer(), s.advances);
    var m1 := s.m.(pool := PoolAlloc(s.m.pool, n));
    var served := PoolServed(s.m.pool, n);
    if served != n then
      if served == 0 || !Freeables(m1.pool, phys[..served]) then VmPanic
      else VmRet(AllocUndone(s.(m := m1), phys[..served], m1.pool), 0)
    else
      match MapFrames(m1, root, phys, s.cursor, n)
      case Panic => VmPanic
      case Ret(m2, _) => VmRet(AllocDone(s, n, phys[..n], m2), s.cursor)
  }

  lemma AllocPartCases(s: Vm, root: nat, n: nat)
    requires 1 <= n <= MAX_ALLOC_PAGES
    ensures var phys, served := Answer(s.m.pool, n, Buffer(), s.advances), PoolServed(s.m.pool, n);
            var s1 := s.(m := s.m.(pool := PoolAlloc(s.m.pool, n)));
            && (served == 0 ==> AllocPart(s, root, n) == VmPanic)
            && (0 < served < n && Freeables(s1.m.pool, phys[..served]) ==>
                  AllocPart(s, root, n) == VmRet(AllocUndone(s1, phys[..served], s1.m.pool), 0))
            && (0 < served < n && !Freeables(s1.m.pool, phys[..served]) ==> AllocPart(s, root, n) == VmPanic)
            && (served == n ==>
                  AllocPart(s, root, n) ==
                  match MapFrames(s1.m, root, phys, s.cursor, n)
                  case Panic => VmPanic
                  case Ret(m2, _) => VmRet(AllocDone(s1, n, phys[..n], m2), s.cursor))
  {
    hide MapFrames, Answer, PoolAlloc, PoolRelease, Freeables, PoolFree, PoolContains;
  }

  lemma AllocSplit(s: Vm, root: nat, length: nat)
    requires PageCount(length) <= MAX_ALLOC_PAGES
    requires (s.cursor + Extent(PageCount(length))) % ADDR_LIMIT == s.cursor + Extent(PageCount(length))
    ensures VirtualAlloc.Alloc(s, root, length) ==
            if s.cursor + Extent(PageCount(length)) < VALLOC_END && PageCount(length) > 0
            then AllocPart(s, root, PageCount(length))
            else VmPanic
  {
    hide MapFrames, Answer, PoolAlloc, PoolRelease, Freeables, PoolServed, PoolContains;
    LengthPages(length);
  }

  lemma MapFramesNone(m: Machine, root: nat, frames: seq<nat>, virt: nat)
    ensures MapFrames(m, root, frames, virt, 0) == Ret(m, 0)
  {
  }

  lemma MapFramesUnfold(m: Machine, root: nat, frames: seq<nat>, virt: nat, n: nat, m1: Machine)
    requires n < |frames| && MapFrames(m, root, frames, virt, n) == Ret(m1, 0)
    ensures MapFrames(m, root, frames, virt, n + 1) ==
            match MapPage(m1, root, frames[n], virt + n * PAGE, KERNEL_RW)
            case Panic => Panic
            case Ret(m2, code) => if code != 0 then Panic else Ret(m2, 0)
  {
    hide MapPage;
  }

  lemma {:induction false} MapFramesStops(m: Machine, root: nat, frames: seq<nat>, virt: nat, k: nat, n: nat)
    requires k <= n <= |frames| && MapFrames(m, root, frames, virt, k) == Panic
    ensures MapFrames(m, root, frames, virt, n) == Panic
    decreases n
  {
    if k == n {
    } else {
      MapFramesStops(m, root, frames, virt, k, n - 1);
    }
  }

  lemma BufferIs(b: seq<nat>)
    requires |b| == MAX_ALLOC_PAGES && forall i :: 0 <= i < |b| ==> b[i] == 0
    ensures b == Buffer()
  {
  }

  // What the pool's answer looks like to the caller: page addresses, or zero where none was stored.
  ghost predicate FramesOk(m1: Machine, lv: map<nat, nat>, roots: set<nat>, root: nat, frames: seq<nat>) {
    && MachineInv(m1, lv, roots) && root in roots && PoolInv(m1.pool)
    && forall i :: 0 <= i < |frames| ==> frames[i] % PAGE == 0 && frames[i] < 0x10_0000_0000_0000
  }

  lemma FramesReady(s: Vm, lv: map<nat, nat>, roots: set<nat>, root: nat, n: nat)
    requires 1 <= n <= MAX_ALLOC_PAGES && VmInv(s, lv, roots, root)
    ensures PoolServed(s.m.pool, n) <= n
    ensures FramesOk(s.m.(pool := PoolAlloc(s.m.pool, n)), lv, roots, root, Answer(s.m.pool, n, Buffer(), s.advances))
  {
    hide MachineInv, RangesLaidOut, WindowMapped, OneOwner, Counts, View, PoolFree, PoolAlloc, Answer, PhysicalBound,
      Distinct, AllocatedInPool;
    PoolTaken(s, lv, roots, root, n);
    var phys := Answer(s.m.pool, n, Buffer(), s.advances);
    forall i | 0 <= i < |phys|
      ensures phys[i] % PAGE == 0 && phys[i] < 0x10_0000_0000_0000
    {
      AnswerEntries(s.m.pool, n, Buffer(), s.advances, i);
    }
    InvPool(s.m.(pool := PoolAlloc(s.m.pool, n)), lv, roots);
  }

  // A partly served request whose buffer names an address no bitmap has a bit for: giving it back writes
  // outside the bitmaps. That takes a second region and a region at physical address zero.
  predicate Wild(ps: PoolState, n: nat, advances: bool)
    requires n <= MAX_ALLOC_PAGES
  {
    && 0 < PoolServed(ps, n) < n
    && exists i, a :: 0 <= i < |PoolAlloc(ps, n)|
         && a in Answer(ps, n, Buffer(), advances)[..PoolServed(ps, n)] && !Freeable(PoolAlloc(ps, n)[i], a)
  }

  lemma NotWild(ps: PoolState, n: nat, advances: bool)
    requires n <= MAX_ALLOC_PAGES && 0 < PoolServed(ps, n) < n
    ensures Wild(ps, n, advances) <==>
              !Freeables(PoolAlloc(ps, n), Answer(ps, n, Buffer(), advances)[..PoolServed(ps, n)])
  {
    hide PoolAlloc, Answer, Freeable, PoolFree;
  }

  // Room for n pages at the cursor.
  lemma WindowReady(s: Vm, lv: map<nat, nat>, roots: set<nat>, root: nat, n: nat)
    requires VmInv(s, lv, roots, root) && s.cursor + Extent(n) < VALLOC_END
    ensures VALLOC_START <= s.cursor && s.cursor % PAGE == 0 && s.cursor + n * PAGE <= VALLOC_END
    ensures forall p :: PageNo(s.cursor) <= p < PageNo(s.cursor) + n ==> p !in View(s.m.mem, root)
  {
    hide MachineInv, RangesLaidOut, WindowMapped, OneOwner, Counts, View, PhysicalBound, PageNo;
    CursorBounds(s);
    forall p | PageNo(s.cursor) <= p < PageNo(s.cursor) + n
      ensures p !in View(s.m.mem, root)
    {
      AboveCursorFree(s, root, p - PageNo(s.cursor));
    }
  }

  // VAlloc halts the kernel exactly when no page is asked for, the window has no room, the pool has no page at
  // all, or it has enough for the request but too few usable ones for the tables on the way; or it is partly
  // served and giving back runs wild.
  lemma AllocHaltsExact(s: Vm, lv: map<nat, nat>, roots: set<nat>, root: nat, length: nat)
    requires VmInv(s, lv, roots, root) && PageCount(length) <= MAX_ALLOC_PAGES
    ensures var n := PageCount(length);
            var m1, phys := s.m.(pool := PoolAlloc(s.m.pool, n)), Answer(s.m.pool, n, Buffer(), s.advances);
            VirtualAlloc.Alloc(s, root, length) == VmPanic <==>
              || n == 0 || s.cursor + (n + 2) * 0x1000 >= 0xFFFF_90FF_FFFF_FFFF || PoolFree(s.m.pool) == []
              || (n <= |PoolFree(s.m.pool)| && exists i :: 0 <= i < n && RunsOut(m1, root, phys, s.cursor, i))
              || Wild(s.m.pool, n, s.advances)
  {
    hide VmInv, MapFrames, Answer, PoolAlloc, PoolRelease, Freeables, Wild, PoolFree, PoolContains, MachineInv, PoolInv,
      AllocatedInPool, View, PageNo, Buffer, AllocUndone, AllocDone, AllocPart, RunsOut, VirtualAlloc.Alloc, PageCount;
    var n := PageCount(length);
    AllocRoom(s, lv, roots, root, n);
    AllocSplit(s, root, length);
    if n > 0 && s.cursor + Extent(n) < VALLOC_END {
      var m1, phys := s.m.(pool := PoolAlloc(s.m.pool, n)), Answer(s.m.pool, n, Buffer(), s.advances);
      AllocPartCases(s, root, n);
      FramesReady(s, lv, roots, root, n);
      WindowReady(s, lv, roots, root, n);
      if PoolServed(s.m.pool, n) == n {
        MapFramesHaltsExact(m1, lv, roots, root, phys, s.cursor, n);
        ServedNotWild(s.m.pool, n, s.advances);
      } else if PoolServed(s.m.pool, n) > 0 {
        NotWild(s.m.pool, n, s.advances);
      } else {
        ServedNotWild(s.m.pool, n, s.advances);
      }
    }
  }

  lemma ServedNotWild(ps: PoolState, n: nat, advances: bool)
    requires n <= MAX_ALLOC_PAGES && (PoolServed(ps, n) == 0 || PoolServed(ps, n) == n)
    ensures !Wild(ps, n, advances)
  {
    hide PoolAlloc, Answer, Freeable, PoolFree;
  }

  // A buffer that names the pages taken is never wild.
  lemma NamedNotWild(s: Vm, lv: map<nat, nat>, roots: set<nat>, root: nat, n: nat)
    requires VmInv(s, lv, roots, root) && 1 <= n <= MAX_ALLOC_PAGES && Named(s.m.pool, n, s.advances)
    ensures !Wild(s.m.pool, n, s.advances)
  {
    hide VmInv, PoolFree, PoolAlloc, Answer, Named, Freeables, Wild;
    if 0 < PoolServed(s.m.pool, n) < n {
      AllocRefused(s, lv, roots, root, n);
      NotWild(s.m.pool, n, s.advances);
    } else {
      ServedNotWild(s.m.pool, n, s.advances);
    }
  }

  // ----- VFree -----

  // The page at this address is a mapped 4K page.
  predicate SmallPage(mem: Mem, root: nat, virt: nat) {
    Canonical(virt) && Walk(mem, root, virt).Mapped? && Walk(mem, root, virt).level == 1
  }

  lemma {:induction false} ReadExact(mem: Mem, root: nat, virt: nat, n: nat)
    ensures ReadFrames(mem, root, virt, n).Found? <==> forall i: nat :: i < n ==> SmallPage(mem, root, PageAt(virt, i))
    ensures ReadFrames(mem, root, virt, n).Found? ==>
              var frames := ReadFrames(mem, root, virt, n).frames;
              |frames| == n && forall i: nat :: i < n ==> frames[i] == FrameAt(mem, root, PageAt(virt, i))
  {
    hide Walk, Canonical, PageAt;
    if n == 0 {
    } else {
      ReadExact(mem, root, virt, n - 1);
      assert SmallPage(mem, root, PageAt(virt, n - 1)) || !SmallPage(mem, root, PageAt(virt, n - 1));
    }
  }

  // The physical address a virtual one is translated to; zero if it is not.
  function FrameAt(mem: Mem, root: nat, virt: nat): nat {
    var t := Walk(mem, root, virt);
    if t.Mapped? then t.phys else 0
  }

  // Some region takes this address back, and none has a bit outside its bitmap for it.
  ghost predicate TakenBack(ps: PoolState, a: nat) {
    PoolContains(ps, a) && forall i :: 0 <= i < |ps| ==> Freeable(ps[i], a)
  }

  // Giving the frames of a range back writes outside a bitmap.
  ghost predicate FreesWild(s: Vm, root: nat, ptr: nat, length: nat) {
    exists i: nat, j: nat :: i < PageCount(length) && j < |s.m.pool|
      && !Freeable(s.m.pool[j], FrameAt(s.m.mem, root, PageAt(ptr, i)))
  }

  lemma FramesFreeable(s: Vm, root: nat, ptr: nat, length: nat)
    requires ReadFrames(s.m.mem, root, ptr, PageCount(length)).Found?
    ensures var frames := ReadFrames(s.m.mem, root, ptr, PageCount(length)).frames;
            Freeables(s.m.pool, frames) <==> !FreesWild(s, root, ptr, length)
  {
    hide Freeable, PageAt, PageCount, FrameAt;
    ReadExact(s.m.mem, root, ptr, PageCount(length));
    var frames := ReadFrames(s.m.mem, root, ptr, PageCount(length)).frames;
    assert forall i :: 0 <= i < |frames| ==> frames[i] in frames;
  }

  // VFree halts the kernel, or runs wild, for any pointer and length exactly when one is zero, the pointer is no page
  // address, a page of the range is no mapped 4K page, or the frame behind one is not taken back by the pool.
  lemma FreeHaltsExact(s: Vm, lv: map<nat, nat>, roots: set<nat>, root: nat, ptr: nat, length: nat)
    requires VmInv(s, lv, roots, root) && PageCount(length) <= MAX_ALLOC_PAGES
    ensures VirtualAlloc.Free(s, root, ptr, length) == VmPanic <==>
              || ptr == 0 || length == 0 || ptr % 0x1000 != 0
              || exists i: nat :: i < PageCount(length)
                   && (!SmallPage(s.m.mem, root, PageAt(ptr, i))
                       || !TakenBack(s.m.pool, FrameAt(s.m.mem, root, PageAt(ptr, i))))
  {
    hide VmInv, Walk, Canonical, PageAt, PageCount, NearestPageSize, PoolRelease, PoolCount, Unmap, Freeable, Contains,
      SmallPage, FrameAt, FreesWild;
    if ptr != 0 && length != 0 && ptr % PAGE == 0 {
      var n, mem := PageCount(length), s.m.mem;
      ReadExact(mem, root, ptr, n);
      if ReadFrames(mem, root, ptr, n).Found? {
        var frames := ReadFrames(mem, root, ptr, n).frames;
        UnmapsAll(s, lv, roots, root, ptr, length);
        CountTaken(s, lv, roots, root, frames);
        assert forall i :: 0 <= i < n ==> frames[i] in frames;
      }
    }
  }

  lemma UnmapsAll(s: Vm, lv: map<nat, nat>, roots: set<nat>, root: nat, ptr: nat, length: nat)
    requires VmInv(s, lv, roots, root) && ptr != 0 && length != 0 && ptr % PAGE == 0
    requires forall i: nat :: i < PageCount(length) ==> SmallPage(s.m.mem, root, PageAt(ptr, i))
    ensures Unmap(s.m.mem, root, ptr, NearestPageSize(length)).code == 0
  {
    hide RangesLaidOut, WindowMapped, OneOwner, Counts, PhysicalBound, PoolInv, PageAt, Shape, Walk, Canonical, View,
      UnmapSome, RootsStay;
    LengthPages(length);
    DivUnique(NearestPageSize(length), PAGE, PageCount(length), 0);
    UnmapRefines(s.m.mem, lv, roots, root, ptr, PageCount(length));
    assert forall i: nat :: i < PageCount(length) ==> SmallPage(s.m.mem, root, PageAt(ptr, i));
    assert CanonicalRange(ptr, PageCount(length));
  }

  lemma CountTaken(s: Vm, lv: map<nat, nat>, roots: set<nat>, root: nat, frames: seq<nat>)
    requires VmInv(s, lv, roots, root)
    ensures Freeables(s.m.pool, frames) && PoolCount(s.m.pool, frames) == |frames| <==>
              forall a :: a in frames ==> TakenBack(s.m.pool, a)
  {
    hide Freeable, Contains, Shape, View, RangesLaidOut, WindowMapped, OneOwner, Counts, PhysicalBound, PoolInv;
    InvPool(s.m, lv, roots);
    InvValid(s.m.pool);
    forall a | a in frames
      ensures AtMostOne(s.m.pool, a)
    {
      ContainedOnce(s.m.pool, a);
    }
    CountAll(s.m.pool, frames);
  }
}

// The PageAllocator object (Vm/PageAllocator.cpp): a cursor and a counter over the kernel map's page table.
module PageAllocatorObject {
  import opened PageEntries
  import opened PageWalk
  import opened Pools
  import opened PageTables
  import opened PageMap
  import opened PageUnmap
  import opened PageTableObject
  import opened VirtualAlloc
  import opened VirtualAllocSteps
  import opened VirtualFreeSteps
  import opened VirtualRuns
  import opened VirtualHalts
  import Boot

  class PageAllocator {
    const pt: PageTable  // the kernel map's
    var allocCursor: nat
    var pagesAllocated: int
    ghost var live: map<nat, seq<nat>>
    ghost var ranges: seq<Range>
    ghost var lost: set<nat>

    ghost predicate Valid()
      reads this, pt, pt.frames
    {
      pt.Valid() && (this as object) !in {pt as object} + pt.Footprint()
    }

    ghost function State(): Vm
      requires Valid()
      reads this, pt, pt.frames, pt.Footprint()
    {
      Vm(pt.State(), allocCursor, pagesAllocated, live, ranges, lost, false)
    }

    // Init
    constructor (pt: PageTable)
      requires pt.Valid()
      ensures Valid() && this.pt == pt
      ensures State() == Boot.Started(pt.State(), false)
    {
      this.pt := pt;
      allocCursor, pagesAllocated := VALLOC_START, 0;
      live, ranges := map[], [];
      lost := set a | a in PoolPages(pt.frames.State()) && a !in PoolFree(pt.frames.State()) && a !in pt.memory.tables;
    }

    // The mapping loop: the first numPages frames at consecutive pages from the cursor.
    method MapAll(phys: array<nat>, numPages: nat, ghost lv: map<nat, nat>, ghost roots: set<nat>)
      returns (r: Halting<int>)
      requires Valid() && pt.Sound(lv, roots) && numPages <= phys.Length && (phys as object) !in pt.Footprint()
      requires VALLOC_START <= allocCursor && allocCursor % PAGE == 0 && allocCursor + numPages * PAGE <= VALLOC_END
      requires forall p :: PageNo(allocCursor) <= p < PageNo(allocCursor) + numPages ==>
                 p !in View(pt.memory.tables, pt.pml4Phys)
      requires forall i :: 0 <= i < numPages ==> phys[i] % PAGE == 0 && phys[i] < 0x10_0000_0000_0000
      modifies pt.memory`tables, pt.frames.Repr()
      ensures Valid() && pt.frames.Repr() == old(pt.frames.Repr())
      ensures MapFrames(old(pt.State()), pt.pml4Phys, old(phys[..]), allocCursor, numPages) ==
              match r case Halted => Panic case Value(_) => Ret(pt.State(), 0)
    {
      hide MachineInv, View, PageNo, MapFrames;
      ghost var m, frames := pt.State(), phys[..];
      MapFramesNone(m, pt.pml4Phys, frames, allocCursor);
      var virt := allocCursor;
      var i := 0;
      while i < numPages
        invariant i <= numPages && virt == allocCursor + i * PAGE && phys[..] == frames
        invariant Valid() && pt.frames.Repr() == old(pt.frames.Repr())
        invariant MapFrames(m, pt.pml4Phys, frames, allocCursor, i) == Ret(pt.State(), 0)
      {
        var err := MapOne(phys[i], virt, m, frames, i, lv, roots);
        if err {
          MapFramesStops(m, pt.pml4Phys, frames, allocCursor, i + 1, numPages);
          return Halted;
        }
        virt := virt + PAGE;
        i := i + 1;
      }
      r := Value(0);
    }

    // One page of the range; the result says whether the kernel halted.
    method MapOne(frame: nat, virt: nat, ghost m: Machine, ghost frames: seq<nat>, ghost i: nat,
                  ghost lv: map<nat, nat>, ghost roots: set<nat>)
      returns (err: bool)
      requires Valid() && MachineInv(m, lv, roots) && pt.pml4Phys in roots && i < |frames| && frame == frames[i]
      requires VALLOC_START <= allocCursor && allocCursor % PAGE == 0 && allocCursor + i * PAGE + PAGE <= VALLOC_END
      requires virt == allocCursor + i * PAGE
      requires forall p :: PageNo(allocCursor) <= p <= PageNo(allocCursor) + i ==> p !in View(m.mem, pt.pml4Phys)
      requires forall k :: 0 <= k <= i ==> frames[k] % PAGE == 0 && frames[k] < 0x10_0000_0000_0000
      requires MapFrames(m, pt.pml4Phys, frames, allocCursor, i) == Ret(pt.State(), 0)
      modifies pt.memory`tables, pt.frames.Repr()
      ensures Valid() && pt.frames.Repr() == old(pt.frames.Repr())
      ensures MapFrames(m, pt.pml4Phys, frames, allocCursor, i + 1) == if err then Panic else Ret(pt.State(), 0)
    {
      hide MachineInv, View, PageNo, MapFrames, PageTables.MapPage, Grew, FlatRange;
      MapFramesRefines(m, lv, roots, pt.pml4Phys, frames, allocCursor, i);
      ghost var m1 := pt.State();
      ghost var lv1 :| MapFramesOk(m, roots, pt.pml4Phys, frames, PageNo(allocCursor), i, m1, lv1);
      var mapped := pt.MapPage(frame, virt, KERNEL_RW, lv1, roots);
      MapFramesUnfold(m, pt.pml4Phys, frames, allocCursor, i, m1);
      err := mapped.Halted? || mapped.value != 0;
    }

    // A partial allocation goes back, as far as the pool takes it.
    method GiveBack(phys: array<nat>, got: nat)
      requires Valid() && got <= phys.Length && (phys as object) !in pt.Footprint() && phys as object != this
      requires ValidPool(State().m.pool) && Freeables(State().m.pool, phys[..got])
      modifies this`lost, pt.frames.Repr()
      ensures Valid() && pt.frames.Repr() == old(pt.frames.Repr())
      ensures Freeables(old(State().m.pool), old(phys[..got]))
      ensures State() == AllocUndone(old(State()), old(phys[..got]), old(State().m.pool))
    {
      hide ValidPool, Freeables, PoolRelease, PoolContains, AllocUndone;
      ghost var pool1, taken := State().m.pool, phys[..got];
      var freed := pt.frames.Free(got, phys);
      UndoneIs(old(State()), taken, pool1);
      lost := lost + NotTakenBack(pool1, taken);
    }

    // Map the frames and advance the cursor.
    method Record(phys: array<nat>, numPages: nat, pageLengthWithGuards: nat, ghost lv: map<nat, nat>,
                  ghost roots: set<nat>)
      returns (r: Halting<nat>)
      requires Valid() && pt.Sound(lv, roots) && numPages <= phys.Length
      requires (phys as object) !in pt.Footprint() && phys as object != this
      requires VALLOC_START <= allocCursor && allocCursor % PAGE == 0 && allocCursor + numPages * PAGE <= VALLOC_END
      requires forall p :: PageNo(allocCursor) <= p < PageNo(allocCursor) + numPages ==>
                 p !in View(pt.memory.tables, pt.pml4Phys)
      requires forall i :: 0 <= i < numPages ==> phys[i] % PAGE == 0 && phys[i] < 0x10_0000_0000_0000
      requires pageLengthWithGuards == Extent(numPages)
      modifies this, pt.memory`tables, pt.frames.Repr()
      ensures Valid() && pt.frames.Repr() == old(pt.frames.Repr())
      ensures match MapFrames(old(pt.State()), pt.pml4Phys, old(phys[..]), old(allocCursor), numPages)
              case Panic => r == Halted
              case Ret(m2, _) =>
                r == Value(old(allocCursor)) && State() == AllocDone(old(State()), numPages, old(phys[..numPages]), m2)
    {
      hide MachineInv, View, PageNo, MapFrames;
      var mapped := MapAll(phys, numPages, lv, roots);
      if mapped.Halted? {
        return Halted;
      }
      var startPtr := allocCursor;
      ranges, live := ranges + [Range(startPtr, numPages)], live[startPtr := phys[..numPages]];
      allocCursor := allocCursor + pageLengthWithGuards;
      pagesAllocated := pagesAllocated + numPages;
      r := Value(startPtr);
    }

    // Frames from the pool and their mapping, once the request has been checked.
    method AllocPages(numPages: nat, pageLengthWithGuards: nat, ghost lv: map<nat, nat>, ghost roots: set<nat>)
      returns (r: Halting<nat>)
      requires Valid() && VmInv(State(), lv, roots, pt.pml4Phys)
      requires 1 <= numPages <= MAX_ALLOC_PAGES && !Wild(State().m.pool, numPages, false)
      requires pageLengthWithGuards == Extent(numPages) && allocCursor + Extent(numPages) < VALLOC_END
      modifies this, pt.memory`tables, pt.frames.Repr()
      ensures Valid() && pt.frames.Repr() == old(pt.frames.Repr())
      ensures AllocPart(old(State()), pt.pml4Phys, numPages) ==
              match r case Halted => VmPanic case Value(ptr) => VmRet(State(), ptr)
    {
      hide VmInv, MapFrames, Answer, Stored, PoolAlloc, PoolRelease, Freeables, Wild, PoolFree, PoolContains,
        PoolServed, MachineInv, AllocatedInPool, PoolInv, View, PageNo, Buffer, AllocUndone, AllocDone, AllocPart;
      ghost var s := State();
      var phys := new nat[16](_ => 0);
      BufferIs(phys[..]);
      AnswerAsWritten(s.m.pool, numPages, Buffer());
      FramesReady(s, lv, roots, pt.pml4Phys, numPages);
      var got := pt.frames.Alloc(numPages, phys);
      ghost var m1 := s.m.(pool := PoolAlloc(s.m.pool, numPages));
      assert pt.frames.Repr() == old(pt.frames.Repr()) && Valid();
      assert pt.State() == m1;
      ghost var s1, taken := s.(m := m1), Answer(s.m.pool, numPages, Buffer(), s.advances)[..got];
      assert State() == s1 && phys[..got] == taken;
      AllocPartCases(s, pt.pml4Phys, numPages);
      if got != numPages {
        if got == 0 {
          return Halted;
        }
        NotWild(s.m.pool, numPages, false);
        InvValid(m1.pool);
        GiveBack(phys, got);
        return Value(0);
      }
      WindowReady(s, lv, roots, pt.pml4Phys, numPages);
      r := Record(phys, numPages, pageLengthWithGuards, lv, roots);
    }

    method Alloc(length: nat, ghost lv: map<nat, nat>, ghost roots: set<nat>) returns (r: Halting<nat>)
      requires Valid() && VmInv(State(), lv, roots, pt.pml4Phys)
      requires PageCount(length) <= MAX_ALLOC_PAGES && !Wild(State().m.pool, PageCount(length), false)
      modifies this, pt.memory`tables, pt.frames.Repr()
      ensures Valid() && pt.frames.Repr() == old(pt.frames.Repr())
      ensures match r
              case Halted => VirtualAlloc.Alloc(old(State()), pt.pml4Phys, length) == VmPanic
              case Value(ptr) => VirtualAlloc.Alloc(old(State()), pt.pml4Phys, length) == VmRet(State(), ptr)
    {
      hide VmInv, AllocPart, Wild;
      ghost var s := State();
      var pageLength := NearestPageSize(length);
      var pageLengthWithGuards := pageLength + NUM_GUARD_PAGES * PAGE;
      LengthPages(length);
      AllocRoom(s, lv, roots, pt.pml4Phys, PageCount(length));
      AllocSplit(s, pt.pml4Phys, length);
      var end := (allocCursor + pageLengthWithGuards) % ADDR_LIMIT;
      if !(end < VALLOC_END && end > allocCursor) {
        return Halted;
      }
      var numPages := pageLength / PAGE;
      if numPages == 0 {
        return Halted;
      }
      r := AllocPages(numPages, pageLengthWithGuards, lv, roots);
    }

    // The loop that reads out the frames behind the range.
    method ReadAll(ptr: nat, numPages: nat, phys: array<nat>, ghost lv: map<nat, nat>, ghost roots: set<nat>)
      returns (r: Halting<int>)
      requires Valid() && pt.Sound(lv, roots) && numPages <= phys.Length && (phys as object) !in pt.Footprint()
      requires phys as object != this && phys as object != pt
      modifies phys
      ensures match r
              case Halted => ReadFrames(pt.memory.tables, pt.pml4Phys, ptr, numPages) == NotMapped
              case Value(_) => ReadFrames(pt.memory.tables, pt.pml4Phys, ptr, numPages) == Found(phys[..numPages])
    {
      hide MachineInv, PageUnmap.GetPhysAddr;
      ghost var mem, root := pt.memory.tables, pt.pml4Phys;
      var i := 0;
      while i < numPages
        invariant i <= numPages
        invariant ReadFrames(mem, root, ptr, i) == Found(phys[..i])
      {
        var virt := PageAt(ptr, i);
        var got := pt.GetPhysAddr(virt, lv, roots);
        OneIsMapped(mem, root, virt);
        if got.code != 1 {
          ReadStops(mem, root, ptr, i + 1, numPages);
          return Halted;
        }
        phys[i] := got.out.phys;
        assert phys[..i + 1] == phys[..i] + [got.out.phys];
        i := i + 1;
      }
      r := Value(0);
    }

    // The last step: hand the frames to the pool, which must take every one of them.
    method Release(ptr: nat, numPages: nat, phys: array<nat>) returns (r: Halting<()>)
      requires Valid() && numPages <= phys.Length && (phys as object) !in pt.Footprint() && phys as object != this
      requires ValidPool(State().m.pool) && Freeables(State().m.pool, phys[..numPages])
      modifies this, pt.frames.Repr()
      ensures Valid() && pt.frames.Repr() == old(pt.frames.Repr())
      ensures Freeables(old(State().m.pool), old(phys[..numPages]))
      ensures match r
              case Halted => PoolCount(old(State().m.pool), old(phys[..numPages])) != numPages
              case Value(_) =>
                && PoolCount(old(State().m.pool), old(phys[..numPages])) == numPages
                && State() == Freed(old(State()), ptr, old(phys[..numPages]), old(pt.memory.tables))
    {
      hide ValidPool, Freeables, PoolRelease, PoolCount;
      var freed := pt.frames.Free(numPages, phys);
      if freed != numPages {
        return Halted;
      }
      pagesAllocated := pagesAllocated - numPages;
      live := live - {ptr};
      r := Value(());
    }

    // Free, for any pointer, unless giving the frames back runs wild
    method Free(ptr: nat, length: nat, ghost lv: map<nat, nat>, ghost roots: set<nat>) returns (r: Halting<()>)
      requires Valid() && VmInv(State(), lv, roots, pt.pml4Phys)
      requires PageCount(length) <= MAX_ALLOC_PAGES && !FreesWild(State(), pt.pml4Phys, ptr, length)
      modifies this, pt.memory`tables, pt.frames.Repr()
      ensures Valid() && pt.frames.Repr() == old(pt.frames.Repr())
      ensures VirtualAlloc.Free(old(State()), pt.pml4Phys, ptr, length) ==
              match r case Halted => VmPanic case Value(_) => VmRet(State(), ())
    {
      hide VmInv, PageUnmap.Unmap, ReadFrames, PoolRelease, Freeables, PoolContains, MachineInv, ValidPool, PoolCount,
        NearestPageSize, PageCount, FreesWild, Freed;
      ghost var s, root := State(), pt.pml4Phys;
      LengthPages(length);
      InvParts(s, lv, roots, root);
      if ptr == 0 || length == 0 || ptr % PAGE != 0 {
        return Halted;
      }
      var phys := new nat[16](_ => 0);
      var pageLength := NearestPageSize(length);
      var numPages := PageCount(length);
      var read := ReadAll(ptr, numPages, phys, lv, roots);
      if read.Halted? {
        return Halted;
      }
      ghost var frames := phys[..numPages];
      FramesFreeable(s, root, ptr, length);
      var err := pt.Unmap(ptr, pageLength, lv, roots);
      if err != 0 {
        return Halted;
      }
      FreedFrame(s, State(), ptr, frames);
      r := Release(ptr, numPages, phys);
    }
  }

  lemma InvParts(s: Vm, lv: map<nat, nat>, roots: set<nat>, root: nat)
    requires VmInv(s, lv, roots, root)
    ensures MachineInv(s.m, lv, roots) && root in roots && ValidPool(s.m.pool)
  {
    hide Shape, RangesLaidOut, WindowMapped, OneOwner, Counts, View, PoolFree, PhysicalBound, ValidPool;
    InvPool(s.m, lv, roots);
    InvValid(s.m.pool);
  }

  // What is left after a free does not depend on the paging structures before it.
  lemma FreedFrame(s: Vm, s': Vm, ptr: nat, frames: seq<nat>)
    requires Freeables(s.m.pool, frames) && s' == s.(m := s.m.(mem := s'.m.mem))
    ensures Freed(s', ptr, frames, s'.m.mem) == Freed(s, ptr, frames, s'.m.mem)
  {
  }

  lemma OneIsMapped(mem: Mem, root: nat, virt: nat)
    ensures PageUnmap.GetPhysAddr(mem, root, virt).code == 1 ==> PageUnmap.GetPhysAddr(mem, root, virt).out.Mapped?
  {
  }

  lemma {:induction false} ReadStops(mem: Mem, root: nat, virt: nat, k: nat, n: nat)
    requires k <= n && ReadFrames(mem, root, virt, k) == NotMapped
    ensures ReadFrames(mem, root, virt, n) == NotMapped
    decreases n
  {
    if k == n {
    } else {
      ReadStops(mem, root, virt, k, n - 1);
    }
  }

  ghost function NotTakenBack(ps: PoolState, addrs: seq<nat>): set<nat> {
    set a | a in addrs && !PoolContains(ps, a)
  }

  lemma UndoneIs(s: Vm, taken: seq<nat>, ps: PoolState)
    requires Freeables(ps, taken)
    ensures AllocUndone(s, taken, ps) ==
            s.(m := s.m.(pool := PoolRelease(ps, taken)), lost := s.lost + NotTakenBack(ps, taken))
  {
  }
}

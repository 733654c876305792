// The zone allocator (Vm/ZoneAllocator.h) on values: fixed-size slots in a list of regions, each with a
// bitmap in which a set bit is an available slot.
module Zones {
  import opened Division
  import opened FreeBits

  const BITMAP_BITS: nat := 384

  // sizeof(T), where storage starts in a region, and the region size.
  datatype Shape = Shape(size: nat, offset: nat, regionSize: nat)

  predicate ValidShape(z: Shape) {
    z.size > 0 && z.offset <= z.regionSize && NumItems(z) <= BITMAP_BITS
  }

  function NumItems(z: Shape): nat
    requires z.size > 0 && z.offset <= z.regionSize
  {
    (z.regionSize - z.offset) / z.size
  }

  datatype RegionState = RegionState(base: nat, bits: seq<bool>)

  type ZoneState = seq<RegionState>

  // addressFor
  function Slot(z: Shape, base: nat, i: nat): nat {
    base + z.offset + i * z.size
  }

  // RegionMetadata's constructor
  function FreshRegion(z: Shape, base: nat): RegionState
    requires ValidShape(z)
  {
    RegionState(base, seq(BITMAP_BITS, i => i < NumItems(z)))
  }

  predicate IsFull(r: RegionState) { FreeList(r.bits) == [] }

  // Region::alloc
  datatype Taken = NoSlot | Taken(r: RegionState, ptr: nat)

  function AllocIn(z: Shape, r: RegionState): Taken {
    if IsFull(r) then NoSlot else Taken(r.(bits := TakeBits(r.bits, 1)), Slot(z, r.base, FreeList(r.bits)[0]))
  }

  // contains
  predicate Holds(z: Shape, r: RegionState, ptr: nat) {
    r.base <= ptr && ptr + z.size <= r.base + z.regionSize
  }

  function IndexFor(z: Shape, r: RegionState, ptr: nat): nat
    requires z.size > 0 && r.base + z.offset <= ptr
  {
    (ptr - (r.base + z.offset)) / z.size
  }

  // Region::free, for a pointer into the region's storage
  function FreeIn(z: Shape, r: RegionState, ptr: nat): RegionState
    requires z.size > 0 && r.base + z.offset <= ptr && IndexFor(z, r, ptr) < |r.bits|
  {
    r.(bits := r.bits[IndexFor(z, r, ptr) := true])
  }

  // findRegionWithSpace: the first region that is not full, or the number of regions.
  function FindSpace(zs: ZoneState): (k: nat)
    ensures k <= |zs| && (k < |zs| ==> !IsFull(zs[k]))
    ensures forall j :: 0 <= j < k ==> IsFull(zs[j])
  {
    if zs == [] || !IsFull(zs[0]) then 0 else 1 + FindSpace(zs[1..])
  }

  // ZoneAllocator::alloc; base is what VAlloc answers when asked for a region, 0 when it refuses.
  datatype Outcome = Crash | Given(zs: ZoneState, ptr: nat)

  function Alloc(z: Shape, zs: ZoneState, base: nat): Outcome
    requires ValidShape(z)
  {
    var k := FindSpace(zs);
    if k < |zs| then
      var t := AllocIn(z, zs[k]);
      Given(zs[k := t.r], t.ptr)
    else if base == 0 then Crash
    else
      match AllocIn(z, FreshRegion(z, base))
      case NoSlot => Given(zs + [FreshRegion(z, base)], 0)
      case Taken(r, ptr) => Given(zs + [r], ptr)
  }

  // ----- invariant -----

  ghost predicate Apart(z: Shape, a: nat, b: nat) {
    a + z.regionSize <= b || b + z.regionSize <= a
  }

  ghost predicate Inv(z: Shape, zs: ZoneState) {
    && ValidShape(z)
    && (forall k :: 0 <= k < |zs| ==> zs[k].base > 0 && |zs[k].bits| == BITMAP_BITS)
    && (forall k, i :: 0 <= k < |zs| && NumItems(z) <= i < BITMAP_BITS ==> !zs[k].bits[i])
    && (forall j, k :: 0 <= j < k < |zs| ==> Apart(z, zs[j].base, zs[k].base))
  }

  // Slot i of region k is in use.
  ghost predicate InUse(z: Shape, zs: ZoneState, ptr: nat, k: nat, i: nat)
    requires ValidShape(z)
  {
    k < |zs| && i < NumItems(z) && i < |zs[k].bits| && !zs[k].bits[i] && ptr == Slot(z, zs[k].base, i)
  }

  // The objects handed out and not freed.
  ghost predicate Live(z: Shape, zs: ZoneState, ptr: nat)
    requires ValidShape(z)
  {
    exists k, i :: InUse(z, zs, ptr, k, i)
  }

  lemma SlotInStorage(z: Shape, r: RegionState, i: nat)
    requires ValidShape(z) && i < NumItems(z)
    ensures var p := Slot(z, r.base, i);
            && Holds(z, r, p) && r.base + z.offset <= p && IndexFor(z, r, p) == i
  {
    var n := NumItems(z);
    DivEquation(z.regionSize - z.offset, z.size);
    MulMonotone(z.size, i + 1, n);
    assert (i + 1) * z.size == i * z.size + z.size;
    DivUnique(i * z.size, z.size, i, 0);
  }

  // Slots of one region do not overlap.
  lemma SlotsApart(z: Shape, base: nat, i: nat, j: nat)
    requires z.size > 0 && i < j
    ensures Slot(z, base, i) + z.size <= Slot(z, base, j)
  {
    MulMonotone(z.size, i + 1, j);
    assert (i + 1) * z.size == i * z.size + z.size;
  }

  // Live objects are pairwise disjoint, inside the storage of one region, and identify their slot.
  lemma LiveDisjoint(z: Shape, zs: ZoneState, p: nat, k: nat, i: nat, q: nat, l: nat, j: nat)
    requires Inv(z, zs) && InUse(z, zs, p, k, i) && InUse(z, zs, q, l, j)
    ensures zs[k].base + z.offset <= p && p + z.size <= zs[k].base + z.regionSize
    ensures p == q <==> k == l && i == j
    ensures p != q ==> p + z.size <= q || q + z.size <= p
  {
    SlotInStorage(z, zs[k], i);
    SlotInStorage(z, zs[l], j);
    if k == l {
      if i < j {
        SlotsApart(z, zs[k].base, i, j);
      } else if j < i {
        SlotsApart(z, zs[k].base, j, i);
      }
    } else {
      assert k < l ==> Apart(z, zs[k].base, zs[l].base);
      assert l < k ==> Apart(z, zs[l].base, zs[k].base);
    }
  }

  // ----- alloc -----

  lemma FreshInv(z: Shape, zs: ZoneState, base: nat)
    requires Inv(z, zs) && base > 0 && forall k :: 0 <= k < |zs| ==> Apart(z, zs[k].base, base)
    ensures Inv(z, zs + [FreshRegion(z, base)])
    ensures forall ptr :: Live(z, zs + [FreshRegion(z, base)], ptr) <==> Live(z, zs, ptr)
  {
    var zs' := zs + [FreshRegion(z, base)];
    forall ptr: nat, k: nat, i: nat
      ensures InUse(z, zs', ptr, k, i) <==> InUse(z, zs, ptr, k, i)
    {
    }
    forall ptr: nat
      ensures Live(z, zs', ptr) <==> Live(z, zs, ptr)
    {
      if Live(z, zs, ptr) {
        var k: nat, i: nat :| InUse(z, zs, ptr, k, i);
        assert InUse(z, zs', ptr, k, i);
      }
      if Live(z, zs', ptr) {
        var k: nat, i: nat :| InUse(z, zs', ptr, k, i);
        assert InUse(z, zs, ptr, k, i);
      }
    }
  }

  // Taking the lowest slot of region k makes exactly that slot's address live.
  lemma TakeMakesLive(z: Shape, zs: ZoneState, k: nat)
    requires Inv(z, zs) && k < |zs| && !IsFull(zs[k])
    ensures var t := AllocIn(z, zs[k]);
            && Inv(z, zs[k := t.r]) && !Live(z, zs, t.ptr) && t.ptr > 0
            && Holds(z, zs[k], t.ptr) && zs[k].base + z.offset <= t.ptr
            && forall p :: Live(z, zs[k := t.r], p) <==> Live(z, zs, p) || p == t.ptr
  {
    hide FreeList;
    var bits := zs[k].bits;
    var s := FreeList(bits)[0];
    FreeListSpec(bits);
    assert s in FreeList(bits);
    TakeOne(bits, 0);
    TakeNone(bits);
    var t := AllocIn(z, zs[k]);
    assert t.r.bits == bits[s := false];
    var zs' := zs[k := t.r];
    assert s < NumItems(z);
    SlotInStorage(z, zs[k], s);
    if Live(z, zs, t.ptr) {
      var l: nat, j: nat :| InUse(z, zs, t.ptr, l, j);
      OtherSlot(z, zs, k, s, l, j);
      assert false;
    }
    forall p: nat
      ensures Live(z, zs', p) <==> Live(z, zs, p) || p == t.ptr
    {
      if Live(z, zs, p) {
        var l: nat, j: nat :| InUse(z, zs, p, l, j);
        assert InUse(z, zs', p, l, j);
      }
      if p == t.ptr {
        assert InUse(z, zs', p, k, s);
      }
      if Live(z, zs', p) {
        var l: nat, j: nat :| InUse(z, zs', p, l, j);
        assert (l == k && j == s) || InUse(z, zs, p, l, j);
      }
    }
  }

  // Different slots have different addresses.
  lemma OtherSlot(z: Shape, zs: ZoneState, k: nat, i: nat, l: nat, j: nat)
    requires Inv(z, zs) && k < |zs| && l < |zs| && i < NumItems(z) && j < NumItems(z)
    requires Slot(z, zs[k].base, i) == Slot(z, zs[l].base, j)
    ensures k == l && i == j
  {
    SlotInStorage(z, zs[k], i);
    SlotInStorage(z, zs[l], j);
    assert k < l ==> Apart(z, zs[k].base, zs[l].base);
    assert l < k ==> Apart(z, zs[l].base, zs[k].base);
  }

  // alloc hands out an address that was not live, makes exactly it live, and takes a new region exactly
  // when every region is full. (Without room for a single item per region it hands out nothing.)
  lemma AllocSpec(z: Shape, zs: ZoneState, base: nat)
    requires Inv(z, zs) && (base > 0 ==> forall k :: 0 <= k < |zs| ==> Apart(z, zs[k].base, base))
    ensures var r := Alloc(z, zs, base);
            var allFull := forall k :: 0 <= k < |zs| ==> IsFull(zs[k]);
            && (r == Crash <==> allFull && base == 0)
            && (r.Given? ==>
                  && Inv(z, r.zs) && |r.zs| == |zs| + (if allFull then 1 else 0)
                  && (r.ptr == 0 <==> allFull && NumItems(z) == 0)
                  && (r.ptr > 0 ==> !Live(z, zs, r.ptr))
                  && forall p :: Live(z, r.zs, p) <==> Live(z, zs, p) || (p == r.ptr && r.ptr > 0))
  {
    hide IsFull, Inv, AllocIn, Live;
    var k := FindSpace(zs);
    InvShape(z, zs);
    if k < |zs| {
      TakeMakesLive(z, zs, k);
    } else if base > 0 {
      FreshInv(z, zs, base);
      var zs1 := zs + [FreshRegion(z, base)];
      FreshNotFull(z, base);
      assert zs1[|zs|] == FreshRegion(z, base);
      if NumItems(z) > 0 {
        TakeMakesLive(z, zs1, |zs|);
        assert zs1[|zs| := AllocIn(z, FreshRegion(z, base)).r] == zs + [AllocIn(z, FreshRegion(z, base)).r];
      }
    }
  }

  // As many items as fit behind the metadata, at most the 384 the bitmap has bits for.
  lemma ItemsFit(z: Shape)
    requires ValidShape(z)
    ensures NumItems(z) <= 384
    ensures z.offset + NumItems(z) * z.size <= z.regionSize < z.offset + (NumItems(z) + 1) * z.size
  {
    DivEquation(z.regionSize - z.offset, z.size);
    assert (NumItems(z) + 1) * z.size == z.size * NumItems(z) + z.size;
  }

  // The first region with an available slot gives its lowest one, and nothing else changes.
  lemma AllocPlaces(z: Shape, zs: ZoneState, base: nat, k: nat, i: nat)
    requires ValidShape(z) && k < |zs| && i < |zs[k].bits| && zs[k].bits[i]
    requires forall j :: 0 <= j < i ==> !zs[k].bits[j]
    requires forall l, j :: 0 <= l < k && 0 <= j < |zs[l].bits| ==> !zs[l].bits[j]
    ensures Alloc(z, zs, base) ==
            Given(zs[k := RegionState(zs[k].base, zs[k].bits[i := false])], zs[k].base + z.offset + i * z.size)
  {
    hide FreeList;
    FirstFree(zs[k].bits, i);
    forall l | 0 <= l < k
      ensures IsFull(zs[l])
    {
      NoneFree(zs[l].bits);
    }
    TakeNone(zs[k].bits);
    TakeOne(zs[k].bits, 0);
  }

  // Without one a new region goes to the end of the list; its first slot is given, and the other slots that fit in it
  // are available.
  lemma NewRegionPlaced(z: Shape, zs: ZoneState, base: nat)
    requires ValidShape(z) && base > 0 && z.offset + z.size <= z.regionSize
    requires forall l, j :: 0 <= l < |zs| && 0 <= j < |zs[l].bits| ==> !zs[l].bits[j]
    ensures var r := Alloc(z, zs, base);
            && r.Given? && r.ptr == base + z.offset
            && |r.zs| == |zs| + 1 && r.zs[..|zs|] == zs && r.zs[|zs|].base == base && |r.zs[|zs|].bits| == 384
            && !r.zs[|zs|].bits[0]
            && forall i :: 1 <= i < 384 ==> (r.zs[|zs|].bits[i] <==> z.offset + (i + 1) * z.size <= z.regionSize)
  {
    hide FreeList;
    forall l | 0 <= l < |zs|
      ensures IsFull(zs[l])
    {
      NoneFree(zs[l].bits);
    }
    ItemsFit(z);
    var n, added := NumItems(z), FreshRegion(z, base);
    assert n > 0;
    FirstFree(added.bits, 0);
    TakeNone(added.bits);
    TakeOne(added.bits, 0);
    var zs' := Alloc(z, zs, base).zs;
    forall i | 1 <= i < 384
      ensures zs'[|zs|].bits[i] <==> z.offset + (i + 1) * z.size <= z.regionSize
    {
      SlotFits(z, i);
    }
  }

  lemma SlotFits(z: Shape, i: nat)
    requires ValidShape(z)
    ensures i < NumItems(z) <==> z.offset + (i + 1) * z.size <= z.regionSize
  {
    ItemsFit(z);
    if i < NumItems(z) {
      MulMonotone(z.size, i + 1, NumItems(z));
    } else {
      MulMonotone(z.size, NumItems(z) + 1, i + 1);
    }
  }

  lemma InvShape(z: Shape, zs: ZoneState)
    requires Inv(z, zs)
    ensures ValidShape(z)
  {
  }

  lemma FreshNotFull(z: Shape, base: nat)
    requires ValidShape(z)
    ensures IsFull(FreshRegion(z, base)) <==> NumItems(z) == 0
    ensures AllocIn(z, FreshRegion(z, base)) == NoSlot <==> NumItems(z) == 0
  {
    var bits := FreshRegion(z, base).bits;
    FreeListSpec(bits);
    if NumItems(z) > 0 {
      assert 0 in FreeList(bits);
    } else {
      NoneFree(bits);
    }
  }

  // ----- free -----

  // The loop of ZoneAllocator::free tests the first region over and over: the branch for a region that
  // does not hold the pointer goes back to the test without stepping to the next one.
  datatype FreeOutcome = Panics | Hangs | Freed(zs: ZoneState)

  function FreeAsWritten(z: Shape, zs: ZoneState, ptr: nat): FreeOutcome
    requires ValidShape(z) && Storable(z, zs, ptr)
  {
    if zs == [] then Panics
    else if !Holds(z, zs[0], ptr) then Hangs
    else Freed(zs[0 := FreeIn(z, zs[0], ptr)])
  }

  // A pointer inside a region lies in its storage.
  predicate Storable(z: Shape, zs: ZoneState, ptr: nat)
    requires ValidShape(z)
  {
    forall k :: 0 <= k < |zs| && Holds(z, zs[k], ptr) ==>
        zs[k].base + z.offset <= ptr && IndexFor(z, zs[k], ptr) < |zs[k].bits|
  }

  // The same with the missing step: the first region that holds the pointer.
  function FindHolder(z: Shape, zs: ZoneState, ptr: nat): (k: nat)
    ensures k <= |zs| && (k < |zs| ==> Holds(z, zs[k], ptr))
    ensures forall j :: 0 <= j < k ==> !Holds(z, zs[j], ptr)
  {
    if zs == [] || Holds(z, zs[0], ptr) then 0 else 1 + FindHolder(z, zs[1..], ptr)
  }

  function FreeStepping(z: Shape, zs: ZoneState, ptr: nat): FreeOutcome
    requires ValidShape(z) && Storable(z, zs, ptr)
  {
    var k := FindHolder(z, zs, ptr);
    if k == |zs| then Panics else Freed(zs[k := FreeIn(z, zs[k], ptr)])
  }

  // Only the region an object was allocated in holds it.
  lemma HolderIs(z: Shape, zs: ZoneState, ptr: nat, k: nat, i: nat)
    requires Inv(z, zs) && InUse(z, zs, ptr, k, i)
    ensures Storable(z, zs, ptr) && FindHolder(z, zs, ptr) == k && IndexFor(z, zs[k], ptr) == i
    ensures forall j :: 0 <= j < |zs| && Holds(z, zs[j], ptr) ==> j == k
  {
    SlotInStorage(z, zs[k], i);
    forall j | 0 <= j < |zs| && Holds(z, zs[j], ptr)
      ensures j == k
    {
      assert j < k ==> Apart(z, zs[j].base, zs[k].base);
      assert k < j ==> Apart(z, zs[k].base, zs[j].base);
    }
  }

  // With the step, freeing a live object makes exactly it available again.
  lemma FreeSpec(z: Shape, zs: ZoneState, ptr: nat)
    requires Inv(z, zs) && Live(z, zs, ptr)
    ensures Storable(z, zs, ptr)
    ensures var r := FreeStepping(z, zs, ptr);
            && r.Freed? && Inv(z, r.zs) && |r.zs| == |zs|
            && forall p :: Live(z, r.zs, p) <==> Live(z, zs, p) && p != ptr
  {
    var k: nat, i: nat :| InUse(z, zs, ptr, k, i);
    HolderIs(z, zs, ptr, k, i);
    var zs' := FreeStepping(z, zs, ptr).zs;
    forall p: nat, l: nat, j: nat
      ensures InUse(z, zs', p, l, j) <==> InUse(z, zs, p, l, j) && !(l == k && j == i)
    {
    }
    forall p: nat
      ensures Live(z, zs', p) <==> Live(z, zs, p) && p != ptr
    {
      if Live(z, zs', p) {
        var l: nat, j: nat :| InUse(z, zs', p, l, j);
        assert InUse(z, zs, p, l, j);
        if p == ptr {
          OtherSlot(z, zs, k, i, l, j);
        }
      }
      if Live(z, zs, p) && p != ptr {
        var l: nat, j: nat :| InUse(z, zs, p, l, j);
        assert !(l == k && j == i);
        assert InUse(z, zs', p, l, j);
      }
    }
  }

  // As written, free of a live object completes, and then does what it should, exactly when the object is
  // in the first region; otherwise it never returns.
  lemma FreeAsWrittenExact(z: Shape, zs: ZoneState, ptr: nat)
    requires Inv(z, zs) && Live(z, zs, ptr)
    ensures Storable(z, zs, ptr) && zs != []
    ensures FreeAsWritten(z, zs, ptr) == FreeStepping(z, zs, ptr) <==> Holds(z, zs[0], ptr)
    ensures FreeAsWritten(z, zs, ptr) == Hangs <==> !Holds(z, zs[0], ptr)
  {
    var k: nat, i: nat :| InUse(z, zs, ptr, k, i);
    HolderIs(z, zs, ptr, k, i);
  }

  // ----- counting slots -----

  function FreeSlots(zs: ZoneState): nat {
    if zs == [] then 0 else FreeSlots(zs[..|zs| - 1]) + |FreeList(zs[|zs| - 1].bits)|
  }

  ghost function LiveIn(z: Shape, r: RegionState, n: nat): set<nat>
    requires n <= |r.bits|
  {
    if n == 0 then {}
    else if r.bits[n - 1] then LiveIn(z, r, n - 1)
    else LiveIn(z, r, n - 1) + {Slot(z, r.base, n - 1)}
  }

  lemma {:induction false} LiveInMembers(z: Shape, r: RegionState, n: nat, p: nat)
    requires n <= |r.bits|
    ensures p in LiveIn(z, r, n) <==> exists i: nat :: i < n && !r.bits[i] && p == Slot(z, r.base, i)
  {
    hide Slot;
    if n == 0 {
    } else {
      LiveInMembers(z, r, n - 1, p);
    }
  }

  // A later slot is not among the earlier ones.
  lemma NewSlot(z: Shape, r: RegionState, n: nat)
    requires ValidShape(z) && n < |r.bits|
    ensures Slot(z, r.base, n) !in LiveIn(z, r, n)
  {
    hide Slot;
    LiveInMembers(z, r, n, Slot(z, r.base, n));
    if Slot(z, r.base, n) in LiveIn(z, r, n) {
      var i: nat :| i < n && !r.bits[i] && Slot(z, r.base, n) == Slot(z, r.base, i);
      SlotsApart(z, r.base, i, n);
      assert false;
    }
  }

  // In one region, the slots in use and the available ones below n add up to n.
  lemma {:induction false} RegionCount(z: Shape, r: RegionState, n: nat)
    requires ValidShape(z) && n <= |r.bits|
    ensures |LiveIn(z, r, n)| + |FreeBelow(r.bits, n)| == n
  {
    hide Slot, ValidShape, FreeBelow;
    if n == 0 {
      NoneBelow(r.bits);
    } else {
      RegionCount(z, r, n - 1);
      NewSlot(z, r, n - 1);
      OneMoreBelow(r.bits, n);
    }
  }

  lemma NoneBelow(bits: seq<bool>)
    ensures FreeBelow(bits, 0) == {}
  {
  }

  lemma OneMoreBelow(bits: seq<bool>, n: nat)
    requires 0 < n <= |bits|
    ensures |FreeBelow(bits, n)| == |FreeBelow(bits, n - 1)| + if bits[n - 1] then 1 else 0
  {
    if bits[n - 1] {
      assert FreeBelow(bits, n) == FreeBelow(bits, n - 1) + {n - 1};
    } else {
      assert FreeBelow(bits, n) == FreeBelow(bits, n - 1);
    }
  }

  ghost function FreeBelow(bits: seq<bool>, n: nat): set<nat>
    requires n <= |bits|
  {
    set i | 0 <= i < n && bits[i]
  }

  ghost function LiveSet(z: Shape, zs: ZoneState): (s: set<nat>)
    requires ValidShape(z) && forall k :: 0 <= k < |zs| ==> |zs[k].bits| == BITMAP_BITS
  {
    if zs == [] then {} else LiveSet(z, zs[..|zs| - 1]) + LiveIn(z, zs[|zs| - 1], NumItems(z))
  }

  lemma {:induction false} LiveSetMembers(z: Shape, zs: ZoneState, p: nat)
    requires Inv(z, zs)
    ensures p in LiveSet(z, zs) <==> Live(z, zs, p)
  {
    if zs == [] {
    } else {
      var n := |zs| - 1;
      var front := zs[..n];
      LiveSetMembers(z, front, p);
      LiveInMembers(z, zs[n], NumItems(z), p);
      if Live(z, front, p) {
        var k: nat, i: nat :| InUse(z, front, p, k, i);
        assert InUse(z, zs, p, k, i);
      }
      if p in LiveIn(z, zs[n], NumItems(z)) {
        var i: nat :| i < NumItems(z) && !zs[n].bits[i] && p == Slot(z, zs[n].base, i);
        assert InUse(z, zs, p, n, i);
      }
      if Live(z, zs, p) {
        var k: nat, i: nat :| InUse(z, zs, p, k, i);
        assert k < n ==> InUse(z, front, p, k, i);
      }
    }
  }

  // Objects of the last region are not among those of the others.
  lemma LastApart(z: Shape, zs: ZoneState, p: nat)
    requires Inv(z, zs) && zs != [] && p in LiveSet(z, zs[..|zs| - 1])
    ensures p !in LiveIn(z, zs[|zs| - 1], NumItems(z))
  {
    hide Slot, LiveSet, NumItems;
    var n := |zs| - 1;
    var front, r := zs[..n], zs[n];
    LiveSetMembers(z, front, p);
    LiveInMembers(z, r, NumItems(z), p);
    var k: nat, i: nat :| InUse(z, front, p, k, i);
    if p in LiveIn(z, r, NumItems(z)) {
      var j: nat :| j < NumItems(z) && !r.bits[j] && p == Slot(z, r.base, j);
      OtherSlot(z, zs, k, i, n, j);
      assert false;
    }
  }

  lemma RegionSlots(z: Shape, zs: ZoneState, k: nat)
    requires Inv(z, zs) && k < |zs|
    ensures NumItems(z) <= |zs[k].bits|
    ensures |LiveIn(z, zs[k], NumItems(z))| + |FreeList(zs[k].bits)| == NumItems(z)
  {
    hide NumItems, LiveIn;
    var bits := zs[k].bits;
    RegionCount(z, zs[k], NumItems(z));
    FreeSetSize(bits);
    FreeListSpec(bits);
    assert FreeSet(bits) == FreeBelow(bits, NumItems(z));
  }

  lemma FrontInv(z: Shape, zs: ZoneState)
    requires Inv(z, zs) && zs != []
    ensures Inv(z, zs[..|zs| - 1])
  {
  }

  // Live objects and available slots add up to the slots of all regions.
  lemma {:induction false} SlotsAddUp(z: Shape, zs: ZoneState)
    requires Inv(z, zs)
    ensures |LiveSet(z, zs)| + FreeSlots(zs) == |zs| * NumItems(z)
  {
    InvShape(z, zs);
    InvSizes(z, zs);
    hide Inv, ValidShape, NumItems, FreeList, LiveIn;
    if zs == [] {
    } else {
      var n := |zs| - 1;
      var front, here := zs[..n], LiveIn(z, zs[n], NumItems(z));
      FrontInv(z, zs);
      SlotsAddUp(z, front);
      RegionSlots(z, zs, n);
      forall p | p in LiveSet(z, front)
        ensures p !in here
      {
        LastApart(z, zs, p);
      }
      assert LiveSet(z, front) !! here;
      assert |zs| * NumItems(z) == n * NumItems(z) + NumItems(z);
    }
  }

  // ----- runs -----

  datatype Event = DoAlloc(base: nat) | DoFree(ptr: nat, stepping: bool)

  // The allocator and, for the specification, the objects its callers hold.
  datatype World = World(zs: ZoneState, held: set<nat>)

  ghost predicate Allocates(z: Shape, w: World, base: nat, w': World)
    requires ValidShape(z)
  {
    var r := Alloc(z, w.zs, base);
    r.Given? && w' == World(r.zs, if r.ptr == 0 then w.held else w.held + {r.ptr})
  }

  // Regions come from VAlloc, so they are fresh (ZonePages has the two together); callers free what they hold,
  // with the loop as written or
  // with its missing step. Neither a crash for want of memory nor a free that hangs is a step.
  ghost predicate Next(z: Shape, w: World, e: Event, w': World)
    requires ValidShape(z)
  {
    match e
    case DoAlloc(base) =>
      && (base > 0 ==> forall k :: 0 <= k < |w.zs| ==> Apart(z, w.zs[k].base, base))
      && Allocates(z, w, base, w')
    case DoFree(ptr, stepping) =>
      && ptr in w.held && Storable(z, w.zs, ptr)
      && var r := if stepping then FreeStepping(z, w.zs, ptr) else FreeAsWritten(z, w.zs, ptr);
         r.Freed? && w' == World(r.zs, w.held - {ptr})
  }

  ghost predicate Good(z: Shape, w: World) {
    Inv(z, w.zs) && forall p :: p in w.held <==> Live(z, w.zs, p)
  }

  lemma NextKeeps(z: Shape, w: World, e: Event, w': World)
    requires ValidShape(z) && Good(z, w) && Next(z, w, e, w')
    ensures Good(z, w')
  {
    hide Live, Inv;
    match e {
      case DoAlloc(base) =>
        AllocSpec(z, w.zs, base);
      case DoFree(ptr, _) =>
        FreeSpec(z, w.zs, ptr);
        FreeAsWrittenExact(z, w.zs, ptr);
    }
  }

  ghost predicate Run(z: Shape, run: seq<World>, events: seq<Event>)
    requires ValidShape(z)
  {
    |run| == |events| + 1 && forall k :: 0 <= k < |events| ==> Next(z, run[k], events[k], run[k + 1])
  }

  // Over any run from an empty zone: what callers hold is exactly what the bitmaps call in use, these
  // objects are disjoint and inside the regions, and slots in use and available slots add up.
  lemma {:induction false} ZoneRun(z: Shape, run: seq<World>, events: seq<Event>, k: nat)
    requires ValidShape(z) && Run(z, run, events) && run[0] == World([], {}) && k < |run|
    ensures Good(z, run[k])
    ensures |run[k].held| + FreeSlots(run[k].zs) == |run[k].zs| * NumItems(z)
    ensures forall p, q :: p in run[k].held && q in run[k].held && p != q ==> p + z.size <= q || q + z.size <= p
  {
    hide Next, FreeSlots;
    if k == 0 {
      assert Good(z, run[0]);
    } else {
      hide Good;
      ZoneRun(z, run, events, k - 1);
      NextKeeps(z, run[k - 1], events[k - 1], run[k]);
    }
    HeldCounts(z, run[k]);
    forall p, q | p in run[k].held && q in run[k].held && p != q
      ensures p + z.size <= q || q + z.size <= p
    {
      HeldApart(z, run[k], p, q);
    }
  }

  lemma HeldCounts(z: Shape, w: World)
    requires ValidShape(z) && Good(z, w)
    ensures |w.held| + FreeSlots(w.zs) == |w.zs| * NumItems(z)
  {
    hide Live, Inv;
    SlotsAddUp(z, w.zs);
    InvSizes(z, w.zs);
    forall p
      ensures p in w.held <==> p in LiveSet(z, w.zs)
    {
      LiveSetMembers(z, w.zs, p);
    }
    assert w.held == LiveSet(z, w.zs);
  }

  lemma InvSizes(z: Shape, zs: ZoneState)
    requires Inv(z, zs)
    ensures forall k :: 0 <= k < |zs| ==> |zs[k].bits| == BITMAP_BITS
  {
  }

  lemma HeldApart(z: Shape, w: World, p: nat, q: nat)
    requires ValidShape(z) && Good(z, w) && p in w.held && q in w.held && p != q
    ensures p + z.size <= q || q + z.size <= p
  {
    assert Live(z, w.zs, p) && Live(z, w.zs, q);
    var k: nat, i: nat :| InUse(z, w.zs, p, k, i);
    var l: nat, j: nat :| InUse(z, w.zs, q, l, j);
    LiveDisjoint(z, w.zs, p, k, i, q, l, j);
  }
}

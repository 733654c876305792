// The zone allocator's objects: regions linked through their metadata, each with its bitmap words.
module ZoneObject {
  import opened Words
  import opened FreeBits
  import opened Zones
  import PhysicalRegion

  const BITMAP_ENTRIES: nat := 6

  class Region {
    const base: nat
    const bitmap: array<Word>
    var next: Region?

    ghost predicate Valid() { bitmap.Length == BITMAP_ENTRIES }

    ghost function State(): (r: RegionState)
      requires Valid()
      reads bitmap
      ensures |r.bits| == BITMAP_BITS
    {
      RegionState(base, Bits(bitmap[..]))
    }

    // RegionMetadata: clear the bitmap, then set one bit per item.
    constructor (z: Shape, base: nat)
      requires ValidShape(z)
      ensures Valid() && fresh(bitmap) && next == null && this.base == base
      ensures State() == FreshRegion(z, base)
    {
      this.base := base;
      bitmap := new Word[BITMAP_ENTRIES](_ => 0);
      next := null;
      new;
      ghost var all := bitmap[..];
      AllClear(bitmap[..]);
      for i := 0 to NumItems(z)
        invariant next == null
        invariant forall j :: 0 <= j < BITMAP_BITS ==> (State().bits[j] <==> j < i)
      {
        SetOne(i);
      }
      assert State().bits == FreshRegion(z, base).bits;
    }

    method SetOne(i: nat)
      requires Valid() && i < BITMAP_BITS
      modifies bitmap
      ensures State() == old(State()).(bits := old(State()).bits[i := true])
    {
      ghost var words := bitmap[..];
      BitsOfSet(words, i / 64, i % 64);
      bitmap[i / 64] := SetBit(bitmap[i / 64], i % 64);
      assert bitmap[..] == words[i / 64 := SetBit(words[i / 64], i % 64)];
    }

    // Clear the lowest bit of the first word that is not zero; its index.
    method TakeLowest(read: nat) returns (idx: nat)
      requires Valid() && read < BITMAP_ENTRIES && bitmap[read] != 0
      requires forall j :: 0 <= j < 64 * read ==> !State().bits[j]
      modifies bitmap
      ensures FreeList(old(State()).bits) != [] && idx == FreeList(old(State()).bits)[0]
      ensures State() == old(State()).(bits := TakeBits(old(State()).bits, 1))
    {
      ghost var words, bits := bitmap[..], State().bits;
      TakeNone(bits);
      PhysicalRegion.LowestFree(bits, 0, words, read);
      var bit := Ffs(bitmap[read]);
      bitmap[read] := ClearBit(bitmap[read], bit - 1);
      assert bitmap[..] == words[read := ClearBit(words[read], bit - 1)];
      idx := 64 * read + (bit - 1);
    }

    // Region::alloc; 0 when the region is full.
    method Alloc(z: Shape) returns (ptr: nat)
      requires Valid() && ValidShape(z)
      modifies bitmap
      ensures match AllocIn(z, old(State()))
              case NoSlot => ptr == 0 && State() == old(State())
              case Taken(r, p) => ptr == p && State() == r
    {
      ghost var words, bits := bitmap[..], State().bits;
      TakeNone(bits);
      var read := 0;
      var off := 0;
      while off < BITMAP_ENTRIES * 64
        invariant off == 64 * read && read <= BITMAP_ENTRIES
        invariant bitmap[..] == words
        invariant forall j :: 0 <= j < off ==> !bits[j]
      {
        var val := bitmap[read];
        if val == 0 {
          PhysicalRegion.ChunkClear(words, read);
          read := read + 1;
          off := off + 64;
          continue;
        }
        var idx := TakeLowest(read);
        ptr := base + z.offset + idx * z.size;
        return;
      }
      NoneFree(bits);
      ptr := 0;
    }

    // contains
    predicate Contains(z: Shape, ptr: nat) {
      base <= ptr && ptr + z.size <= base + z.regionSize
    }

    // Region::free, for a pointer this region holds
    method Free(z: Shape, ptr: nat)
      requires Valid() && z.size > 0 && base + z.offset <= ptr && IndexFor(z, State(), ptr) < BITMAP_BITS
      modifies bitmap
      ensures State() == FreeIn(z, old(State()), ptr)
    {
      SetOne((ptr - (base + z.offset)) / z.size);
    }

    method IsFull() returns (full: bool)
      requires Valid()
      ensures full <==> Zones.IsFull(State())
    {
      ghost var words, bits := bitmap[..], State().bits;
      for i := 0 to BITMAP_ENTRIES
        invariant forall j :: 0 <= j < 64 * i ==> !bits[j]
      {
        if bitmap[i] != 0 {
          TakeNone(bits);
          PhysicalRegion.LowestFree(bits, 0, words, i);
          return false;
        }
        PhysicalRegion.ChunkClear(words, i);
      }
      NoneFree(bits);
      full := true;
    }
  }

  lemma AllClear(words: seq<Word>)
    requires forall i :: 0 <= i < |words| ==> words[i] == 0
    ensures forall j :: 0 <= j < 64 * |words| ==> !Bits(words)[j]
  {
    forall j | 0 <= j < 64 * |words|
      ensures !Bits(words)[j]
    {
      BitsOfZero(j % 64);
    }
  }

  ghost function Bitmaps(rs: seq<Region>): set<object> {
    set r | r in rs :: r.bitmap as object
  }

  ghost function States(rs: seq<Region>): (zs: ZoneState)
    requires forall i :: 0 <= i < |rs| ==> rs[i].Valid()
    reads Bitmaps(rs)
    ensures |zs| == |rs|
    ensures forall i :: 0 <= i < |rs| ==> zs[i] == rs[i].State()
  {
    seq(|rs|, i requires 0 <= i < |rs| reads Bitmaps(rs) => assert rs[i] in rs; rs[i].State())
  }

  // What a request came to: a null region was used, or an address (0 for none).
  datatype Answer = Crashed | Object(ptr: nat)

  datatype Released = PanicStop | NeverReturns | Done

  class ZoneAllocator {
    const z: Shape
    var start: Region?
    var last: Region?
    var freeRegion: Region?
    ghost var regions: seq<Region>  // the list, in order

    // The list is start, then next by next up to last, without cycles or shared bitmaps.
    ghost predicate Valid()
      reads this, regions, Bitmaps(regions)
    {
      && ValidShape(z)
      && (forall i :: 0 <= i < |regions| ==> regions[i].Valid())
      && (forall i, j :: 0 <= i < j < |regions| ==> regions[i] != regions[j] && regions[i].bitmap != regions[j].bitmap)
      && (regions == [] ==> start == null && last == null)
      && (regions != [] ==> start == regions[0] && last == regions[|regions| - 1])
      && (forall i, j :: 0 <= i && i + 1 == j < |regions| ==> regions[i].next == regions[j])
      && (regions != [] ==> regions[|regions| - 1].next == null)
      && (forall r :: r in regions ==> (r as object) !in Bitmaps(regions))
      && (this as object) !in Bitmaps(regions)
    }

    ghost function State(): ZoneState
      requires Valid()
      reads this, regions, Bitmaps(regions)
    {
      States(regions)
    }

    constructor (z: Shape)
      requires ValidShape(z)
      ensures Valid() && this.z == z && State() == [] && regions == []
    {
      this.z := z;
      start, last, freeRegion := null, null, null;
      regions := [];
    }

    // findRegionWithSpace: along the list, the first region that is not full.
    method FindRegionWithSpace() returns (region: Region?)
      requires Valid()
      ensures var k := FindSpace(State()); if k < |regions| then region == regions[k] else region == null
    {
      hide FindSpace, Zones.IsFull, ValidShape;
      ghost var zs := State();
      ghost var k := 0;
      if start == null {
        FindNothing(zs, 0);
        return null;
      }
      region := start;
      while region != null
        invariant k <= |regions|
        invariant if k < |regions| then region == regions[k] else region == null
        invariant forall j :: 0 <= j < k ==> Zones.IsFull(zs[j])
        decreases |regions| - k
      {
        assert region.State() == zs[k];
        var full := region.IsFull();
        if !full {
          FindNothing(zs, k);
          return region;
        }
        region := region.next;
        k := k + 1;
      }
      FindNothing(zs, k);
    }

    // Region::alloc on the k-th region of the list.
    method AllocFrom(region: Region, ghost k: nat) returns (ptr: nat)
      requires Valid() && k < |regions| && region == regions[k]
      modifies Bitmaps(regions)
      ensures Valid()
      ensures match AllocIn(z, old(State())[k])
              case NoSlot => ptr == 0 && State() == old(State())
              case Taken(r, p) => ptr == p && State() == old(State())[k := r]
    {
      hide AllocIn, ValidShape;
      ghost var zs := State();
      assert region.State() == zs[k];
      ptr := region.Alloc(z);
      OneChanged(zs, k, State());
    }

    // Region::free on the k-th region of the list.
    method FreeFrom(region: Region, ghost k: nat, ptr: nat)
      requires Valid() && k < |regions| && region == regions[k]
      requires region.base + z.offset <= ptr && IndexFor(z, State()[k], ptr) < BITMAP_BITS
      modifies Bitmaps(regions)
      ensures Valid()
      ensures State() == old(State())[k := FreeIn(z, old(State())[k], ptr)]
    {
      ghost var zs := State();
      assert region.State() == zs[k];
      region.Free(z, ptr);
      OneChanged(zs, k, State());
    }

    // ZoneAllocator::alloc; base is what VAlloc answers for a new region.
    method Alloc(base: nat) returns (r: Answer)
      requires Valid()
      modifies this, Bitmaps(regions), regions
      ensures Valid() && old(regions) <= regions
      ensures match Zones.Alloc(z, old(State()), base)
              case Crash => r == Crashed && State() == old(State())
              case Given(zs, ptr) => r == Object(ptr) && State() == zs
    {
      hide AllocIn, ValidShape, FreshRegion, FindSpace, Zones.IsFull;
      ghost var zs := State();
      var nextFree := FindRegionWithSpace();
      ghost var k := FindSpace(zs);
      AllocCases(z, zs, base);
      if nextFree != null {
        var ptr := AllocFrom(nextFree, k);
        return Object(ptr);
      }
      if base == 0 {
        return Crashed;
      }
      var newRegion := AddRegion(base);
      var ptr := AllocFrom(newRegion, |zs|);
      LastChanged(zs, FreshRegion(z, base), State());
      r := Object(ptr);
    }

    // Thread a new region in at the end.
    method AddRegion(base: nat) returns (newRegion: Region)
      requires Valid()
      modifies this, regions
      ensures Valid() && regions == old(regions) + [newRegion] && fresh(newRegion) && fresh(newRegion.bitmap)
      ensures State() == old(State()) + [FreshRegion(z, base)]
    {
      hide FreshRegion;
      ghost var zs := State();
      newRegion := new Region(z, base);
      Link(newRegion, zs);
      assert States(regions) == zs + [FreshRegion(z, base)];
    }

    method Link(newRegion: Region, ghost zs: ZoneState)
      requires Valid() && zs == State()
      requires newRegion.Valid() && newRegion.next == null && newRegion !in regions
      requires newRegion.bitmap as object !in Bitmaps(regions)
      requires newRegion as object !in Bitmaps(regions) && newRegion.bitmap as object != this
      requires newRegion.bitmap as object != newRegion
      requires forall i :: 0 <= i < |regions| ==> regions[i] as object != newRegion.bitmap
      modifies this, regions
      ensures Valid() && regions == old(regions) + [newRegion]
      ensures State() == zs + [old(newRegion.State())]
    {
      hide Zones.IsFull, FreshRegion;
      ghost var was, bits := regions, newRegion.State();
      Thread(newRegion);
      regions := was + [newRegion];
      BitmapsSnoc(was, newRegion);
      assert regions[|was|] == newRegion;
      assert Valid();
      StatesKept(was, regions, newRegion);
      assert States(was) == zs;
    }

    // The pointer updates of alloc.
    method Thread(newRegion: Region)
      requires newRegion.next == null && (start == null <==> last == null) && (last != null ==> last in regions)
      modifies this`start, this`last, this`freeRegion, (set r | r in regions && r == last)`next
      ensures last == newRegion && freeRegion == newRegion
      ensures start == if old(start) == null then newRegion else old(start)
      ensures old(last) != null ==> old(last).next == newRegion
    {
      if start == null {
        start := newRegion;
      }
      if last != null {
        last.next := newRegion;
      } else {
        last := newRegion;
      }
      last := newRegion;
      freeRegion := newRegion;
    }

    // ZoneAllocator::free as written: a region that does not hold the pointer is tested again, for ever.
    method Free(ptr: nat) returns (r: Released)
      requires Valid() && Storable(z, State(), ptr)
      modifies Bitmaps(regions)
      ensures Valid()
      ensures match FreeAsWritten(z, old(State()), ptr)
              case Panics => r == PanicStop && State() == old(State())
              case Hangs => r == NeverReturns && State() == old(State())
              case Freed(zs) => r == Done && State() == zs
    {
      ghost var zs := State();
      var region := start;
      if region == null {
        return PanicStop;
      }
      assert region.State() == zs[0];
      if !region.Contains(z, ptr) {
        return NeverReturns;
      }
      FreeFrom(region, 0, ptr);
      r := Done;
    }

    // The same with the step to the next region.
    method FreeInList(ptr: nat) returns (r: Released)
      requires Valid() && Storable(z, State(), ptr)
      modifies Bitmaps(regions)
      ensures Valid()
      ensures match FreeStepping(z, old(State()), ptr)
              case Panics => r == PanicStop && State() == old(State())
              case Hangs => false
              case Freed(zs) => r == Done && State() == zs
    {
      ghost var zs := State();
      var region := start;
      ghost var k := 0;
      while region != null
        invariant k <= |regions|
        invariant if k < |regions| then region == regions[k] else region == null
        invariant forall j :: 0 <= j < k ==> !Holds(z, zs[j], ptr)
        decreases |regions| - k
      {
        assert region.State() == zs[k];
        if region.Contains(z, ptr) {
          HolderFirst(z, zs, ptr, k);
          FreeFrom(region, k, ptr);
          return Done;
        }
        region := region.next;
        k := k + 1;
      }
      HolderFirst(z, zs, ptr, k);
      r := PanicStop;
    }
  }

  lemma {:induction false} FindNothing(zs: ZoneState, k: nat)
    requires k <= |zs| && (k < |zs| ==> !Zones.IsFull(zs[k]))
    requires forall j :: 0 <= j < k ==> Zones.IsFull(zs[j])
    ensures FindSpace(zs) == k
  {
  }

  lemma {:induction false} HolderFirst(z: Shape, zs: ZoneState, ptr: nat, k: nat)
    requires k <= |zs| && (k < |zs| ==> Holds(z, zs[k], ptr))
    requires forall j :: 0 <= j < k ==> !Holds(z, zs[j], ptr)
    ensures FindHolder(z, zs, ptr) == k
  {
  }

  // A list of regions of which only the k-th has changed.
  lemma OneChanged(zs: ZoneState, k: nat, now: ZoneState)
    requires k < |zs| == |now|
    requires forall i :: 0 <= i < |zs| && i != k ==> now[i] == zs[i]
    ensures now == zs[k := now[k]]
  {
  }

  lemma LastChanged(zs: ZoneState, r: RegionState, now: ZoneState)
    ensures (zs + [r])[|zs|] == r
    ensures forall t: RegionState :: (zs + [r])[|zs| := t] == zs + [t]
  {
  }

  lemma BitmapsSnoc(rs: seq<Region>, r: Region)
    ensures Bitmaps(rs + [r]) == Bitmaps(rs) + {r.bitmap as object}
  {
  }

  lemma StatesKept(was: seq<Region>, rs: seq<Region>, r: Region)
    requires rs == was + [r] && r.Valid() && forall i :: 0 <= i < |rs| ==> rs[i].Valid()
    ensures forall i :: 0 <= i < |was| ==> was[i].Valid()
    ensures States(rs) == States(was) + [r.State()]
  {
    assert forall i :: 0 <= i < |was| ==> was[i] == rs[i];
  }

  lemma AllocCases(z: Shape, zs: ZoneState, base: nat)
    requires ValidShape(z)
    ensures var k := FindSpace(zs);
            && (k < |zs| ==>
                 AllocIn(z, zs[k]).Taken? && Zones.Alloc(z, zs, base) ==
                     Given(zs[k := AllocIn(z, zs[k]).r], AllocIn(z, zs[k]).ptr))
            && (k == |zs| ==>
                  Zones.Alloc(z, zs, base) ==
                  if base == 0 then Crash
                  else
                    var t := AllocIn(z, FreshRegion(z, base));
                    if t.NoSlot? then Given(zs + [FreshRegion(z, base)], 0) else Given(zs + [t.r], t.ptr))
  {
  }
}

// One contiguous segment of physical memory with its allocation bitmap (Memory/Region.cpp).
module Regions {
  import opened FreeBits

  const PAGE_SIZE: nat := 4096

  // The region's constants. `span` is the number of bytes above physBase that `contains` accepts:
  // the code adds numPages there, a count of pages; the intended value is numPages * PAGE_SIZE.
  datatype Geometry = Geometry(physBase: nat, numPages: nat, bitmapSize: nat, bitmapReserved: nat,
                               allocBase: nat, span: nat)

  function BitmapBytes(numPages: nat): nat {
    (numPages + (8 - 1)) / 8
  }

  function BitmapPages(numPages: nat): nat {
    (BitmapBytes(numPages) + (PAGE_SIZE - 1)) / PAGE_SIZE
  }

  // The constants the constructor computes from a base and a length in bytes.
  function Layout(base: nat, length: nat): (g: Geometry)
    requires PAGE_SIZE <= length
    ensures WellFormed(g)
  {
    var numPages := length / PAGE_SIZE;
    var bitmapPages := BitmapPages(numPages);
    var bitmapReserved := bitmapPages * PAGE_SIZE;
    Geometry(base, numPages, numPages - bitmapPages, bitmapReserved, base + bitmapReserved, numPages)
  }

  // Whole pages of 4 KB; of these the fewest that hold a bit for every page are set aside for the bitmap, and the
  // rest can be handed out, from the first byte behind it on.
  lemma LayoutIs(base: nat, length: nat)
    requires 4096 <= length
    ensures var g := Layout(base, length);
            var m := g.numPages - g.bitmapSize;
            && g.physBase == base && g.numPages * 4096 <= length < (g.numPages + 1) * 4096
            && (m - 1) * 32768 < g.numPages <= m * 32768
            && g.bitmapReserved == m * 4096 && g.allocBase == base + m * 4096
            && g.span == g.numPages
            && Intended(g).span == g.numPages * 4096
  {
  }

  // The same constants with the extent `contains` was meant to have.
  function Intended(g: Geometry): Geometry {
    g.(span := g.numPages * PAGE_SIZE)
  }

  predicate WellFormed(g: Geometry) {
    && g.numPages >= 1
    && g.bitmapReserved == BitmapPages(g.numPages) * PAGE_SIZE
    && g.bitmapSize + BitmapPages(g.numPages) == g.numPages
    && g.allocBase == g.physBase + g.bitmapReserved
  }

  predicate Contains(g: Geometry, address: nat) {
    g.physBase <= address < g.physBase + g.span
  }

  // As written, addresses count as contained from the base up to as many bytes as there are pages; meant are pages.
  lemma ExtentIs(base: nat, length: nat, address: nat)
    requires 4096 <= length
    ensures Contains(Layout(base, length), address) <==> base <= address < base + length / 4096
    ensures Contains(Intended(Layout(base, length)), address) <==> base <= address < base + length / 4096 * 4096
  {
  }

  // Number of bits `alloc` looks at: whole words covering bitmapSize bits.
  function ScanBits(g: Geometry): nat {
    (g.bitmapSize + 63) / 64 * 64
  }

  lemma ScanBitsFit(g: Geometry)
    requires WellFormed(g)
    ensures ScanBits(g) <= 8 * g.bitmapReserved
    ensures g.bitmapSize <= ScanBits(g) < g.bitmapSize + 64
  {
  }

  function Addr(g: Geometry, page: nat): nat {
    g.allocBase + page * PAGE_SIZE
  }

  function Addrs(g: Geometry, pages: seq<nat>): (r: seq<nat>)
    ensures |r| == |pages|
  {
    seq(|pages|, i requires 0 <= i < |pages| => Addr(g, pages[i]))
  }

  function PageOf(g: Geometry, address: nat): nat
    requires g.allocBase <= address
  {
    (address - g.allocBase) / PAGE_SIZE
  }

  // Is this the address of an allocatable page of the region?
  predicate IsPage(g: Geometry, address: nat) {
    && g.allocBase <= address
    && (address - g.allocBase) % PAGE_SIZE == 0
    && PageOf(g, address) < g.bitmapSize
  }

  datatype RegionState = RegionState(g: Geometry, bits: seq<bool>, numAllocated: int)

  ghost predicate ValidState(s: RegionState) {
    WellFormed(s.g) && |s.bits| == ScanBits(s.g)
  }

  // No bit past the last allocatable page is marked free.
  ghost predicate TailClear(s: RegionState) {
    forall i :: s.g.bitmapSize <= i < |s.bits| ==> !s.bits[i]
  }

  // Every page that is not free is counted as allocated.
  ghost predicate Counted(s: RegionState) {
    s.numAllocated + |FreeList(s.bits)| == s.g.bitmapSize
  }

  // The addresses the region can still hand out, in the order it hands them out.
  function FreeAddrs(s: RegionState): seq<nat> {
    Addrs(s.g, FreeList(s.bits))
  }

  function Served(s: RegionState, n: nat): nat {
    Min(n, |FreeList(s.bits)|)
  }

  function Alloc(s: RegionState, n: nat): RegionState {
    s.(bits := TakeBits(s.bits, n), numAllocated := s.numAllocated + Served(s, n))
  }

  // What one iteration of `free` does with an address.
  function FreeOne(s: RegionState, a: nat): RegionState
    requires Freeable(s, a)
  {
    if Contains(s.g, a) then s.(bits := s.bits[PageOf(s.g, a) := true], numAllocated := s.numAllocated - 1) else s
  }

  // Only addresses of the region's pages may be handed back to it (others must not be contained).
  predicate Freeable(s: RegionState, a: nat) {
    Contains(s.g, a) ==> s.g.allocBase <= a && PageOf(s.g, a) < |s.bits|
  }

  function Free(s: RegionState, addrs: seq<nat>): (r: RegionState)
    requires forall a :: a in addrs ==> Freeable(s, a)
    ensures r.g == s.g && |r.bits| == |s.bits|
  {
    if addrs == [] then s
    else
      var before := Free(s, addrs[..|addrs| - 1]);
      assert Freeable(s, addrs[|addrs| - 1]);
      FreeOne(before, addrs[|addrs| - 1])
  }

  function CountIn(g: Geometry, addrs: seq<nat>): (r: nat)
    ensures r <= |addrs|
  {
    if addrs == [] then 0
    else CountIn(g, addrs[..|addrs| - 1]) + if Contains(g, addrs[|addrs| - 1]) then 1 else 0
  }

  // ----- what allocation does to the free list -----

  // Region::alloc takes a prefix of the ascending free list and counts it.
  lemma AllocTakesPrefix(s: RegionState, n: nat)
    requires ValidState(s)
    ensures ValidState(Alloc(s, n))
    ensures FreeAddrs(Alloc(s, n)) == FreeAddrs(s)[Served(s, n)..]
    ensures Alloc(s, n).numAllocated + |FreeAddrs(Alloc(s, n))| == s.numAllocated + |FreeAddrs(s)|
    ensures TailClear(s) ==> TailClear(Alloc(s, n))
    ensures Counted(s) ==> Counted(Alloc(s, n))
  {
    TakeBitsFreeList(s.bits, n);
    assert FreeAddrs(Alloc(s, n)) == FreeAddrs(s)[Served(s, n)..];
  }

  lemma FreePageListed(s: RegionState, i: nat)
    requires i < |s.bits| && s.bits[i]
    ensures Addr(s.g, i) in FreeAddrs(s)
  {
    FreeListSpec(s.bits);
    var k :| 0 <= k < |FreeList(s.bits)| && FreeList(s.bits)[k] == i;
    assert FreeAddrs(s)[k] == Addr(s.g, i);
  }

  // The addresses handed out are ascending and distinct; they are allocatable pages of the region
  // exactly as long as the bitmap's tail is clear.
  lemma FreeAddrsArePages(s: RegionState)
    requires ValidState(s)
    ensures Ascending(FreeAddrs(s))
    ensures (forall a :: a in FreeAddrs(s) ==> IsPage(s.g, a)) <==> TailClear(s)
  {
    FreeListSpec(s.bits);
    if TailClear(s) {
      forall a | a in FreeAddrs(s)
        ensures IsPage(s.g, a)
      {
        var k :| 0 <= k < |FreeAddrs(s)| && FreeAddrs(s)[k] == a;
        assert FreeList(s.bits)[k] in FreeList(s.bits);
      }
    }
    if forall a :: a in FreeAddrs(s) ==> IsPage(s.g, a) {
      forall i | s.g.bitmapSize <= i < |s.bits|
        ensures !s.bits[i]
      {
        if s.bits[i] {
          FreePageListed(s, i);
          assert false;
        }
      }
    }
  }

  // An address is free exactly when the bit of its page is set.
  lemma FreeAddrsBit(s: RegionState, a: nat)
    requires ValidState(s) && IsPage(s.g, a)
    ensures PageOf(s.g, a) < |s.bits|
    ensures a in FreeAddrs(s) <==> s.bits[PageOf(s.g, a)]
  {
    FreeListSpec(s.bits);
    var p := PageOf(s.g, a);
    assert a == Addr(s.g, p);
    if s.bits[p] {
      assert p in FreeList(s.bits);
      var k :| 0 <= k < |FreeList(s.bits)| && FreeList(s.bits)[k] == p;
      assert FreeAddrs(s)[k] == a;
    }
    if a in FreeAddrs(s) {
      var k :| 0 <= k < |FreeAddrs(s)| && FreeAddrs(s)[k] == a;
      assert FreeList(s.bits)[k] in FreeList(s.bits);
    }
  }

  // ----- what freeing does -----

  ghost predicate Distinct(s: seq<nat>) {
    forall i, j :: 0 <= i < j < |s| ==> s[i] != s[j]
  }

  // Pages of this region that are allocated: what a caller may hand back.
  ghost predicate AllocatedPages(s: RegionState, addrs: seq<nat>) {
    && Distinct(addrs)
    && forall a :: a in addrs && Contains(s.g, a) ==> IsPage(s.g, a) && a !in FreeAddrs(s)
  }

  lemma AllocatedAreFreeable(s: RegionState, addrs: seq<nat>)
    requires ValidState(s)
    requires AllocatedPages(s, addrs)
    ensures forall a :: a in addrs ==> Freeable(s, a)
  {
  }

  lemma FreeOneSpec(s: RegionState, a: nat)
    requires ValidState(s)
    requires Contains(s.g, a) ==> IsPage(s.g, a) && a !in FreeAddrs(s)
    ensures Freeable(s, a)
    ensures ValidState(FreeOne(s, a))
    ensures forall x :: x in FreeAddrs(FreeOne(s, a)) <==> x in FreeAddrs(s) || (x == a && Contains(s.g, a))
    ensures TailClear(s) ==> TailClear(FreeOne(s, a))
    ensures Counted(s) ==> Counted(FreeOne(s, a))
  {
    if Contains(s.g, a) {
      var p := PageOf(s.g, a);
      FreeAddrsBit(s, a);
      GiveBack(s.bits, p);
      var t := FreeOne(s, a);
      assert a == Addr(s.g, p);
      forall x
        ensures x in FreeAddrs(t) <==> x in FreeAddrs(s) || x == a
      {
        FreeAddrsMembers(s, x);
        FreeAddrsMembers(t, x);
      }
    }
  }

  lemma FreeAddrsMembers(s: RegionState, x: nat)
    ensures x in FreeAddrs(s) <==> exists p :: p in FreeSet(s.bits) && x == Addr(s.g, p)
  {
    if p :| p in FreeSet(s.bits) && x == Addr(s.g, p) {
      var k :| 0 <= k < |FreeList(s.bits)| && FreeList(s.bits)[k] == p;
      assert FreeAddrs(s)[k] == x;
    }
    if x in FreeAddrs(s) {
      var k :| 0 <= k < |FreeAddrs(s)| && FreeAddrs(s)[k] == x;
      assert FreeList(s.bits)[k] in FreeSet(s.bits);
    }
  }

  // Region::free gives back exactly the addresses `contains` accepts and ignores the others.
  lemma {:induction false} FreeGivesBack(s: RegionState, addrs: seq<nat>)
    requires ValidState(s)
    requires AllocatedPages(s, addrs)
    ensures forall a :: a in addrs ==> Freeable(s, a)
    ensures ValidState(Free(s, addrs))
    ensures forall x :: x in FreeAddrs(Free(s, addrs)) <==> x in FreeAddrs(s) || (x in addrs && Contains(s.g, x))
    ensures Free(s, addrs).numAllocated == s.numAllocated - CountIn(s.g, addrs)
    ensures TailClear(s) ==> TailClear(Free(s, addrs))
    ensures Counted(s) ==> Counted(Free(s, addrs))
    decreases |addrs|
  {
    AllocatedAreFreeable(s, addrs);
    if addrs == [] {
    } else {
      var n := |addrs| - 1;
      var before, last := addrs[..n], addrs[n];
      assert addrs == before + [last];
      assert last in addrs;
      FreeGivesBack(s, before);
      assert last !in before;
      FreeOneSpec(Free(s, before), last);
    }
  }

  // ----- the extent test and the round trip -----

  // With the code's extent, `contains` accepts a page exactly when its byte offset from physBase is
  // below the page count; so it refuses the last page of every region that has one.
  lemma ContainedPages(base: nat, length: nat, p: nat)
    requires PAGE_SIZE <= length
    ensures var g := Layout(base, length);
            && (Contains(g, Addr(g, p)) <==> g.bitmapReserved + p * PAGE_SIZE < g.numPages)
            && ((forall a :: IsPage(g, a) ==> Contains(g, a)) <==> g.bitmapSize == 0)
            && (forall a :: IsPage(g, a) ==> Contains(Intended(g), a))
  {
    var g := Layout(base, length);
    if g.bitmapSize > 0 {
      var last := Addr(g, g.bitmapSize - 1);
      assert IsPage(g, last) && !Contains(g, last);
    }
  }

  // Handing back what alloc returned restores the bitmap exactly when `contains` accepts every address.
  lemma AllocFreeRoundTrip(s: RegionState, n: nat)
    requires ValidState(s) && TailClear(s)
    ensures var taken := FreeAddrs(s)[..Served(s, n)];
            && AllocatedPages(Alloc(s, n), taken)
            && (forall a :: a in taken ==> Freeable(Alloc(s, n), a))
            && (Free(Alloc(s, n), taken) == s <==> forall a :: a in taken ==> Contains(s.g, a))
  {
    var t := Alloc(s, n);
    var taken := FreeAddrs(s)[..Served(s, n)];
    TakenAreAllocated(s, n);
    FreeGivesBack(t, taken);
    var r := Free(t, taken);
    if forall a :: a in taken ==> Contains(s.g, a) {
      forall x
        ensures x in FreeAddrs(r) <==> x in FreeAddrs(s)
      {
      }
      SameFree(r, s);
      CountsEvery(s.g, taken);
    }
    if r == s {
      forall a | a in taken
        ensures Contains(s.g, a)
      {
        assert a in FreeAddrs(r) && a !in FreeAddrs(t);
      }
    }
  }

  lemma TakenAreAllocated(s: RegionState, n: nat)
    requires ValidState(s) && TailClear(s)
    ensures var taken := FreeAddrs(s)[..Served(s, n)];
            && ValidState(Alloc(s, n))
            && AllocatedPages(Alloc(s, n), taken)
            && (forall a :: a in taken ==> a in FreeAddrs(s) && a !in FreeAddrs(Alloc(s, n)))
            && (forall a :: a in FreeAddrs(s) <==> a in taken || a in FreeAddrs(Alloc(s, n)))
  {
    var m := Served(s, n);
    var free := FreeAddrs(s);
    AllocTakesPrefix(s, n);
    FreeAddrsArePages(s);
    assert free == free[..m] + free[m..];
    assert forall i, j :: 0 <= i < m <= j < |free| ==> free[i] < free[j];
  }

  // Two bitmaps of one region with the same free addresses are the same.
  lemma SameFree(s: RegionState, t: RegionState)
    requires s.g == t.g && |s.bits| == |t.bits|
    requires forall x :: x in FreeAddrs(s) <==> x in FreeAddrs(t)
    ensures s.bits == t.bits
  {
    forall i | 0 <= i < |s.bits|
      ensures s.bits[i] == t.bits[i]
    {
      BitListed(s, i);
      BitListed(t, i);
    }
  }

  lemma BitListed(s: RegionState, i: nat)
    requires i < |s.bits|
    ensures s.bits[i] <==> Addr(s.g, i) in FreeAddrs(s)
  {
    FreeListSpec(s.bits);
    FreeAddrsMembers(s, Addr(s.g, i));
  }

  lemma {:induction false} CountsEvery(g: Geometry, addrs: seq<nat>)
    requires forall a :: a in addrs ==> Contains(g, a)
    ensures CountIn(g, addrs) == |addrs|
  {
    if addrs == [] {
    } else {
      assert addrs[|addrs| - 1] in addrs;
      CountsEvery(g, addrs[..|addrs| - 1]);
    }
  }

  // ----- the bitmap the constructor leaves behind -----

  // memset(bitmap, 0xFF, bitmapBytes): whole bytes are set, whatever was in storage above them stays.
  function BuiltBits(numPages: nat, found: seq<bool>): (r: seq<bool>)
    ensures |r| == |found|
  {
    seq(|found|, j requires 0 <= j < |found| => j < 8 * BitmapBytes(numPages) || found[j])
  }

  function Built(base: nat, length: nat, found: seq<bool>): RegionState
    requires PAGE_SIZE <= length
    requires |found| == ScanBits(Layout(base, length))
  {
    var g := Layout(base, length);
    RegionState(g, BuiltBits(g.numPages, found), 0)
  }

  // A fresh region hands out only its own pages, and counts them all, exactly when the number of
  // allocatable pages is a multiple of 64: otherwise bit bitmapSize is set too, whatever was in storage.
  lemma BuiltRegion(base: nat, length: nat, found: seq<bool>)
    requires PAGE_SIZE <= length
    requires |found| == ScanBits(Layout(base, length))
    ensures var s := Built(base, length, found);
            && ValidState(s)
            && (forall i :: 0 <= i < s.g.bitmapSize ==> s.bits[i])
            && (TailClear(s) <==> s.g.bitmapSize % 64 == 0)
            && (TailClear(s) <==> Counted(s))
  {
    BuiltTail(base, length, found);
    CountFree(Built(base, length, found).bits, Layout(base, length).bitmapSize);
  }

  lemma BuiltTail(base: nat, length: nat, found: seq<bool>)
    requires PAGE_SIZE <= length
    requires |found| == ScanBits(Layout(base, length))
    ensures var s := Built(base, length, found);
            && s.g.bitmapSize <= |s.bits|
            && (forall i :: 0 <= i < s.g.bitmapSize ==> s.bits[i])
            && (TailClear(s) <==> s.g.bitmapSize % 64 == 0)
  {
    LayoutSizes(length / PAGE_SIZE);
    var g := Layout(base, length);
    TailOf(BuiltBits(g.numPages, found), g.bitmapSize, 8 * BitmapBytes(g.numPages));
  }

  lemma LayoutSizes(numPages: nat)
    requires numPages >= 1
    ensures 1 <= BitmapPages(numPages) <= numPages && numPages <= 8 * BitmapBytes(numPages)
  {
  }

  // A bitmap of whole words over n positions, of which at least the first n + 1 there are have been set.
  lemma TailOf(bits: seq<bool>, n: nat, filled: nat)
    requires |bits| == (n + 63) / 64 * 64 && n < filled
    requires forall j :: 0 <= j < |bits| && j < filled ==> bits[j]
    ensures n <= |bits| && (forall i :: 0 <= i < n ==> bits[i])
    ensures (forall i :: n <= i < |bits| ==> !bits[i]) <==> n % 64 == 0
  {
    var q, r := n / 64, n % 64;
    assert n == 64 * q + r;
    if r == 0 {
      assert |bits| == n;
    } else {
      assert |bits| == 64 * q + 64;
      assert bits[n];
    }
  }

  // A bitmap whose first n bits are set has n free positions exactly when nothing else is set.
  lemma CountFree(bits: seq<bool>, n: nat)
    requires n <= |bits|
    requires forall i :: 0 <= i < n ==> bits[i]
    ensures |FreeList(bits)| == n <==> forall i :: n <= i < |bits| ==> !bits[i]
    ensures |FreeList(bits)| >= n
  {
    FreeListSpec(bits);
    FreeSetSize(bits);
    assert Below(n) <= FreeSet(bits);
    SubsetSize(Below(n), FreeSet(bits));
    if forall i :: n <= i < |bits| ==> !bits[i] {
      assert FreeSet(bits) == Below(n);
    }
    if |FreeList(bits)| == n {
      SubsetEqual(Below(n), FreeSet(bits));
      assert forall i :: i in FreeSet(bits) ==> i < n;
      assert forall i :: 0 <= i < |bits| && bits[i] ==> i in FreeSet(bits);
    }
  }

  ghost function Below(n: nat): (r: set<nat>)
    ensures |r| == n
    ensures forall i: nat :: i in r <==> i < n
  {
    if n == 0 then {} else Below(n - 1) + {n - 1}
  }

  lemma {:induction false} SubsetSize<T>(a: set<T>, b: set<T>)
    requires a <= b
    ensures |a| <= |b|
  {
    if a != {} {
      var x :| x in a;
      SubsetSize(a - {x}, b - {x});
    }
  }

  lemma {:induction false} SubsetEqual<T>(a: set<T>, b: set<T>)
    requires a <= b && |a| == |b|
    ensures a == b
  {
    if a != {} {
      var x :| x in a;
      SubsetEqual(a - {x}, b - {x});
      assert a == (a - {x}) + {x} && b == (b - {x}) + {x};
    }
  }
}

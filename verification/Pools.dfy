// A pool: up to 16 regions that are asked in order (Memory/Pool.cpp).
module Pools {
  import opened FreeBits
  import opened Regions

  const MAX_REGIONS: nat := 16

  type PoolState = seq<RegionState>

  ghost predicate Separate(g: Geometry, h: Geometry) {
    || g.physBase + g.numPages * PAGE_SIZE <= h.physBase
    || h.physBase + h.numPages * PAGE_SIZE <= g.physBase
  }

  // Page-aligned regions that do not overlap, whose extent test stays within the region.
  ghost predicate ValidPool(ps: PoolState) {
    && |ps| <= MAX_REGIONS
    && (forall i :: 0 <= i < |ps| ==> ValidState(ps[i]))
    && (forall i :: 0 <= i < |ps| ==> ps[i].g.physBase % PAGE_SIZE == 0 && ps[i].g.span <= ps[i].g.numPages * PAGE_SIZE)
    && (forall i, j :: 0 <= i < j < |ps| ==> Separate(ps[i].g, ps[j].g))
  }

  ghost predicate PoolInv(ps: PoolState) {
    && ValidPool(ps)
    && (forall i :: 0 <= i < |ps| ==> TailClear(ps[i]))
    && (forall i :: 0 <= i < |ps| ==> Counted(ps[i]))
  }

  // Every address the pool can still hand out, in the order it hands them out.
  function PoolFree(ps: PoolState): seq<nat> {
    if ps == [] then [] else FreeAddrs(ps[0]) + PoolFree(ps[1..])
  }

  function Total(ps: PoolState): int {
    if ps == [] then 0 else ps[0].g.bitmapSize + Total(ps[1..])
  }

  function Allocated(ps: PoolState): int {
    if ps == [] then 0 else ps[0].numAllocated + Allocated(ps[1..])
  }

  function PoolServed(ps: PoolState, n: nat): nat {
    Min(n, |PoolFree(ps)|)
  }

  // The pool after a request for n pages: each region is asked for what is still missing.
  function PoolAlloc(ps: PoolState, n: nat): (r: PoolState)
    ensures |r| == |ps|
  {
    if ps == [] then []
    else [Regions.Alloc(ps[0], n)] + PoolAlloc(ps[1..], n - Served(ps[0], n))
  }

  // The output buffer after the request. Every region stores its addresses from the start of the
  // buffer: the code never advances its output pointer between regions.
  function Stored(ps: PoolState, n: nat, buf: seq<nat>): (r: seq<nat>)
    requires n <= |buf|
    ensures |r| == |buf|
  {
    if ps == [] then buf
    else
      var m := Served(ps[0], n);
      Stored(ps[1..], n - m, FreeAddrs(ps[0])[..m] + buf[m..])
  }

  // The buffer after the request, as the code leaves it or with its output pointer advanced.
  function Answer(ps: PoolState, n: nat, buf: seq<nat>, advances: bool): (r: seq<nat>)
    requires n <= |buf|
    ensures |r| == |buf|
  {
    if advances then PoolFree(ps)[..PoolServed(ps, n)] + buf[PoolServed(ps, n)..] else Stored(ps, n, buf)
  }

  // At most one region has to contribute pages to a request for n pages.
  predicate OneRegion(ps: PoolState, n: nat) {
    if ps == [] then true
    else if FreeAddrs(ps[0]) == [] then OneRegion(ps[1..], n)
    else |FreeAddrs(ps[0])| >= n || PoolFree(ps[1..]) == []
  }

  // Does the buffer name the pages a request takes?
  predicate Named(ps: PoolState, n: nat, advances: bool) {
    advances || OneRegion(ps, n)
  }

  ghost predicate Freeables(ps: PoolState, addrs: seq<nat>) {
    forall i, a :: 0 <= i < |ps| && a in addrs ==> Freeable(ps[i], a)
  }

  // Offering every address to every region.
  ghost function PoolRelease(ps: PoolState, addrs: seq<nat>): (r: PoolState)
    requires Freeables(ps, addrs)
    ensures |r| == |ps|
  {
    seq(|ps|, i requires 0 <= i < |ps| =>
      assert forall a :: a in addrs ==> Freeable(ps[i], a);
      Regions.Free(ps[i], addrs))
  }

  function PoolCount(ps: PoolState, addrs: seq<nat>): nat {
    if ps == [] then 0 else CountIn(ps[0].g, addrs) + PoolCount(ps[1..], addrs)
  }

  // ----- membership -----

  ghost predicate IsPoolPage(ps: PoolState, a: nat) {
    exists i :: 0 <= i < |ps| && IsPage(ps[i].g, a)
  }

  ghost predicate PoolContains(ps: PoolState, a: nat) {
    exists i :: 0 <= i < |ps| && Contains(ps[i].g, a)
  }

  lemma {:induction false} PoolFreeMembers(ps: PoolState, a: nat)
    ensures a in PoolFree(ps) <==> exists i :: 0 <= i < |ps| && a in FreeAddrs(ps[i])
  {
    if ps == [] {
    } else {
      PoolFreeMembers(ps[1..], a);
      if i :| 0 <= i < |ps| && a in FreeAddrs(ps[i]) {
        if i > 0 {
          assert ps[1..][i - 1] == ps[i];
        }
      }
    }
  }

  lemma PageBounds(g: Geometry, a: nat)
    requires WellFormed(g) && IsPage(g, a)
    ensures g.physBase + PAGE_SIZE <= a && a + PAGE_SIZE <= g.physBase + g.numPages * PAGE_SIZE
    ensures g.physBase % PAGE_SIZE == 0 ==> a % PAGE_SIZE == 0
  {
  }

  // An address inside a region's memory belongs to no other region.
  lemma OnlyRegion(ps: PoolState, i: nat, j: nat, a: nat)
    requires ValidPool(ps) && i < |ps| && j < |ps|
    requires IsPage(ps[i].g, a)
    requires Contains(ps[j].g, a) || IsPage(ps[j].g, a)
    ensures i == j
  {
  }

  lemma TailInv(ps: PoolState)
    requires PoolInv(ps) && ps != []
    ensures PoolInv(ps[1..])
  {
  }

  lemma FreeIsPage(ps: PoolState, a: nat)
    requires PoolInv(ps) && a in PoolFree(ps)
    ensures IsPoolPage(ps, a) && a % PAGE_SIZE == 0 && a >= PAGE_SIZE
  {
    PoolFreeMembers(ps, a);
    var i :| 0 <= i < |ps| && a in FreeAddrs(ps[i]);
    FreeAddrsArePages(ps[i]);
    PageBounds(ps[i].g, a);
  }

  lemma FreeOnce(ps: PoolState, a: nat)
    requires PoolInv(ps) && ps != []
    ensures !(a in FreeAddrs(ps[0]) && a in PoolFree(ps[1..]))
  {
    hide Separate;
    if a in FreeAddrs(ps[0]) && a in PoolFree(ps[1..]) {
      FreeAddrsArePages(ps[0]);
      TailInv(ps);
      FreeIsPage(ps[1..], a);
      var i: nat :| i < |ps[1..]| && IsPage(ps[1..][i].g, a);
      assert ps[1..][i] == ps[i + 1];
      OnlyRegion(ps, 0, i + 1, a);
      assert false;
    }
  }

  lemma DistinctConcat(a: seq<nat>, b: seq<nat>)
    requires Distinct(a) && Distinct(b)
    requires forall x :: !(x in a && x in b)
    ensures Distinct(a + b)
  {
    forall i, j | 0 <= i < j < |a + b|
      ensures (a + b)[i] != (a + b)[j]
    {
      if i < |a| <= j {
        assert a[i] in a && b[j - |a|] in b;
      }
    }
  }

  // What the pool hands out are page-aligned allocatable pages, each listed once.
  lemma {:induction false} PoolFreePages(ps: PoolState)
    requires PoolInv(ps)
    ensures Distinct(PoolFree(ps))
    ensures forall a :: a in PoolFree(ps) ==> IsPoolPage(ps, a) && a % PAGE_SIZE == 0 && a >= PAGE_SIZE
  {
    hide PoolInv, FreeAddrs, IsPoolPage;
    if ps == [] {
    } else {
      TailInv(ps);
      PoolFreePages(ps[1..]);
      HeadDistinct(ps);
      forall a
        ensures !(a in FreeAddrs(ps[0]) && a in PoolFree(ps[1..]))
      {
        FreeOnce(ps, a);
      }
      DistinctConcat(FreeAddrs(ps[0]), PoolFree(ps[1..]));
    }
    forall a | a in PoolFree(ps)
      ensures IsPoolPage(ps, a) && a % PAGE_SIZE == 0 && a >= PAGE_SIZE
    {
      FreeIsPage(ps, a);
    }
  }

  lemma HeadDistinct(ps: PoolState)
    requires PoolInv(ps) && ps != []
    ensures Distinct(FreeAddrs(ps[0]))
  {
    FreeAddrsArePages(ps[0]);
  }

  // ----- allocation -----

  lemma AllocZero(s: RegionState)
    ensures Regions.Alloc(s, 0) == s
  {
  }

  lemma {:induction false} PoolAllocZero(ps: PoolState)
    ensures PoolAlloc(ps, 0) == ps
  {
    if ps == [] {
    } else {
      AllocZero(ps[0]);
      PoolAllocZero(ps[1..]);
    }
  }

  lemma {:induction false} PoolAllocRegions(ps: PoolState, n: nat)
    requires forall i :: 0 <= i < |ps| ==> ValidState(ps[i]) && TailClear(ps[i]) && Counted(ps[i])
    ensures forall i :: 0 <= i < |ps| ==>
              var r := PoolAlloc(ps, n)[i];
              r.g == ps[i].g && ValidState(r) && TailClear(r) && Counted(r)
    ensures Total(PoolAlloc(ps, n)) == Total(ps)
  {
    if ps == [] {
    } else {
      AllocTakesPrefix(ps[0], n);
      PoolAllocRegions(ps[1..], n - Served(ps[0], n));
    }
  }

  lemma DropTwo(head: seq<nat>, rest: seq<nat>, m: nat, k: nat)
    requires m <= |head| && k <= |rest| && (m == |head| || k == 0)
    ensures (head + rest)[m + k..] == head[m..] + rest[k..]
  {
  }

  lemma {:induction false} PoolAllocList(ps: PoolState, n: nat)
    requires forall i :: 0 <= i < |ps| ==> ValidState(ps[i])
    ensures PoolFree(PoolAlloc(ps, n)) == PoolFree(ps)[PoolServed(ps, n)..]
    ensures Allocated(PoolAlloc(ps, n)) == Allocated(ps) + PoolServed(ps, n)
  {
    hide FreeAddrs, FreeList, TakeBits, ValidState;
    ListedCount(ps);
    if ps == [] {
    } else {
      var m := Served(ps[0], n);
      PoolAllocList(ps[1..], n - m);
      AllocTakesPrefix(ps[0], n);
      var head, rest := FreeAddrs(ps[0]), PoolFree(ps[1..]);
      var k := PoolServed(ps[1..], n - m);
      DropTwo(head, rest, m, k);
    }
  }

  // A request takes a prefix of the pool's free list, whichever regions that prefix spans.
  lemma PoolAllocTakesPrefix(ps: PoolState, n: nat)
    requires PoolInv(ps)
    ensures PoolInv(PoolAlloc(ps, n))
    ensures PoolFree(PoolAlloc(ps, n)) == PoolFree(ps)[PoolServed(ps, n)..]
    ensures forall i :: 0 <= i < |ps| ==> PoolAlloc(ps, n)[i].g == ps[i].g
    ensures Allocated(PoolAlloc(ps, n)) == Allocated(ps) + PoolServed(ps, n)
    ensures Total(PoolAlloc(ps, n)) == Total(ps)
  {
    PoolAllocRegions(ps, n);
    PoolAllocList(ps, n);
  }

  lemma {:induction false} StoredNothing(ps: PoolState, n: nat, buf: seq<nat>)
    requires n <= |buf|
    requires n == 0 || PoolFree(ps) == []
    ensures Stored(ps, n, buf) == buf
  {
    if ps == [] {
    } else {
      assert FreeAddrs(ps[0])[..0] + buf[0..] == buf;
      StoredNothing(ps[1..], n, buf);
    }
  }

  // The buffer starts with a page of the last region that contributed.
  lemma {:induction false} StoredHead(ps: PoolState, n: nat, buf: seq<nat>)
    requires n <= |buf|
    requires n > 0 && PoolFree(ps) != []
    ensures Stored(ps, n, buf)[0] in PoolFree(ps)
  {
    var m := Served(ps[0], n);
    var next := FreeAddrs(ps[0])[..m] + buf[m..];
    if n - m > 0 && PoolFree(ps[1..]) != [] {
      StoredHead(ps[1..], n - m, next);
    } else {
      StoredNothing(ps[1..], n - m, next);
      assert FreeAddrs(ps[0])[0] in FreeAddrs(ps[0]);
    }
  }

  // Whatever is stored is a page the pool had free, or what the buffer held at that place.
  lemma {:induction false} StoredEntries(ps: PoolState, n: nat, buf: seq<nat>, j: nat)
    requires n <= |buf| && j < |buf|
    ensures Stored(ps, n, buf)[j] in PoolFree(ps) || Stored(ps, n, buf)[j] == buf[j]
  {
    if ps == [] {
    } else {
      var m := Served(ps[0], n);
      var next := FreeAddrs(ps[0])[..m] + buf[m..];
      StoredEntries(ps[1..], n - m, next, j);
      if j < m {
        assert next[j] == FreeAddrs(ps[0])[j];
      }
    }
  }

  // When a second region contributes, the first page taken is named nowhere in the buffer.
  lemma {:induction false} HeadLost(ps: PoolState, n: nat, buf: seq<nat>)
    requires Distinct(PoolFree(ps)) && 1 <= n <= |buf| && !OneRegion(ps, n)
    requires forall j :: 0 <= j < |buf| ==> buf[j] !in PoolFree(ps)
    ensures PoolFree(ps) != [] && PoolFree(ps)[0] !in Stored(ps, n, buf)
  {
    hide FreeAddrs, FreeList, Distinct;
    ListedCount(ps);
    if FreeAddrs(ps[0]) == [] {
      assert PoolFree(ps) == PoolFree(ps[1..]);
      assert FreeAddrs(ps[0])[..0] + buf[0..] == buf;
      HeadLost(ps[1..], n, buf);
    } else {
      FirstLost(ps, n, buf);
    }
  }

  lemma FirstOfAll(head: seq<nat>, rest: seq<nat>)
    requires Distinct(head + rest) && head != []
    ensures head[0] !in rest
  {
    assert (head + rest)[0] == head[0];
    forall i | 0 <= i < |rest|
      ensures rest[i] != head[0]
    {
      assert (head + rest)[|head| + i] == rest[i];
    }
  }

  lemma FirstLost(ps: PoolState, n: nat, buf: seq<nat>)
    requires Distinct(PoolFree(ps)) && n <= |buf| && (forall j :: 0 <= j < |buf| ==> buf[j] !in PoolFree(ps))
    requires ps != [] && FreeAddrs(ps[0]) != [] && PoolFree(ps[1..]) != [] && n > |FreeAddrs(ps[0])|
    ensures PoolFree(ps) != [] && PoolFree(ps)[0] !in Stored(ps, n, buf)
  {
    hide FreeAddrs, FreeList;
    ListedCount(ps);
    var head, rest := FreeAddrs(ps[0]), PoolFree(ps[1..]);
    var m := Served(ps[0], n);
    assert m == |head| && PoolFree(ps) == head + rest;
    var next := head[..m] + buf[m..];
    FirstOfAll(head, rest);
    assert head[0] == PoolFree(ps)[0] && head[0] in PoolFree(ps);
    forall j | 0 <= j < |buf|
      ensures Stored(ps, n, buf)[j] != head[0]
    {
      StoredEntries(ps[1..], n - m, next, j);
      if j == 0 {
        StoredHead(ps[1..], n - m, next);
      } else if j < m {
        assert next[j] == head[j] && (head + rest)[j] != (head + rest)[0];
      }
    }
  }

  lemma ListedCount(ps: PoolState)
    ensures ps != [] ==> |FreeAddrs(ps[0])| == |FreeList(ps[0].bits)|
    ensures ps != [] && FreeAddrs(ps[0]) == [] && Distinct(PoolFree(ps)) ==> Distinct(PoolFree(ps[1..]))
  {
  }

  // A second contributor overwrites the first page of the first one.
  lemma Overwritten(ps: PoolState, n: nat, buf: seq<nat>)
    requires Distinct(PoolFree(ps)) && n <= |buf|
    requires ps != [] && FreeAddrs(ps[0]) != [] && PoolFree(ps[1..]) != []
    requires n > |FreeAddrs(ps[0])|
    ensures Stored(ps, n, buf)[0] != PoolFree(ps)[0]
  {
    var head, rest := FreeAddrs(ps[0]), PoolFree(ps[1..]);
    var m := Served(ps[0], n);
    StoredHead(ps[1..], n - m, head[..m] + buf[m..]);
    var j :| 0 <= j < |rest| && rest[j] == Stored(ps, n, buf)[0];
    assert PoolFree(ps)[|head| + j] == rest[j] && PoolFree(ps)[0] == head[0];
  }

  // The caller's buffer names the pages that were taken exactly when one region supplied all of them.
  lemma {:induction false} BufferNamesTaken(ps: PoolState, n: nat, buf: seq<nat>)
    requires Distinct(PoolFree(ps))
    requires 1 <= n <= |buf|
    ensures var k := PoolServed(ps, n);
            (Stored(ps, n, buf)[..k] == PoolFree(ps)[..k] <==> OneRegion(ps, n))
  {
    hide FreeAddrs, FreeList, Distinct;
    if ps == [] {
    } else {
      ListedCount(ps);
      if FreeAddrs(ps[0]) == [] {
        assert FreeAddrs(ps[0])[..0] + buf[0..] == buf;
        assert PoolFree(ps) == PoolFree(ps[1..]);
        BufferNamesTaken(ps[1..], n, buf);
      } else if n <= |FreeAddrs(ps[0])| || PoolFree(ps[1..]) == [] {
        SoleContributor(ps, n, buf);
      } else {
        var k := PoolServed(ps, n);
        Overwritten(ps, n, buf);
        assert Stored(ps, n, buf)[..k][0] == Stored(ps, n, buf)[0] && PoolFree(ps)[..k][0] == PoolFree(ps)[0];
      }
    }
  }

  lemma AnswerAsWritten(ps: PoolState, n: nat, buf: seq<nat>)
    requires n <= |buf|
    ensures Answer(ps, n, buf, false) == Stored(ps, n, buf)
  {
  }

  lemma AnswerExact(ps: PoolState, n: nat, buf: seq<nat>, advances: bool)
    requires Distinct(PoolFree(ps))
    requires 1 <= n <= |buf|
    ensures var k := PoolServed(ps, n);
            (Answer(ps, n, buf, advances)[..k] == PoolFree(ps)[..k] <==> Named(ps, n, advances))
  {
    BufferNamesTaken(ps, n, buf);
  }

  lemma AnswerEntries(ps: PoolState, n: nat, buf: seq<nat>, advances: bool, j: nat)
    requires n <= |buf| && j < |buf|
    ensures Answer(ps, n, buf, advances)[j] in PoolFree(ps) || Answer(ps, n, buf, advances)[j] == buf[j]
  {
    StoredEntries(ps, n, buf, j);
  }

  lemma SoleContributor(ps: PoolState, n: nat, buf: seq<nat>)
    requires ps != [] && 1 <= n <= |buf|
    requires n <= |FreeAddrs(ps[0])| || PoolFree(ps[1..]) == []
    ensures Stored(ps, n, buf)[..PoolServed(ps, n)] == PoolFree(ps)[..PoolServed(ps, n)]
  {
    var head, m := FreeAddrs(ps[0]), Served(ps[0], n);
    StoredNothing(ps[1..], n - m, head[..m] + buf[m..]);
    assert PoolServed(ps, n) == m;
    assert PoolFree(ps)[..m] == head[..m];
  }

  // ----- release -----

  // Pages the pool has handed out: what a caller may give back.
  ghost predicate AllocatedInPool(ps: PoolState, addrs: seq<nat>) {
    && Distinct(addrs)
    && forall a :: a in addrs ==> IsPoolPage(ps, a) && a !in PoolFree(ps)
  }

  lemma RegionSees(ps: PoolState, addrs: seq<nat>, i: nat)
    requires ValidPool(ps) && AllocatedInPool(ps, addrs) && i < |ps|
    ensures AllocatedPages(ps[i], addrs)
    ensures forall a :: a in addrs ==> Freeable(ps[i], a)
  {
    forall a | a in addrs && Contains(ps[i].g, a)
      ensures IsPage(ps[i].g, a) && a !in FreeAddrs(ps[i])
    {
      var j :| 0 <= j < |ps| && IsPage(ps[j].g, a);
      OnlyRegion(ps, j, i, a);
      PoolFreeMembers(ps, a);
    }
    AllocatedAreFreeable(ps[i], addrs);
  }

  lemma AllFreeable(ps: PoolState, addrs: seq<nat>)
    requires ValidPool(ps) && AllocatedInPool(ps, addrs)
    ensures Freeables(ps, addrs)
  {
    forall i, a | 0 <= i < |ps| && a in addrs
      ensures Freeable(ps[i], a)
    {
      RegionSees(ps, addrs, i);
    }
  }

  // Releasing pages returns to the free set exactly those a region's extent test accepts.
  lemma PoolReleaseGivesBack(ps: PoolState, addrs: seq<nat>)
    requires PoolInv(ps) && AllocatedInPool(ps, addrs)
    ensures Freeables(ps, addrs)
    ensures PoolInv(PoolRelease(ps, addrs))
    ensures forall i :: 0 <= i < |ps| ==> PoolRelease(ps, addrs)[i].g == ps[i].g
    ensures forall x :: x in PoolFree(PoolRelease(ps, addrs)) <==>
              x in PoolFree(ps) || (x in addrs && PoolContains(ps, x))
  {
    AllFreeable(ps, addrs);
    var r := PoolRelease(ps, addrs);
    forall i | 0 <= i < |ps|
      ensures r[i].g == ps[i].g && ValidState(r[i]) && TailClear(r[i]) && Counted(r[i])
      ensures forall x :: x in FreeAddrs(r[i]) <==> x in FreeAddrs(ps[i]) || (x in addrs && Contains(ps[i].g, x))
    {
      RegionSees(ps, addrs, i);
      FreeGivesBack(ps[i], addrs);
    }
    assert ValidPool(r) by {
      forall i, j | 0 <= i < j < |r|
        ensures Separate(r[i].g, r[j].g)
      {
        assert Separate(ps[i].g, ps[j].g);
      }
    }
    forall x
      ensures x in PoolFree(r) <==> x in PoolFree(ps) || (x in addrs && PoolContains(ps, x))
    {
      PoolFreeMembers(r, x);
      PoolFreeMembers(ps, x);
      if i :| 0 <= i < |r| && x in FreeAddrs(r[i]) {
        assert x in FreeAddrs(ps[i]) || (x in addrs && Contains(ps[i].g, x));
      }
      if x in addrs && PoolContains(ps, x) {
        var i :| 0 <= i < |ps| && Contains(ps[i].g, x);
        assert x in FreeAddrs(r[i]);
      }
      if i :| 0 <= i < |ps| && x in FreeAddrs(ps[i]) {
        assert x in FreeAddrs(r[i]);
      }
    }
  }

  // ----- counting -----

  // How many regions accept an address.
  function Hits(ps: PoolState, a: nat): nat {
    if ps == [] then 0 else (if Contains(ps[0].g, a) then 1 else 0) + Hits(ps[1..], a)
  }

  ghost predicate AtMostOne(ps: PoolState, a: nat) {
    forall i, j :: 0 <= i < j < |ps| ==> !(Contains(ps[i].g, a) && Contains(ps[j].g, a))
  }

  lemma {:induction false} HitsSpec(ps: PoolState, a: nat)
    requires AtMostOne(ps, a)
    ensures Hits(ps, a) == if PoolContains(ps, a) then 1 else 0
  {
    if ps == [] {
    } else {
      forall i, j | 0 <= i < j < |ps[1..]|
        ensures !(Contains(ps[1..][i].g, a) && Contains(ps[1..][j].g, a))
      {
        assert !(Contains(ps[i + 1].g, a) && Contains(ps[j + 1].g, a));
      }
      HitsSpec(ps[1..], a);
      if PoolContains(ps[1..], a) {
        var i :| 0 <= i < |ps[1..]| && Contains(ps[1..][i].g, a);
        assert Contains(ps[i + 1].g, a);
      }
      if PoolContains(ps, a) && !Contains(ps[0].g, a) {
        var i :| 0 <= i < |ps| && Contains(ps[i].g, a);
        assert ps[1..][i - 1] == ps[i];
      }
    }
  }

  lemma {:induction false} CountLast(ps: PoolState, addrs: seq<nat>)
    requires addrs != []
    ensures PoolCount(ps, addrs) == PoolCount(ps, addrs[..|addrs| - 1]) + Hits(ps, addrs[|addrs| - 1])
  {
    if ps == [] {
    } else {
      CountLast(ps[1..], addrs);
    }
  }

  lemma {:induction false} PoolCountEmpty(ps: PoolState)
    ensures PoolCount(ps, []) == 0
  {
    if ps == [] {
    } else {
      PoolCountEmpty(ps[1..]);
    }
  }

  // `free` reports every page released exactly when every address was accepted by a region.
  lemma {:induction false} CountAll(ps: PoolState, addrs: seq<nat>)
    requires forall a :: a in addrs ==> AtMostOne(ps, a)
    ensures PoolCount(ps, addrs) <= |addrs|
    ensures PoolCount(ps, addrs) == |addrs| <==> forall a :: a in addrs ==> PoolContains(ps, a)
    decreases |addrs|
  {
    PoolCountEmpty(ps);
    if addrs == [] {
    } else {
      var before, last := addrs[..|addrs| - 1], addrs[|addrs| - 1];
      assert addrs == before + [last];
      CountAll(ps, before);
      CountLast(ps, addrs);
      HitsSpec(ps, last);
    }
  }

  // Extents do not overlap, so at most one region accepts any address.
  lemma ContainedOnce(ps: PoolState, a: nat)
    requires ValidPool(ps)
    ensures AtMostOne(ps, a)
  {
    forall i, j | 0 <= i < j < |ps|
      ensures !(Contains(ps[i].g, a) && Contains(ps[j].g, a))
    {
      assert Separate(ps[i].g, ps[j].g);
    }
  }

  // Once the regions before k have accepted every address, the others would ignore all of them.
  lemma LaterIgnore(ps: PoolState, addrs: seq<nat>, k: nat, i: nat)
    requires k <= i < |ps| && (forall a :: a in addrs ==> AtMostOne(ps, a))
    requires PoolCount(ps[..k], addrs) == |addrs|
    ensures forall a :: a in addrs ==> !Contains(ps[i].g, a)
  {
    forall a | a in addrs
      ensures AtMostOne(ps[..k], a)
    {
      assert AtMostOne(ps, a);
    }
    CountAll(ps[..k], addrs);
    forall a | a in addrs
      ensures !Contains(ps[i].g, a)
    {
      assert AtMostOne(ps, a);
      var j :| 0 <= j < k && Contains(ps[..k][j].g, a);
      assert ps[..k][j] == ps[j];
    }
  }

  lemma {:induction false} FreeIgnored(s: RegionState, addrs: seq<nat>)
    requires forall a :: a in addrs ==> !Contains(s.g, a)
    ensures Regions.Free(s, addrs) == s && CountIn(s.g, addrs) == 0
    decreases |addrs|
  {
    if addrs == [] {
    } else {
      FreeIgnored(s, addrs[..|addrs| - 1]);
      assert addrs[|addrs| - 1] in addrs;
    }
  }

  lemma {:induction false} CountSnoc(ps: PoolState, k: nat, addrs: seq<nat>)
    requires k < |ps|
    ensures PoolCount(ps[..k + 1], addrs) == PoolCount(ps[..k], addrs) + CountIn(ps[k].g, addrs)
  {
    if k == 0 {
      assert ps[..1][1..] == [] && ps[..0] == [];
    } else {
      CountSnoc(ps[1..], k - 1, addrs);
      assert ps[..k + 1][1..] == ps[1..][..k] && ps[..k][1..] == ps[1..][..k - 1];
    }
  }

  // Free pages and pages counted as allocated make up the total.
  lemma {:induction false} Conservation(ps: PoolState)
    requires forall i :: 0 <= i < |ps| ==> Counted(ps[i])
    ensures |PoolFree(ps)| + Allocated(ps) == Total(ps)
  {
    if ps == [] {
    } else {
      Conservation(ps[1..]);
    }
  }

  lemma {:induction false} SameTotal(ps: PoolState, qs: PoolState)
    requires |ps| == |qs| && forall i :: 0 <= i < |ps| ==> ps[i].g == qs[i].g
    ensures Total(ps) == Total(qs)
  {
    if ps == [] {
    } else {
      SameTotal(ps[1..], qs[1..]);
    }
  }

  // ----- round trip and runs -----

  // Giving back what a request took restores every bitmap and counter exactly when each page lies in
  // the extent of its own region; with the intended extent that is always so, however many regions it spans.
  lemma PoolRoundTrip(ps: PoolState, n: nat)
    requires PoolInv(ps)
    ensures var t := PoolAlloc(ps, n);
            var taken := PoolFree(ps)[..PoolServed(ps, n)];
            && PoolInv(t) && AllocatedInPool(t, taken) && Freeables(t, taken)
            && (PoolRelease(t, taken) == ps <==> forall a :: a in taken ==> PoolContains(ps, a))
  {
    hide PoolFree, PoolAlloc, PoolContains, PoolInv, AllocatedInPool, Freeables;
    var t := PoolAlloc(ps, n);
    var taken := PoolFree(ps)[..PoolServed(ps, n)];
    ReleasedTaken(ps, n);
    var r := PoolRelease(t, taken);
    if forall a :: a in taken ==> PoolContains(ps, a) {
      SamePool(r, ps);
    }
    if r == ps {
      forall a | a in taken
        ensures PoolContains(ps, a)
      {
        assert a in PoolFree(r) && a !in PoolFree(t);
      }
    }
  }

  lemma ReleasedTaken(ps: PoolState, n: nat)
    requires PoolInv(ps)
    ensures var t := PoolAlloc(ps, n);
            var taken := PoolFree(ps)[..PoolServed(ps, n)];
            && PoolInv(t) && AllocatedInPool(t, taken) && Freeables(t, taken)
            && PoolInv(PoolRelease(t, taken))
            && (forall i :: 0 <= i < |ps| ==> PoolRelease(t, taken)[i].g == ps[i].g)
            && (forall a :: a in taken ==> a in PoolFree(ps) && a !in PoolFree(t))
            && (forall x :: x in PoolFree(PoolRelease(t, taken)) <==>
                            x in PoolFree(ps) && (x in taken ==> PoolContains(ps, x)))
  {
    var t := PoolAlloc(ps, n);
    var taken := PoolFree(ps)[..PoolServed(ps, n)];
    PoolAllocTakesPrefix(ps, n);
    TakenFromPool(ps, n);
    PoolReleaseGivesBack(t, taken);
    SameExtents(t, ps);
  }

  lemma SameExtents(ps: PoolState, qs: PoolState)
    requires |ps| == |qs| && forall i :: 0 <= i < |ps| ==> ps[i].g == qs[i].g
    ensures forall a :: PoolContains(ps, a) <==> PoolContains(qs, a)
    ensures forall a :: IsPoolPage(ps, a) <==> IsPoolPage(qs, a)
  {
  }

  lemma TakenFromPool(ps: PoolState, n: nat)
    requires PoolInv(ps)
    ensures var t := PoolAlloc(ps, n);
            var taken := PoolFree(ps)[..PoolServed(ps, n)];
            && PoolInv(t) && AllocatedInPool(t, taken)
            && (forall a :: a in PoolFree(ps) <==> a in taken || a in PoolFree(t))
            && (forall a :: IsPoolPage(t, a) <==> IsPoolPage(ps, a))
  {
    var t := PoolAlloc(ps, n);
    var k := PoolServed(ps, n);
    var free := PoolFree(ps);
    PoolAllocTakesPrefix(ps, n);
    PoolFreePages(ps);
    assert free == free[..k] + free[k..];
    SameExtents(t, ps);
  }

  // Pools over the same regions with the same free addresses are the same.
  lemma SamePool(ps: PoolState, qs: PoolState)
    requires PoolInv(ps) && PoolInv(qs)
    requires |ps| == |qs| && forall i :: 0 <= i < |ps| ==> ps[i].g == qs[i].g
    requires forall x :: x in PoolFree(ps) <==> x in PoolFree(qs)
    ensures ps == qs
  {
    forall i | 0 <= i < |ps|
      ensures ps[i] == qs[i]
    {
      forall x
        ensures x in FreeAddrs(ps[i]) <==> x in FreeAddrs(qs[i])
      {
        FreeInOwnRegion(ps, i, x);
        FreeInOwnRegion(qs, i, x);
      }
      SameFree(ps[i], qs[i]);
    }
  }

  lemma FreeInOwnRegion(ps: PoolState, i: nat, x: nat)
    requires PoolInv(ps) && i < |ps|
    ensures x in FreeAddrs(ps[i]) <==> IsPage(ps[i].g, x) && x in PoolFree(ps)
  {
    PoolFreeMembers(ps, x);
    FreeAddrsArePages(ps[i]);
    if IsPage(ps[i].g, x) && x in PoolFree(ps) {
      var j :| 0 <= j < |ps| && x in FreeAddrs(ps[j]);
      FreeAddrsArePages(ps[j]);
      OnlyRegion(ps, i, j, x);
    }
  }

  datatype PoolEvent = Take(n: nat) | Give(addrs: seq<nat>)

  // Callers only give back pages that are handed out.
  ghost predicate Legal(ps: PoolState, e: PoolEvent) {
    match e
    case Take(n) => n >= 1
    case Give(addrs) => AllocatedInPool(ps, addrs) && Freeables(ps, addrs)
  }

  ghost function PoolStep(ps: PoolState, e: PoolEvent): PoolState
    requires Legal(ps, e)
  {
    match e
    case Take(n) => PoolAlloc(ps, n)
    case Give(addrs) => PoolRelease(ps, addrs)
  }

  // The pool after some events, the last of them at the end; None if one of them was not legal.
  ghost predicate PoolRun(ps: PoolState, events: seq<PoolEvent>, end: PoolState)
    decreases |events|
  {
    if events == [] then end == ps
    else Legal(ps, events[0]) && PoolRun(PoolStep(ps, events[0]), events[1..], end)
  }

  // Over any run, free plus allocated pages equal the total, and everything on offer is an aligned
  // page of one of the regions.
  lemma {:induction false} PoolRunConserves(ps: PoolState, events: seq<PoolEvent>, end: PoolState)
    requires PoolInv(ps) && PoolRun(ps, events, end)
    ensures PoolInv(end)
    ensures |PoolFree(end)| + Allocated(end) == Total(end) == Total(ps)
    ensures Distinct(PoolFree(end))
    ensures forall a :: a in PoolFree(end) ==> IsPoolPage(end, a) && a % PAGE_SIZE == 0
    decreases |events|
  {
    if events == [] {
      Conservation(ps);
      PoolFreePages(ps);
    } else {
      var next := PoolStep(ps, events[0]);
      match events[0] {
        case Take(n) =>
          PoolAllocTakesPrefix(ps, n);
        case Give(addrs) =>
          PoolReleaseGivesBack(ps, addrs);
          SameTotal(ps, next);
      }
      PoolRunConserves(next, events[1..], end);
    }
  }
}

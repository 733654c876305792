// The pool object: it walks its regions for every request (Memory/Pool.cpp).
module PhysicalPool {
  import opened Regions
  import opened Pools
  import opened PhysicalRegion

  ghost function Footprint(rs: seq<Region>): set<object> {
    (set r | r in rs :: r as object) + (set r | r in rs :: r.bitmap as object)
  }

  ghost function States(rs: seq<Region>): (ps: PoolState)
    requires forall i :: 0 <= i < |rs| ==> rs[i].Valid()
    reads Footprint(rs)
    ensures |ps| == |rs|
    ensures forall i :: 0 <= i < |rs| ==> ps[i] == rs[i].State()
    ensures forall i :: 0 <= i < |rs| ==> ValidState(ps[i])
  {
    seq(|rs|, i requires 0 <= i < |rs| reads Footprint(rs) => assert rs[i] in rs; rs[i].State())
  }

  class Pool {
    var regions: seq<Region>

    ghost function Repr(): set<object>
      reads this
    {
      Footprint(regions)
    }

    ghost predicate Valid()
      reads this
    {
      && |regions| <= MAX_REGIONS
      && (forall i :: 0 <= i < |regions| ==> regions[i].Valid())
      && (forall i, j :: 0 <= i < j < |regions| ==> regions[i] != regions[j] && regions[i].bitmap != regions[j].bitmap)
    }

    ghost function State(): (ps: PoolState)
      requires Valid()
      reads this, Repr()
    {
      States(regions)
    }

    method Alloc(num: nat, out: array<nat>) returns (served: nat)
      requires Valid() && 1 <= num <= out.Length
      requires (out as object) !in Repr()
      modifies Repr(), out
      ensures Valid() && regions == old(regions)
      ensures State() == PoolAlloc(old(State()), num)
      ensures served == PoolServed(old(State()), num)
      ensures out[..] == Stored(old(State()), num, old(out[..]))
    {
      ghost var now, buf := State(), out[..];
      ghost var goal := AllocOutcome(PoolAlloc(now, num), PoolServed(now, num), Stored(now, num, buf));
      served := 0;
      var i := 0;
      AllocStart(num, now, buf);
      while i < |regions|
        invariant regions == old(regions) && Valid()
        invariant i <= |regions| && served < num <= out.Length
        invariant now == State() && buf == out[..]
        invariant AskRest(num, i, now, served, buf) == goal
      {
        var got := AllocFrom(i, num - served, out, now, buf);
        ghost var next, buf' := State(), out[..];
        AllocNext(num, i, now, served, buf, got, next, buf');
        served, now, buf := served + got, next, buf';
        i := i + 1;
        if served == num {
          break;
        }
      }
      AllocDone(num, i, now, served, buf);
    }

    // Ask one region; the others are untouched.
    method AllocFrom(i: nat, n: nat, out: array<nat>, ghost now: PoolState, ghost buf: seq<nat>) returns (got: nat)
      requires Valid() && i < |regions| && 1 <= n <= out.Length
      requires (out as object) !in Repr()
      requires now == State() && buf == out[..]
      modifies Repr(), out
      ensures Valid() && regions == old(regions)
      ensures State()[i] == Regions.Alloc(now[i], n) && State() == now[i := State()[i]]
      ensures got == Served(now[i], n)
      ensures out[..] == FreeAddrs(now[i])[..got] + buf[got..]
    {
      hide Regions.Alloc, FreeAddrs, ValidState;
      var region := regions[i];
      assert region in regions && region.State() == now[i];
      got := region.Alloc(n, out);
      assert out[..] == out[..got] + out[got..];
      assert buf[got..] == old(out[got..]);
      forall j | 0 <= j < |regions| && j != i
        ensures State()[j] == now[j]
      {
        assert regions[j].State() == old(regions[j].State());
      }
    }

    method FreeIn(i: nat, num: nat, inAddrs: array<nat>, ghost now: PoolState, ghost addrs: seq<nat>) returns (got: nat)
      requires Valid() && i < |regions| && num <= inAddrs.Length
      requires (inAddrs as object) !in Repr()
      requires now == State() && addrs == inAddrs[..num]
      requires forall a :: a in addrs ==> Freeable(now[i], a)
      modifies Repr()
      ensures Valid() && regions == old(regions)
      ensures inAddrs[..num] == addrs
      ensures State()[i] == Regions.Free(now[i], addrs) && State() == now[i := State()[i]]
      ensures got == CountIn(now[i].g, addrs)
    {
      var region := regions[i];
      assert region in regions && region.State() == now[i];
      got := region.Free(num, inAddrs);
      forall j | 0 <= j < |regions| && j != i
        ensures State()[j] == now[j]
      {
        assert regions[j].State() == old(regions[j].State());
      }
    }

    method Free(num: nat, inAddrs: array<nat>) returns (freed: nat)
      requires Valid() && num <= inAddrs.Length
      requires (inAddrs as object) !in Repr()
      requires ValidPool(State()) && Freeables(State(), inAddrs[..num])
      modifies Repr()
      ensures Valid() && regions == old(regions)
      ensures Freeables(old(State()), old(inAddrs[..num]))
      ensures State() == PoolRelease(old(State()), old(inAddrs[..num]))
      ensures freed == PoolCount(old(State()), old(inAddrs[..num]))
    {
      hide ValidPool, Freeables, FreeSoFar, PoolRelease, PoolCount, Regions.Free, CountIn, Freeable, AtMostOne;
      ghost var s0, addrs := State(), inAddrs[..num];
      FreeStart(s0, addrs);
      freed := 0;
      var i := 0;
      ghost var now := s0;
      while i < |regions|
        invariant regions == old(regions) && Valid()
        invariant i <= |regions| && inAddrs[..num] == addrs && now == State()
        invariant FreeSoFar(s0, addrs, i, now, freed)
      {
        FreeReady(s0, addrs, i, now, freed);
        var got := FreeIn(i, num, inAddrs, now, addrs);
        ghost var next := State();
        FreeNext(s0, addrs, i, now, freed, next);
        freed, now := freed + got, next;
        i := i + 1;
        if freed == num {
          break;
        }
      }
      FreeDone(s0, addrs, i, now, freed);
    }

    // getTotalPages
    method TotalPages() returns (sum: nat)
      requires Valid()
      ensures sum == Total(State())
    {
      sum := 0;
      ghost var s0 := State();
      for i := 0 to |regions|
        invariant sum + Total(s0[i..]) == Total(s0)
      {
        assert s0[i..][0] == s0[i] && s0[i..][1..] == s0[i + 1..];
        sum := sum + regions[i].g.bitmapSize;
      }
    }

    // getAllocatedPages
    method AllocatedPages() returns (sum: int)
      requires Valid()
      ensures sum == Allocated(State())
    {
      sum := 0;
      ghost var s0 := State();
      for i := 0 to |regions|
        invariant sum + Allocated(s0[i..]) == Allocated(s0)
      {
        assert s0[i..][0] == s0[i] && s0[i..][1..] == s0[i + 1..];
        sum := sum + regions[i].numAllocated;
      }
    }
  }

  datatype AllocOutcome = AllocOutcome(ps: PoolState, served: nat, buf: seq<nat>)

  // What a request ends in when the regions before i have been asked and the others are asked for the rest.
  ghost function AskRest(num: nat, i: nat, now: PoolState, served: nat, buf: seq<nat>): AllocOutcome
    requires i <= |now| && served <= num <= |buf|
  {
    var rest := now[i..];
    AllocOutcome(now[..i] + PoolAlloc(rest, num - served), served + PoolServed(rest, num - served),
                 Stored(rest, num - served, buf))
  }

  lemma AllocStart(num: nat, now: PoolState, buf: seq<nat>)
    requires num <= |buf|
    ensures AskRest(num, 0, now, 0, buf) == AllocOutcome(PoolAlloc(now, num), PoolServed(now, num),
              Stored(now, num, buf))
  {
  }

  lemma AllocNext(num: nat, i: nat, now: PoolState, served: nat, buf: seq<nat>, got: nat, next: PoolState,
                  buf': seq<nat>)
    requires i < |now| && served <= num <= |buf|
    requires got == Served(now[i], num - served)
    requires |next| == |now| && next[i] == Regions.Alloc(now[i], num - served) && next == now[i := next[i]]
    requires buf' == FreeAddrs(now[i])[..got] + buf[got..]
    ensures AskRest(num, i + 1, next, served + got, buf') == AskRest(num, i, now, served, buf)
  {
  }

  lemma AllocDone(num: nat, i: nat, now: PoolState, served: nat, buf: seq<nat>)
    requires i <= |now| && served <= num <= |buf|
    requires i == |now| || served == num
    ensures AskRest(num, i, now, served, buf) == AllocOutcome(now, served, buf)
  {
    StoredNothing(now[i..], num - served, buf);
    if i < |now| {
      PoolAllocZero(now[i..]);
    }
    assert now == now[..i] + now[i..];
  }

  // Regions before i have been offered every address.
  ghost predicate FreeSoFar(s0: PoolState, addrs: seq<nat>, i: nat, now: PoolState, freed: nat) {
    && Freeables(s0, addrs) && i <= |s0| == |now|
    && (forall j :: 0 <= j < i ==> now[j] == PoolRelease(s0, addrs)[j])
    && (forall j :: i <= j < |s0| ==> now[j] == s0[j])
    && freed == PoolCount(s0[..i], addrs)
  }

  lemma FreeStart(s0: PoolState, addrs: seq<nat>)
    requires ValidPool(s0) && Freeables(s0, addrs)
    ensures FreeSoFar(s0, addrs, 0, s0, 0)
    ensures forall a :: a in addrs ==> AtMostOne(s0, a)
  {
    PoolCountEmpty([]);
    forall a | a in addrs
      ensures AtMostOne(s0, a)
    {
      ContainedOnce(s0, a);
    }
  }

  lemma FreeReady(s0: PoolState, addrs: seq<nat>, i: nat, now: PoolState, freed: nat)
    requires FreeSoFar(s0, addrs, i, now, freed) && i < |now|
    ensures forall a :: a in addrs ==> Freeable(now[i], a)
  {
  }

  lemma FreeNext(s0: PoolState, addrs: seq<nat>, i: nat, now: PoolState, freed: nat, next: PoolState)
    requires FreeSoFar(s0, addrs, i, now, freed) && i < |now|
    requires forall a :: a in addrs ==> Freeable(now[i], a)
    requires |next| == |now| && next[i] == Regions.Free(now[i], addrs) && next == now[i := next[i]]
    ensures FreeSoFar(s0, addrs, i + 1, next, freed + CountIn(now[i].g, addrs))
  {
    assert forall a :: a in addrs ==> Freeable(s0[i], a);
    CountSnoc(s0, i, addrs);
  }

  lemma FreeDone(s0: PoolState, addrs: seq<nat>, i: nat, now: PoolState, freed: nat)
    requires FreeSoFar(s0, addrs, i, now, freed)
    requires forall a :: a in addrs ==> AtMostOne(s0, a)
    requires i == |now| || freed == |addrs|
    ensures now == PoolRelease(s0, addrs) && freed == PoolCount(s0, addrs)
  {
    SkipRest(s0, addrs, i);
  }

  // Stopping after k regions is right when they have accepted every address, or none are left.
  lemma {:induction false} SkipRest(ps: PoolState, addrs: seq<nat>, k: nat)
    requires Freeables(ps, addrs) && k <= |ps|
    requires forall a :: a in addrs ==> AtMostOne(ps, a)
    requires k == |ps| || PoolCount(ps[..k], addrs) == |addrs|
    ensures forall i :: k <= i < |ps| ==> PoolRelease(ps, addrs)[i] == ps[i]
    ensures PoolCount(ps[..k], addrs) == PoolCount(ps, addrs)
    decreases |ps| - k
  {
    if k == |ps| {
      assert ps[..k] == ps;
    } else {
      forall i | k <= i < |ps|
        ensures PoolRelease(ps, addrs)[i] == ps[i] && CountIn(ps[i].g, addrs) == 0
      {
        LaterIgnore(ps, addrs, k, i);
        assert forall a :: a in addrs ==> Freeable(ps[i], a);
        FreeIgnored(ps[i], addrs);
      }
      CountSnoc(ps, k, addrs);
      SkipRest(ps, addrs, k + 1);
    }
  }
}

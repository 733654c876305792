// The abstract view of an allocation bitmap: the ascending list of the positions whose bit is set.
// Taking pages is taking a prefix of that list.
module FreeBits {

  function Min(a: nat, b: nat): nat {
    if a <= b then a else b
  }

  // The set positions at or above lo, in ascending order.
  function FreeFrom(bits: seq<bool>, lo: nat): (r: seq<nat>)
    decreases |bits| - lo
  {
    if lo >= |bits| then []
    else if bits[lo] then [lo] + FreeFrom(bits, lo + 1)
    else FreeFrom(bits, lo + 1)
  }

  function FreeList(bits: seq<bool>): seq<nat> {
    FreeFrom(bits, 0)
  }

  ghost predicate Ascending(s: seq<nat>) {
    forall i, j :: 0 <= i < j < |s| ==> s[i] < s[j]
  }

  // A strictly ascending list is determined by its members.
  lemma {:induction false} AscendingUnique(a: seq<nat>, b: seq<nat>)
    requires Ascending(a) && Ascending(b)
    requires forall x :: x in a <==> x in b
    ensures a == b
  {
    assert |b| > 0 ==> b[0] in b;
    if a == [] {
      assert b == [];
    } else {
      assert a[0] in b;
      assert b[0] in a;
      assert a[0] == b[0];
      assert a == [a[0]] + a[1..] && b == [b[0]] + b[1..];
      forall x
        ensures x in a[1..] <==> x in b[1..]
      {
        if x in a[1..] {
          assert x in b;
        }
        if x in b[1..] {
          assert x in a;
        }
      }
      AscendingUnique(a[1..], b[1..]);
    }
  }

  lemma {:induction false} FreeFromSpec(bits: seq<bool>, lo: nat)
    ensures Ascending(FreeFrom(bits, lo))
    ensures forall x :: x in FreeFrom(bits, lo) <==> lo <= x < |bits| && bits[x]
    decreases |bits| - lo
  {
    if lo < |bits| {
      FreeFromSpec(bits, lo + 1);
      var rest := FreeFrom(bits, lo + 1);
      forall i, j | 0 <= i < j < |FreeFrom(bits, lo)|
        ensures FreeFrom(bits, lo)[i] < FreeFrom(bits, lo)[j]
      {
        if bits[lo] && i == 0 {
          assert rest[j - 1] in rest;
        }
      }
    }
  }

  // FreeList lists exactly the free positions, lowest first.
  lemma FreeListSpec(bits: seq<bool>)
    ensures Ascending(FreeList(bits))
    ensures forall x :: x in FreeList(bits) <==> 0 <= x < |bits| && bits[x]
  {
    FreeFromSpec(bits, 0);
  }

  // The bitmap after the n lowest free positions have been taken.
  function TakeBits(bits: seq<bool>, n: nat): (r: seq<bool>)
    ensures |r| == |bits|
  {
    var taken := FreeList(bits)[..Min(n, |FreeList(bits)|)];
    seq(|bits|, j requires 0 <= j < |bits| => bits[j] && j !in taken)
  }

  lemma TakeBitsFreeList(bits: seq<bool>, n: nat)
    ensures FreeList(TakeBits(bits, n)) == FreeList(bits)[Min(n, |FreeList(bits)|)..]
  {
    var free := FreeList(bits);
    var m := Min(n, |free|);
    FreeListSpec(bits);
    FreeListSpec(TakeBits(bits, n));
    forall x
      ensures x in FreeList(TakeBits(bits, n)) <==> x in free[m..]
    {
      if x in free[m..] {
        assert x in free;
      }
      if x in free {
        assert x in free[..m] || x in free[m..] by { assert free == free[..m] + free[m..]; }
      }
    }
    AscendingUnique(FreeList(TakeBits(bits, n)), free[m..]);
  }

  // Taking one position is clearing the lowest free bit.
  lemma TakeOne(bits: seq<bool>, n: nat)
    requires n < |FreeList(bits)|
    ensures var i := FreeList(bits)[n];
            i < |bits| && TakeBits(bits, n)[i] && TakeBits(bits, n + 1) == TakeBits(bits, n)[i := false]
  {
    FreeListSpec(bits);
    var free := FreeList(bits);
    var i := free[n];
    assert i in free;
    assert free[..n + 1] == free[..n] + [i];
    assert i !in free[..n];
    var a, b := TakeBits(bits, n + 1), TakeBits(bits, n)[i := false];
    forall j | 0 <= j < |bits|
      ensures a[j] == b[j]
    {
    }
    assert a == b;
  }

  lemma TakeNone(bits: seq<bool>)
    ensures TakeBits(bits, 0) == bits
  {
  }

  // The first free position is the first set bit.
  lemma FirstFree(bits: seq<bool>, i: nat)
    requires i < |bits| && bits[i]
    requires forall j :: 0 <= j < i ==> !bits[j]
    ensures FreeList(bits) != [] && FreeList(bits)[0] == i
  {
    FreeListSpec(bits);
    assert i in FreeList(bits);
    assert FreeList(bits)[0] in FreeList(bits);
  }

  lemma NoneFree(bits: seq<bool>)
    requires forall j :: 0 <= j < |bits| ==> !bits[j]
    ensures FreeList(bits) == []
  {
    var free := FreeList(bits);
    assert |free| > 0 ==> free[0] in free;
    FreeListSpec(bits);
  }

  ghost function Elements(s: seq<nat>): set<nat> {
    set x | x in s
  }

  ghost function FreeSet(bits: seq<bool>): set<nat> {
    Elements(FreeList(bits))
  }

  lemma {:induction false} DistinctCount(s: seq<nat>)
    requires forall i, j :: 0 <= i < j < |s| ==> s[i] != s[j]
    ensures |Elements(s)| == |s|
  {
    if s == [] {
    } else {
      DistinctCount(s[1..]);
      assert Elements(s) == {s[0]} + Elements(s[1..]);
      assert s[0] !in s[1..];
    }
  }

  lemma FreeSetSize(bits: seq<bool>)
    ensures |FreeSet(bits)| == |FreeList(bits)|
  {
    FreeListSpec(bits);
    var s := FreeList(bits);
    assert forall i, j :: 0 <= i < j < |s| ==> s[i] != s[j];
    DistinctCount(s);
  }

  // Setting a clear bit adds one position to the free list.
  lemma GiveBack(bits: seq<bool>, i: nat)
    requires i < |bits|
    ensures FreeSet(bits[i := true]) == FreeSet(bits) + {i}
    ensures |FreeList(bits[i := true])| == |FreeList(bits)| + if bits[i] then 0 else 1
  {
    FreeListSpec(bits);
    FreeListSpec(bits[i := true]);
    FreeSetSize(bits);
    FreeSetSize(bits[i := true]);
    assert FreeSet(bits[i := true]) == FreeSet(bits) + {i};
  }
}

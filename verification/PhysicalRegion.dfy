// The region object: a bitmap of 64-bit words scanned a word at a time with find-first-set.
module PhysicalRegion {
  import opened PhysicalMap
  import opened Words
  import opened FreeBits
  import opened Regions

  class Region {
    const g: Geometry
    const bitmap: array<Word>
    var numAllocated: int

    ghost predicate Valid() {
      WellFormed(g) && ScanBits(g) <= 64 * bitmap.Length
    }

    // Words the allocator scans.
    ghost function Words(): seq<Word>
      requires Valid()
      reads bitmap
    {
      bitmap[..ScanBits(g) / 64]
    }

    ghost function State(): (s: RegionState)
      requires Valid()
      reads this, bitmap
      ensures ValidState(s)
    {
      RegionState(g, Bits(Words()), numAllocated)
    }

    // `storage` is the mapped bitmap area, with whatever it happened to contain.
    constructor (base: nat, length: nat, storage: array<Word>)
      requires PAGE_SIZE <= length
      requires 8 * storage.Length == Layout(base, length).bitmapReserved
      modifies storage
      ensures Valid() && g == Layout(base, length) && bitmap == storage
      ensures State() == Built(base, length, old(Bits(storage[..ScanBits(Layout(base, length)) / 64])))
    {
      g := Layout(base, length);
      bitmap := storage;
      numAllocated := 0;
      new;
      ScanBitsFit(g);
      ghost var scan := ScanBits(g) / 64;
      ghost var found := bitmap[..];
      FillOnes(bitmap, BitmapBytes(g.numPages));
      var a, b := State().bits, Built(base, length, Bits(found[..scan])).bits;
      assert old(storage[..scan]) == found[..scan];
      forall j | 0 <= j < |a|
        ensures a[j] == b[j]
      {
        assert a[j] == Bits(bitmap[..])[j];
        assert Bits(found)[j] == Bits(found[..scan])[j];
      }
      assert a == b;
    }

    method Alloc(n: nat, out: array<nat>) returns (satisfied: nat)
      requires Valid() && 1 <= n <= out.Length
      requires (out as object) != bitmap
      modifies this`numAllocated, bitmap, out
      ensures Valid() && State() == Regions.Alloc(old(State()), n)
      ensures satisfied == Served(old(State()), n)
      ensures out[..satisfied] == FreeAddrs(old(State()))[..satisfied]
      ensures out[satisfied..] == old(out[satisfied..])
    {
      ghost var s0, was := State(), out[..];
      TakeNone(s0.bits);
      satisfied := 0;
      var read := 0;
      var off := 0;
      while off < g.bitmapSize
        invariant off == 64 * read && off <= ScanBits(g)
        invariant satisfied < n && out.Length == |was|
        invariant Progress(s0, State(), satisfied, was, out[..])
        invariant forall j :: 0 <= j < off ==> !State().bits[j]
      {
        var val := bitmap[read];
        if val == 0 {
          ChunkClear(Words(), read);
          read := read + 1;
          off := off + 64;
          continue;
        }
        satisfied := AllocFromChunk(off, n, satisfied, out, s0, was);
        if satisfied == n {
          Satisfied(s0, State(), satisfied, was, out[..], n);
          return;
        }
        ChunkClear(Words(), read);
        read := read + 1;
        off := off + 64;
      }
      NoneFree(State().bits);
      TakeBitsFreeList(s0.bits, satisfied);
      Satisfied(s0, State(), satisfied, was, out[..], n);
    }

    // Take pages from one word of the bitmap until it is exhausted or the request is met.
    method AllocFromChunk(off: nat, n: nat, start: nat, out: array<nat>, ghost s0: RegionState, ghost was: seq<nat>)
      returns (satisfied: nat)
      requires Valid() && off < ScanBits(g) && off % 64 == 0
      requires (out as object) != bitmap && out.Length == |was|
      requires start < n <= out.Length
      requires bitmap[off / 64] != 0
      requires Progress(s0, State(), start, was, out[..])
      requires forall j :: 0 <= j < off ==> !State().bits[j]
      modifies this`numAllocated, bitmap, out
      ensures Valid()
      ensures start < satisfied <= n
      ensures satisfied < n ==> bitmap[off / 64] == 0
      ensures Progress(s0, State(), satisfied, was, out[..])
      ensures forall j :: 0 <= j < off ==> !State().bits[j]
    {
      satisfied := start;
      var base := g.allocBase + off * PAGE_SIZE;
      while true
        invariant start <= satisfied < n
        invariant bitmap[off / 64] != 0
        invariant Progress(s0, State(), satisfied, was, out[..])
        invariant forall j :: 0 <= j < off ==> !State().bits[j]
        decreases n - satisfied
      {
        var val := AllocLowest(off / 64, base, satisfied, out, s0, was);
        satisfied := satisfied + 1;
        if !(val != 0 && satisfied < n) {
          return;
        }
      }
    }

    // Clear the lowest set bit of a word and store the address of its page; returns what is left of the word.
    method AllocLowest(read: nat, base: nat, k: nat, out: array<nat>, ghost s0: RegionState, ghost was: seq<nat>)
      returns (val: Word)
      requires Valid() && read < ScanBits(g) / 64
      requires (out as object) != bitmap && k < out.Length == |was|
      requires base == g.allocBase + 64 * read * PAGE_SIZE
      requires bitmap[read] != 0
      requires Progress(s0, State(), k, was, out[..])
      requires forall j :: 0 <= j < 64 * read ==> !State().bits[j]
      modifies this`numAllocated, bitmap, out
      ensures Valid() && val == bitmap[read]
      ensures Progress(s0, State(), k + 1, was, out[..])
      ensures forall j :: 0 <= j < 64 * read ==> !State().bits[j]
    {
      var i := Ffs(bitmap[read]);
      ghost var words, buf := Words(), out[..];
      TakePage(s0, State(), k, was, buf, words, read);
      val := ClearBit(bitmap[read], i - 1);
      bitmap[read] := val;
      out[k] := base + (i - 1) * PAGE_SIZE;
      numAllocated := numAllocated + 1;
      assert Words() == words[read := val];
      assert out[..] == buf[k := out[k]];
    }

    method Free(num: nat, inAddrs: array<nat>) returns (freed: nat)
      requires Valid() && num <= inAddrs.Length
      requires (inAddrs as object) != bitmap
      requires forall i :: 0 <= i < num ==> Freeable(State(), inAddrs[i])
      modifies this`numAllocated, bitmap
      ensures Valid()
      ensures forall a :: a in inAddrs[..num] ==> Freeable(old(State()), a)
      ensures State() == Regions.Free(old(State()), inAddrs[..num])
      ensures freed == CountIn(g, inAddrs[..num])
    {
      freed := 0;
      ghost var s0 := State();
      for i := 0 to num
        invariant freed == CountIn(g, inAddrs[..i])
        invariant forall a :: a in inAddrs[..num] ==> Freeable(s0, a)
        invariant State() == Regions.Free(s0, inAddrs[..i])
      {
        var addr := inAddrs[i];
        assert inAddrs[..i + 1][..i] == inAddrs[..i];
        assert Freeable(s0, addr);
        if g.physBase <= addr < g.physBase + g.span {
          var offset := addr - g.allocBase;
          MarkFree(offset / PAGE_SIZE);
          freed := freed + 1;
          numAllocated := numAllocated - 1;
        }
      }
    }

    method MarkFree(page: nat)
      requires Valid() && page < |State().bits|
      modifies bitmap
      ensures State() == old(State()).(bits := old(State()).bits[page := true])
    {
      ghost var words := Words();
      BitsOfSet(words, page / 64, page % 64);
      bitmap[page / 64] := SetBit(bitmap[page / 64], page % 64);
      assert Words() == words[page / 64 := SetBit(words[page / 64], page % 64)];
    }
  }

  // Building a region over a segment; null when the constructor halts the kernel, because there is no bitmap to
  // map or it cannot be reached.
  method Build(base: nat, length: nat, storage: array<Word>, early: bool) returns (r: Region?)
    requires PAGE_SIZE <= length ==> 8 * storage.Length == Layout(base, length).bitmapReserved
    modifies storage
    ensures r == null <==> length < PAGE_SIZE || !Mappable(base, early)
    ensures r == null ==> storage[..] == old(storage[..])
    ensures r != null ==>
              && r.Valid() && r.g == Layout(base, length) && r.bitmap == storage
              && r.State() == Built(base, length, old(Bits(storage[..ScanBits(Layout(base, length)) / 64])))
  {
    if length < PAGE_SIZE || !Mappable(base, early) {
      return null;
    }
    r := new Region(base, length, storage);
  }

  // memset(words, 0xFF, bytes), a byte at a time.
  method FillOnes(words: array<Word>, bytes: nat)
    requires bytes <= 8 * words.Length
    modifies words
    ensures forall j :: 0 <= j < 64 * words.Length ==> Bits(words[..])[j] == (j < 8 * bytes || old(Bits(words[..]))[j])
  {
    ghost var was := words[..];
    for b := 0 to bytes
      invariant forall j :: 0 <= j < 64 * words.Length ==> Bits(words[..])[j] == (j < 8 * b || Bits(was)[j])
    {
      ghost var now := words[..];
      SetBitsSpec(words[b / 8], 8 * (b % 8), 8);
      words[b / 8] := SetBits(words[b / 8], 8 * (b % 8), 8);
      forall j | 0 <= j < 64 * words.Length
        ensures Bits(words[..])[j] == (j < 8 * (b + 1) || Bits(was)[j])
      {
        assert Bits(now)[j] == (j < 8 * b || Bits(was)[j]);
      }
    }
  }

  // A zero word contributes no free page.
  lemma ChunkClear(words: seq<Word>, w: nat)
    requires w < |words| && words[w] == 0
    ensures forall j :: 64 * w <= j < 64 * (w + 1) ==> !Bits(words)[j]
  {
    forall j | 64 * w <= j < 64 * (w + 1)
      ensures !Bits(words)[j]
    {
      BitsOfZero(j % 64);
    }
  }

  // The lowest set bit of the first word that is not zero is the next entry of the free list.
  lemma LowestFree(bits: seq<bool>, k: nat, words: seq<Word>, w: nat)
    requires Bits(words) == TakeBits(bits, k) && k <= |FreeList(bits)|
    requires w < |words| && words[w] != 0
    requires forall j :: 0 <= j < 64 * w ==> !Bits(words)[j]
    ensures var i := Ffs(words[w]);
            && 1 <= i <= 64
            && k < |FreeList(bits)| && FreeList(bits)[k] == 64 * w + (i - 1)
            && Bits(words[w := ClearBit(words[w], i - 1)]) == TakeBits(bits, k + 1)
  {
    FfsWord(words[w]);
    var i := Ffs(words[w]) - 1;
    assert Bits(words)[64 * w + i];
    forall j | 0 <= j < 64 * w + i
      ensures !Bits(words)[j]
    {
      if j >= 64 * w {
        assert !Bit(words[w], j - 64 * w);
      }
    }
    FirstFree(Bits(words), 64 * w + i);
    TakeBitsFreeList(bits, k);
    TakeOne(bits, k);
    BitsOfClear(words, w, i);
  }

  // k pages have been taken from s0, giving s, and their addresses stored in the buffer.
  ghost predicate Progress(s0: RegionState, s: RegionState, k: nat, was: seq<nat>, buf: seq<nat>) {
    && k <= |FreeList(s0.bits)|
    && s == s0.(bits := TakeBits(s0.bits, k), numAllocated := s0.numAllocated + k)
    && k <= |was| == |buf|
    && buf[..k] == FreeAddrs(s0)[..k]
    && buf[k..] == was[k..]
  }

  lemma TakePage(s0: RegionState, s: RegionState, k: nat, was: seq<nat>, buf: seq<nat>, words: seq<Word>, w: nat)
    requires Progress(s0, s, k, was, buf) && s.bits == Bits(words) && k < |buf|
    requires w < |words| && words[w] != 0
    requires forall j :: 0 <= j < 64 * w ==> !s.bits[j]
    ensures var i := Ffs(words[w]);
            var words' := words[w := ClearBit(words[w], i - 1)];
            var a: int := s0.g.allocBase + 64 * w * PAGE_SIZE + (i - 1) * PAGE_SIZE;
            && 1 <= i <= 64 && a >= 0
            && Progress(s0, s.(bits := Bits(words'), numAllocated := s.numAllocated + 1), k + 1, was, buf[k := a])
            && (forall j :: 0 <= j < 64 * w ==> !Bits(words')[j])
  {
    LowestFree(s0.bits, k, words, w);
    var i := Ffs(words[w]);
    var a := s0.g.allocBase + 64 * w * PAGE_SIZE + (i - 1) * PAGE_SIZE;
    assert a == Addr(s0.g, FreeList(s0.bits)[k]);
    assert buf[k := a][..k + 1] == buf[..k] + [a];
    BitsOfClear(words, w, i - 1);
  }

  // The request is met, or nothing is left.
  lemma Satisfied(s0: RegionState, s: RegionState, k: nat, was: seq<nat>, buf: seq<nat>, n: nat)
    requires Progress(s0, s, k, was, buf) && k <= n
    requires k == n || FreeList(s0.bits)[k..] == []
    ensures s == Regions.Alloc(s0, n) && k == Served(s0, n)
  {
  }
}

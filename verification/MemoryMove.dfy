// memmove and memcpy (Runtime/String.cpp): copying by aligned words against a plain byte move.
module MemoryMove {
  import opened Division
  import opened ByteOrder

  const WORD_SIZE: nat := 8

  // Memory after n bytes at src have been moved to dst: every byte is the one that was there before.
  function Moved(m: seq<Byte>, dst: nat, src: nat, n: nat): (r: seq<Byte>)
    requires dst + n <= |m| && src + n <= |m|
    ensures |r| == |m|
  {
    m[..dst] + m[src..src + n] + m[dst + n..]
  }

  function MovedByte(m: seq<Byte>, dst: nat, src: nat, n: nat, k: nat): Byte
    requires dst + n <= |m| && src + n <= |m| && k < |m|
  {
    if dst <= k < dst + n then m[src + (k - dst)] else m[k]
  }

  // Byte by byte: the destination holds what was at the source, everything else is as before.
  lemma MovedBytes(m: seq<Byte>, dst: nat, src: nat, n: nat)
    requires dst + n <= |m| && src + n <= |m|
    ensures forall k :: 0 <= k < |m| ==> Moved(m, dst, src, n)[k] == MovedByte(m, dst, src, n, k)
  {
  }

  // Moving nothing, and moving one byte.
  lemma MovedSmall(m: seq<Byte>, dst: nat, src: nat)
    requires dst <= |m| && src <= |m|
    ensures Moved(m, dst, src, 0) == m
    ensures dst < |m| && src < |m| ==> Moved(m, dst, src, 1) == m[dst := m[src]]
  {
  }

  // ----- moving in two pieces -----

  // The lower piece first is right when the destination does not run into the source from below.
  lemma {:induction false} LowerFirst(m: seq<Byte>, dst: nat, src: nat, k: nat, n: nat)
    requires k <= n && dst + n <= |m| && src + n <= |m|
    requires dst <= src || src + n <= dst
    ensures Moved(Moved(m, dst, src, k), dst + k, src + k, n - k) == Moved(m, dst, src, n)
  {
    hide Moved;
    var low := Moved(m, dst, src, k);
    var two, one := Moved(low, dst + k, src + k, n - k), Moved(m, dst, src, n);
    MovedBytes(m, dst, src, k);
    MovedBytes(low, dst + k, src + k, n - k);
    MovedBytes(m, dst, src, n);
    forall i | 0 <= i < |m|
      ensures two[i] == one[i]
    {
      if dst + k <= i < dst + n {
        assert low[src + (i - dst)] == m[src + (i - dst)];
      }
    }
  }

  // The upper piece first is right when the destination does not run into the source from above.
  lemma UpperFirst(m: seq<Byte>, dst: nat, src: nat, k: nat, n: nat)
    requires k <= n && dst + n <= |m| && src + n <= |m|
    requires src <= dst || dst + n <= src
    ensures Moved(Moved(m, dst + k, src + k, n - k), dst, src, k) == Moved(m, dst, src, n)
  {
    hide Moved;
    var high := Moved(m, dst + k, src + k, n - k);
    var two, one := Moved(high, dst, src, k), Moved(m, dst, src, n);
    MovedBytes(m, dst + k, src + k, n - k);
    MovedBytes(high, dst, src, k);
    MovedBytes(m, dst, src, n);
    forall i | 0 <= i < |m|
      ensures two[i] == one[i]
    {
      if dst <= i < dst + n {
        assert i < dst + k ==> high[src + (i - dst)] == m[src + (i - dst)];
      }
    }
  }

  // A plain byte loop, lowest byte first.
  function BytesUp(m: seq<Byte>, dst: nat, src: nat, n: nat): (r: seq<Byte>)
    requires dst + n <= |m| && src + n <= |m|
    ensures |r| == |m|
    decreases n
  {
    if n == 0 then m else BytesUp(m[dst := m[src]], dst + 1, src + 1, n - 1)
  }

  lemma {:induction false} BytesUpIsMove(m: seq<Byte>, dst: nat, src: nat, n: nat)
    requires dst + n <= |m| && src + n <= |m|
    requires dst <= src || src + n <= dst
    ensures BytesUp(m, dst, src, n) == Moved(m, dst, src, n)
    decreases n
  {
    hide Moved;
    MovedSmall(m, dst, src);
    if n == 0 {
    } else {
      BytesUpIsMove(m[dst := m[src]], dst + 1, src + 1, n - 1);
      LowerFirst(m, dst, src, 1, n);
    }
  }

  // Running into the source, the loop repeats the source's first bytes.
  lemma {:induction false} BytesUpRepeats(m: seq<Byte>, dst: nat, src: nat, n: nat)
    requires dst + n <= |m| && src + n <= |m| && src < dst
    ensures forall k :: 0 <= k < |m| && !(dst <= k < dst + n) ==> BytesUp(m, dst, src, n)[k] == m[k]
    ensures n > 0 ==> BytesUp(m, dst, src, n)[dst] == m[src]
    decreases n
  {
    if n == 0 {
    } else {
      BytesUpRepeats(m[dst := m[src]], dst + 1, src + 1, n - 1);
    }
  }

  lemma {:induction false} BytesUpCopies(m: seq<Byte>, dst: nat, src: nat, n: nat, k: nat)
    requires dst + n <= |m| && src + n <= |m| && src < dst && k < n
    ensures BytesUp(m, dst, src, n)[dst + k] == BytesUp(m, dst, src, n)[src + k]
    decreases n
  {
    var m1 := m[dst := m[src]];
    if k > 0 {
      BytesUpCopies(m1, dst + 1, src + 1, n - 1, k - 1);
    } else {
      BytesUpRepeats(m1, dst + 1, src + 1, n - 1);
    }
  }

  // A forward loop is a move for every memory contents exactly when the destination does not start
  // inside the source.
  lemma ForwardExact(len: nat, dst: nat, src: nat, n: nat)
    requires dst + n <= len && src + n <= len
    ensures (forall m: seq<Byte> :: |m| == len ==> BytesUp(m, dst, src, n) == Moved(m, dst, src, n)) <==>
              !(src < dst < src + n)
  {
    if src < dst < src + n {
      ForwardFails(len, dst, src, n);
    } else {
      hide Moved, BytesUp;
      forall m: seq<Byte> | |m| == len
        ensures BytesUp(m, dst, src, n) == Moved(m, dst, src, n)
      {
        BytesUpIsMove(m, dst, src, n);
      }
    }
  }

  // Contents that a forward loop does not move correctly: one byte set, the first of the destination.
  lemma ForwardFails(len: nat, dst: nat, src: nat, n: nat)
    requires dst + n <= len && src < dst < src + n
    ensures exists m: seq<Byte> :: |m| == len && BytesUp(m, dst, src, n) != Moved(m, dst, src, n)
  {
    hide Moved, BytesUp;
    var zeros: seq<Byte> := seq(len, _ => 0);
    var m: seq<Byte> := zeros[dst := 1];
    var k := dst - src;
    var up := BytesUp(m, dst, src, n);
    BytesUpCopies(m, dst, src, n, k);
    BytesUpRepeats(m, dst, src, n);
    MovedBytes(m, dst, src, n);
    assert up[dst + k] == up[src + k] == up[dst] == 0;
    assert Moved(m, dst, src, n)[dst + k] == m[dst] == 1;
  }

  // ----- memory accesses -----

  // A word is the eight bytes it is made of. Word accesses must be aligned.
  method LoadWord(mem: array<Byte>, at: nat) returns (w: seq<Byte>)
    requires at % WORD_SIZE == 0 && at + WORD_SIZE <= mem.Length
    ensures w == mem[at..at + WORD_SIZE]
  {
    w := mem[at..at + WORD_SIZE];
  }

  method StoreWord(mem: array<Byte>, at: nat, w: seq<Byte>)
    requires at % WORD_SIZE == 0 && at + WORD_SIZE <= mem.Length && |w| == WORD_SIZE
    modifies mem
    ensures mem[..] == old(mem[..at]) + w + old(mem[at + WORD_SIZE..])
  {
    forall i | 0 <= i < WORD_SIZE {
      mem[at + i] := w[i];
    }
  }

  method CopyWord(mem: array<Byte>, dst: nat, src: nat)
    requires dst % WORD_SIZE == 0 && src % WORD_SIZE == 0
    requires dst + WORD_SIZE <= mem.Length && src + WORD_SIZE <= mem.Length
    modifies mem
    ensures mem[..] == Moved(old(mem[..]), dst, src, WORD_SIZE)
  {
    var w := LoadWord(mem, src);
    StoreWord(mem, dst, w);
  }

  // do *dst++ = *src++; while(--t), which needs t > 0
  method BytesForward(mem: array<Byte>, dst: nat, src: nat, t: nat)
    requires t > 0 && dst + t <= mem.Length && src + t <= mem.Length
    requires dst <= src || src + t <= dst
    modifies mem
    ensures mem[..] == Moved(old(mem[..]), dst, src, t)
  {
    hide Moved;
    ghost var was := mem[..];
    var left, i := t, 0;
    MovedSmall(was, dst, src);
    while true
      invariant left == t - i && 0 < left
      invariant mem[..] == Moved(was, dst, src, i)
      decreases left
    {
      ghost var m := mem[..];
      mem[dst + i] := mem[src + i];
      assert mem[..] == m[dst + i := m[src + i]];
      MovedSmall(m, dst + i, src + i);
      LowerFirst(was, dst, src, i, i + 1);
      i := i + 1;
      left := left - 1;
      if left == 0 {
        break;
      }
    }
  }

  method WordsForward(mem: array<Byte>, dst: nat, src: nat, t: nat)
    requires t > 0 && dst % WORD_SIZE == 0 && src % WORD_SIZE == 0
    requires dst + t * WORD_SIZE <= mem.Length && src + t * WORD_SIZE <= mem.Length
    requires dst <= src || src + t * WORD_SIZE <= dst
    modifies mem
    ensures mem[..] == Moved(old(mem[..]), dst, src, t * WORD_SIZE)
  {
    hide Moved;
    ghost var was := mem[..];
    var left, d, s := t, dst, src;
    MovedSmall(was, dst, src);
    ghost var i := 0;
    while true
      invariant left == t - i && 0 < left && i >= 0
      invariant d == dst + i * WORD_SIZE && s == src + i * WORD_SIZE
      invariant mem[..] == Moved(was, dst, src, i * WORD_SIZE)
      decreases left
    {
      StepAligned(dst, i);
      StepAligned(src, i);
      CopyWord(mem, d, s);
      LowerFirst(was, dst, src, i * WORD_SIZE, (i + 1) * WORD_SIZE);
      s, d := s + WORD_SIZE, d + WORD_SIZE;
      i := i + 1;
      left := left - 1;
      if left == 0 {
        break;
      }
    }
  }

  lemma StepAligned(a: nat, i: nat)
    requires a % WORD_SIZE == 0
    ensures (a + i * WORD_SIZE) % WORD_SIZE == 0
  {
  }

  // do *--dst = *--src; while(--t); dst and src are the ends
  method BytesBackward(mem: array<Byte>, dstEnd: nat, srcEnd: nat, t: nat)
    requires 0 < t <= dstEnd <= mem.Length && t <= srcEnd <= mem.Length
    requires srcEnd <= dstEnd || dstEnd <= srcEnd - t
    modifies mem
    ensures mem[..] == Moved(old(mem[..]), dstEnd - t, srcEnd - t, t)
  {
    hide Moved;
    ghost var was := mem[..];
    var left, i := t, 0;
    MovedSmall(was, dstEnd, srcEnd);
    while true
      invariant left == t - i && 0 < left
      invariant mem[..] == Moved(was, dstEnd - i, srcEnd - i, i)
      decreases left
    {
      i := i + 1;
      ghost var m := mem[..];
      mem[dstEnd - i] := mem[srcEnd - i];
      assert mem[..] == m[dstEnd - i := m[srcEnd - i]];
      MovedSmall(m, dstEnd - i, srcEnd - i);
      UpperFirst(was, dstEnd - i, srcEnd - i, 1, i);
      left := left - 1;
      if left == 0 {
        break;
      }
    }
  }

  method WordsBackward(mem: array<Byte>, dstEnd: nat, srcEnd: nat, t: nat)
    requires t > 0 && dstEnd % WORD_SIZE == 0 && srcEnd % WORD_SIZE == 0
    requires t * WORD_SIZE <= dstEnd <= mem.Length && t * WORD_SIZE <= srcEnd <= mem.Length
    requires srcEnd <= dstEnd || dstEnd <= srcEnd - t * WORD_SIZE
    modifies mem
    ensures mem[..] == Moved(old(mem[..]), dstEnd - t * WORD_SIZE, srcEnd - t * WORD_SIZE, t * WORD_SIZE)
  {
    hide Moved;
    ghost var was := mem[..];
    var left, d, s := t, dstEnd, srcEnd;
    MovedSmall(was, dstEnd, srcEnd);
    ghost var i := 0;
    while true
      invariant left == t - i && 0 < left && i >= 0
      invariant d == dstEnd - i * WORD_SIZE && s == srcEnd - i * WORD_SIZE
      invariant mem[..] == Moved(was, d, s, i * WORD_SIZE)
      decreases left
    {
      s, d := s - WORD_SIZE, d - WORD_SIZE;
      StepDownAligned(dstEnd, i + 1);
      StepDownAligned(srcEnd, i + 1);
      CopyWord(mem, d, s);
      UpperFirst(was, d, s, WORD_SIZE, (i + 1) * WORD_SIZE);
      i := i + 1;
      left := left - 1;
      if left == 0 {
        break;
      }
    }
  }

  lemma StepDownAligned(a: nat, i: nat)
    requires a % WORD_SIZE == 0 && i * WORD_SIZE <= a
    ensures (a - i * WORD_SIZE) % WORD_SIZE == 0
  {
  }

  // The low three bits of t | d and of t ^ d are clear.
  predicate BothAligned(t: nat, d: nat) { t % WORD_SIZE == 0 && d % WORD_SIZE == 0 }
  predicate SameLowBits(t: nat, d: nat) { t % WORD_SIZE == d % WORD_SIZE }

  // The forward half of both functions: bytes up to alignment, whole words, trailing bytes.
  method CopyForward(mem: array<Byte>, dst: nat, src: nat, n: nat)
    requires n > 0 && dst + n <= mem.Length && src + n <= mem.Length
    requires dst <= src || src + n <= dst
    modifies mem
    ensures mem[..] == Moved(old(mem[..]), dst, src, n)
  {
    hide Moved;
    ghost var was := mem[..];
    var d, s, length := dst, src, n;
    MovedSmall(was, dst, src);
    var t := src;
    if !BothAligned(t, dst) {
      if !SameLowBits(t, dst) || length < WORD_SIZE {
        t := length;
      } else {
        t := WORD_SIZE - t % WORD_SIZE;
        AlignUp(src, t);
        AlignUp(dst, t);
      }
      length := length - t;
      BytesForward(mem, d, s, t);
      d, s := d + t, s + t;
    }
    ghost var head := n - length;
    assert mem[..] == Moved(was, dst, src, head);
    DivEquation(length, WORD_SIZE);
    t := length / WORD_SIZE;
    if t > 0 {
      WordsForward(mem, d, s, t);
      d, s := d + t * WORD_SIZE, s + t * WORD_SIZE;
      LowerFirst(was, dst, src, head, head + t * WORD_SIZE);
    }
    head := head + t * WORD_SIZE;
    t := length % WORD_SIZE;
    if t > 0 {
      BytesForward(mem, d, s, t);
      LowerFirst(was, dst, src, head, n);
    }
  }

  lemma AlignUp(a: nat, t: nat)
    requires a % WORD_SIZE != 0 && t == WORD_SIZE - a % WORD_SIZE
    ensures (a + t) % WORD_SIZE == 0
  {
  }

  // The backward half of memmove, from the ends.
  method CopyBackward(mem: array<Byte>, dst: nat, src: nat, n: nat)
    requires n > 0 && dst + n <= mem.Length && src + n <= mem.Length && src <= dst
    modifies mem
    ensures mem[..] == Moved(old(mem[..]), dst, src, n)
  {
    hide Moved;
    ghost var was := mem[..];
    var d, s, length := dst + n, src + n, n;
    MovedSmall(was, dst + n, src + n);
    var t := s;
    if !BothAligned(t, d) {
      if !SameLowBits(t, d) || length <= WORD_SIZE {
        t := length;
      } else {
        t := t % WORD_SIZE;
        AlignDown(s);
        AlignDown(d);
      }
      length := length - t;
      BytesBackward(mem, d, s, t);
      d, s := d - t, s - t;
    }
    assert mem[..] == Moved(was, d, s, n - length);
    RestBackward(mem, dst, src, length, n, was);
  }

  // The whole words below the end that has been aligned, and the bytes below those.
  method RestBackward(mem: array<Byte>, dst: nat, src: nat, length: nat, n: nat, ghost was: seq<Byte>)
    requires length <= n && dst + n <= mem.Length == |was| && src + n <= mem.Length && src <= dst
    requires length >= WORD_SIZE ==> (dst + length) % WORD_SIZE == 0 && (src + length) % WORD_SIZE == 0
    requires mem[..] == Moved(was, dst + length, src + length, n - length)
    modifies mem
    ensures mem[..] == Moved(was, dst, src, n)
  {
    hide Moved;
    DivEquation(length, WORD_SIZE);
    var d, s, t := dst + length, src + length, length / WORD_SIZE;
    if t > 0 {
      WordsBackward(mem, d, s, t);
      d, s := d - t * WORD_SIZE, s - t * WORD_SIZE;
      UpperFirst(was, d, s, t * WORD_SIZE, t * WORD_SIZE + (n - length));
    }
    t := length % WORD_SIZE;
    assert d - t == dst && s - t == src;
    if t > 0 {
      BytesBackward(mem, d, s, t);
      UpperFirst(was, dst, src, t, n);
    }
  }

  lemma AlignDown(a: nat)
    ensures (a - a % WORD_SIZE) % WORD_SIZE == 0
  {
  }

  lemma MovedNowhere(m: seq<Byte>, dst: nat, src: nat, n: nat)
    requires dst + n <= |m| && src + n <= |m| && (n == 0 || dst == src)
    ensures Moved(m, dst, src, n) == m
  {
  }

  // memmove, for every overlap, alignment and length
  method MemMove(mem: array<Byte>, dst: nat, src: nat, length: nat) returns (r: nat)
    requires dst + length <= mem.Length && src + length <= mem.Length
    modifies mem
    ensures mem[..] == Moved(old(mem[..]), dst, src, length)
    ensures r == dst
  {
    if length == 0 || dst == src {
      MovedNowhere(mem[..], dst, src, length);
    } else if dst < src {
      CopyForward(mem, dst, src, length);
    } else {
      CopyBackward(mem, dst, src, length);
    }
    r := dst;
  }

  predicate Overlapping(dst: nat, src: nat, length: nat) {
    dst != src && dst < src + length && src < dst + length
  }

  // The ranges differ and have a byte in common.
  lemma OverlapExact(dst: nat, src: nat, length: nat)
    ensures Overlapping(dst, src, length) <==>
              dst != src && exists k: nat :: Covers(dst, length, k) && Covers(src, length, k)
  {
    if Overlapping(dst, src, length) {
      var k := if dst < src then src else dst;
      assert Covers(dst, length, k) && Covers(src, length, k);
    }
  }

  predicate Covers(start: nat, length: nat, k: nat) {
    start <= k < start + length
  }

  // memcpy moves as memmove does unless the ranges overlap, when it panics and writes nothing.
  method MemCpy(mem: array<Byte>, dst: nat, src: nat, length: nat) returns (panicked: bool)
    requires dst + length <= mem.Length && src + length <= mem.Length
    modifies mem
    ensures panicked <==> length > 0 && Overlapping(dst, src, length)
    ensures mem[..] == if panicked then old(mem[..]) else Moved(old(mem[..]), dst, src, length)
  {
    if length == 0 || dst == src {
      MovedNowhere(mem[..], dst, src, length);
      return false;
    }
    if (dst < src && dst + length > src) || (src < dst && src + length > dst) {
      return true;
    }
    CopyForward(mem, dst, src, length);
    return false;
  }

  // memset
  method MemSet(mem: array<Byte>, dst: nat, c: int, n: nat)
    requires dst + n <= mem.Length
    modifies mem
    ensures forall k :: 0 <= k < mem.Length ==> mem[k] == if dst <= k < dst + n then c % 256 else old(mem[k])
  {
    if n != 0 {
      var d, left := dst, n;
      while true
        invariant 0 < left <= n && d == dst + (n - left)
        invariant forall k :: 0 <= k < mem.Length ==> mem[k] == if dst <= k < d then c % 256 else old(mem[k])
        decreases left
      {
        mem[d] := c % 256;
        d := d + 1;
        left := left - 1;
        if left == 0 {
          break;
        }
      }
    }
  }
}

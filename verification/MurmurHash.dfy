// MurmurHash64A (util/MurmurHash2.cpp), which gives methods and interfaces their identifiers: every mixing
// step is a bijection on 64-bit words, so keys that differ in a single place never collide.
module MurmurHash {
  import opened Division
  import opened ByteOrder
  import opened Words

  const M: nat := 0xc6a4a7935bd1e995
  const M_INVERSE: nat := 0x5f7a0ea7e59b19bd

  // ----- exclusive or and shifts on naturals -----

  function Xor(a: nat, b: nat): nat
    decreases a + b
  {
    if a == 0 then b else if b == 0 then a else 2 * Xor(a / 2, b / 2) + (if a % 2 != b % 2 then 1 else 0)
  }

  function Shr(a: nat, n: nat): nat {
    if n == 0 then a else Shr(a / 2, n - 1)
  }

  // One bit off the end.
  lemma XorStep(a: nat, b: nat)
    ensures Xor(a, b) / 2 == Xor(a / 2, b / 2)
    ensures Xor(a, b) % 2 == if a % 2 != b % 2 then 1 else 0
  {
  }

  lemma {:induction false} XorCommutes(a: nat, b: nat)
    ensures Xor(a, b) == Xor(b, a)
    decreases a + b
  {
    if a > 0 && b > 0 {
      XorCommutes(a / 2, b / 2);
    }
  }

  lemma {:induction false} XorAssociative(a: nat, b: nat, c: nat)
    ensures Xor(Xor(a, b), c) == Xor(a, Xor(b, c))
    decreases a + b + c
  {
    if a > 0 && b > 0 && c > 0 {
      XorAssociative(a / 2, b / 2, c / 2);
      XorStep(a, b);
      XorStep(b, c);
      XorStep(Xor(a, b), c);
      XorStep(a, Xor(b, c));
    }
  }

  lemma {:induction false} XorSelf(a: nat)
    ensures Xor(a, a) == 0
  {
    if a == 0 {
    } else {
      XorSelf(a / 2);
    }
  }

  // Applying the same word twice cancels.
  lemma {:induction false} XorTwice(a: nat, b: nat)
    ensures Xor(Xor(a, b), b) == a
  {
    XorAssociative(a, b, b);
    XorSelf(b);
  }

  lemma {:induction false} XorBound(a: nat, b: nat, n: nat)
    requires a < Pow2(n) && b < Pow2(n)
    ensures Xor(a, b) < Pow2(n)
    decreases n
  {
    if n > 0 && a > 0 && b > 0 {
      XorBound(a / 2, b / 2, n - 1);
    }
  }

  lemma {:induction false} ShrXor(a: nat, b: nat, n: nat)
    ensures Shr(Xor(a, b), n) == Xor(Shr(a, n), Shr(b, n))
    decreases n
  {
    if n == 0 {
    } else {
      XorStep(a, b);
      ShrXor(a / 2, b / 2, n - 1);
    }
  }

  lemma {:induction false} ShrBound(a: nat, n: nat, k: nat)
    requires a < Pow2(n + k)
    ensures Shr(a, k) < Pow2(n)
    decreases k
  {
    if k == 0 {
    } else {
      assert Pow2(n + k) == 2 * Pow2(n + (k - 1));
      ShrBound(a / 2, n, k - 1);
    }
  }

  lemma {:induction false} ShrShr(a: nat, n: nat, k: nat)
    ensures Shr(Shr(a, n), k) == Shr(a, n + k)
    decreases n
  {
    if n == 0 {
    } else {
      ShrShr(a / 2, n - 1, k);
    }
  }

  lemma {:induction false} Doubles(n: nat, k: nat)
    ensures Pow2(n + k) == Pow2(n) * Pow2(k)
    decreases k
  {
    if k == 0 {
    } else {
      assert Pow2(n + k) == 2 * Pow2(n + (k - 1));
      Doubles(n, k - 1);
    }
  }

  // ----- the steps -----

  // Multiplication wraps at 64 bits.
  function Times(x: nat): Word { (x * M) % WORD_LIMIT }

  function Untimes(x: nat): Word { (x * M_INVERSE) % WORD_LIMIT }

  function Both(a: Word, b: Word): Word {
    Pow2Of64();
    XorBound(a, b, 64);
    Xor(a, b)
  }

  // x ^= x >> 47
  function Shifted(x: Word): Word {
    Pow2Of64();
    ShrBound(x, 17, 47);
    Doubles(17, 47);
    assert Shr(x, 47) < WORD_LIMIT;
    Both(x, Shr(x, 47))
  }

  // What a block becomes before it is combined with the hash, and back.
  function Mix(k: Word): Word { Times(Shifted(Times(k))) }

  function Unmix(k: Word): Word { Untimes(Shifted(Untimes(k))) }

  function Absorb(h: Word, k: Word): Word { Times(Both(h, Mix(k))) }

  function Finish(h: Word): Word { Shifted(Times(Shifted(h))) }

  // The multiplier is odd, so it has an inverse.
  lemma TimesBijective(x: Word)
    ensures Untimes(Times(x)) == x && Times(Untimes(x)) == x
  {
    var c := (M * M_INVERSE - 1) / WORD_LIMIT;
    assert M * M_INVERSE == WORD_LIMIT * c + 1;
    var q, r := (x * M) / WORD_LIMIT, Times(x);
    DivEquation(x * M, WORD_LIMIT);
    assert r * M_INVERSE == WORD_LIMIT * (c * x - q * M_INVERSE) + x;
    DivUnique(r * M_INVERSE, WORD_LIMIT, c * x - q * M_INVERSE, x);
    var p, s := (x * M_INVERSE) / WORD_LIMIT, Untimes(x);
    DivEquation(x * M_INVERSE, WORD_LIMIT);
    assert s * M == WORD_LIMIT * (c * x - p * M) + x;
    DivUnique(s * M, WORD_LIMIT, c * x - p * M, x);
  }

  // A shift by more than half the width is undone by doing it again.
  lemma ShiftedInvolution(x: Word)
    ensures Shifted(Shifted(x)) == x
  {
    Pow2Of64();
    var s := Shr(x, 47);
    ShrXor(x, s, 47);
    ShrShr(x, 47, 47);
    ShrBound(x, 0, 64);
    ShrShr(x, 64, 30);
    ShrZero(30);
    assert Shr(s, 47) == 0;
    XorTwice(x, s);
  }

  lemma {:induction false} ShrZero(n: nat)
    ensures Shr(0, n) == 0
  {
    if n == 0 {
    } else {
      ShrZero(n - 1);
    }
  }

  lemma MixBijective(k: Word)
    ensures Unmix(Mix(k)) == k && Mix(Unmix(k)) == k
  {
    hide Times, Untimes, Shifted;
    TimesBijective(k);
    TimesBijective(Shifted(Times(k)));
    ShiftedInvolution(Times(k));
    TimesBijective(Shifted(Untimes(k)));
    ShiftedInvolution(Untimes(k));
  }

  lemma XorCancels(a: nat, b: nat, c: nat)
    ensures Xor(a, b) == Xor(a, c) ==> b == c
    ensures Xor(b, a) == Xor(c, a) ==> b == c
  {
    XorTwice(b, a);
    XorTwice(c, a);
    XorCommutes(a, b);
    XorCommutes(a, c);
  }

  // A different hash so far, or a different block, gives a different hash.
  lemma AbsorbInjective(g: Word, h: Word, j: Word, k: Word)
    ensures Absorb(h, j) == Absorb(h, k) ==> j == k
    ensures Absorb(g, k) == Absorb(h, k) ==> g == h
  {
    hide Times, Untimes, Mix, Unmix, Xor;
    TimesBijective(Both(h, Mix(j)));
    TimesBijective(Both(h, Mix(k)));
    TimesBijective(Both(g, Mix(k)));
    MixBijective(j);
    MixBijective(k);
    XorCancels(h, Mix(j), Mix(k));
    XorCancels(Mix(k), g, h);
  }

  lemma FinishInjective(g: Word, h: Word)
    ensures Finish(g) == Finish(h) ==> g == h
  {
    hide Times, Untimes, Shifted;
    ShiftedInvolution(g);
    ShiftedInvolution(h);
    TimesBijective(Shifted(g));
    TimesBijective(Shifted(h));
    ShiftedInvolution(Times(Shifted(g)));
    ShiftedInvolution(Times(Shifted(h)));
  }

  // ----- shifts to the left and bytes -----

  lemma XorDouble(x: nat, y: nat)
    ensures Xor(2 * x, 2 * y) == 2 * Xor(x, y)
  {
  }

  lemma TwiceTimes(p: nat, a: nat)
    ensures 2 * p * a == 2 * (p * a)
  {
  }

  lemma {:induction false} XorScaled(a: nat, b: nat, n: nat)
    ensures Xor(Pow2(n) * a, Pow2(n) * b) == Pow2(n) * Xor(a, b)
    decreases n
  {
    hide Xor;
    if n == 0 {
    } else {
      var p := Pow2(n - 1);
      XorScaled(a, b, n - 1);
      XorDouble(p * a, p * b);
      TwiceTimes(p, a);
      TwiceTimes(p, b);
      TwiceTimes(p, Xor(a, b));
    }
  }

  // Words without a common bit are added.
  lemma {:induction false} XorDisjoint(a: nat, b: nat, n: nat)
    requires b < Pow2(n)
    ensures Xor(Pow2(n) * a, b) == Pow2(n) * a + b
    decreases n
  {
    if n == 0 {
    } else {
      var x := Pow2(n - 1) * a;
      assert Pow2(n) * a == 2 * x;
      XorDisjoint(a, b / 2, n - 1);
      XorStep(2 * x, b);
    }
  }

  // uint64_t(b) << 8 * i
  function ByteShifted(b: Byte, i: nat): nat {
    Pow2(8 * i) * b
  }

  // The switch: tail bytes from the last down to the i-th, folded into the hash.
  function FoldTail(h: nat, tail: seq<Byte>, i: nat): nat
    requires i <= |tail|
    decreases |tail| - i
  {
    if i == |tail| then h else Xor(FoldTail(h, tail, i + 1), ByteShifted(tail[i], i))
  }

  // It folds in the tail as one little-endian number.
  lemma {:induction false} FoldTailIs(h: nat, tail: seq<Byte>, i: nat)
    requires i <= |tail|
    ensures FoldTail(h, tail, i) == Xor(h, Pow2(8 * i) * FromLe(tail[i..]))
    decreases |tail| - i
  {
    hide Xor;
    if i < |tail| {
      var rest := FromLe(tail[i + 1..]);
      FoldTailIs(h, tail, i + 1);
      assert tail[i..][1..] == tail[i + 1..];
      Pow2Of8();
      Doubles(8 * i, 8);
      FoldStep(h, rest, tail[i], 8 * i);
      assert FromLe(tail[i..]) == tail[i] + 256 * rest;
      assert Pow2(8 * (i + 1)) == Pow2(8 * i) * 256;
    } else {
      assert tail[i..] == [];
      XorZero(h);
    }
  }

  lemma XorZero(h: nat)
    ensures Xor(h, 0) == h
  {
  }

  lemma Pow2Of8()
    ensures Pow2(8) == 256
  {
  }

  lemma FoldStep(h: nat, rest: nat, t: Byte, n: nat)
    ensures Xor(Xor(h, Pow2(n) * 256 * rest), Pow2(n) * t) == Xor(h, Pow2(n) * (t + 256 * rest))
  {
    hide Xor, Pow2;
    var p := Pow2(n);
    assert p * 256 * rest == p * (256 * rest);
    XorAssociative(h, p * (256 * rest), p * t);
    XorScaled(256 * rest, t, n);
    Pow2Of8();
    XorDisjoint(rest, t, 8);
  }

  lemma {:induction false} FromLeBound(s: seq<Byte>)
    ensures FromLe(s) < Pow2(8 * |s|)
  {
    if s == [] {
    } else {
      FromLeBound(s[1..]);
      assert Pow2(8) == 256;
      Doubles(8 * |s[1..]|, 8);
      assert 8 * |s| == 8 * |s[1..]| + 8;
    }
  }

  // ----- the hash of a key -----

  // The word read at *data, and the hash after the first n of them.
  function BlockAt(key: seq<Byte>, i: nat): Word
    requires 8 * (i + 1) <= |key|
  {
    Pow2Of64();
    FromLeBound(key[8 * i..8 * (i + 1)]);
    FromLe(key[8 * i..8 * (i + 1)])
  }

  function Absorbed(key: seq<Byte>, h: Word, n: nat): Word
    requires 8 * n <= |key|
  {
    if n == 0 then h else Absorb(Absorbed(key, h, n - 1), BlockAt(key, n - 1))
  }

  function WithTail(h: Word, tail: seq<Byte>): Word
    requires |tail| < 8
  {
    if tail == [] then h
    else
      TailBound(h, tail);
      Times(FoldTail(h, tail, 0))
  }

  lemma TailBound(h: Word, tail: seq<Byte>)
    requires |tail| < 8
    ensures FoldTail(h, tail, 0) < WORD_LIMIT
    ensures FoldTail(h, tail, 0) == Xor(h, FromLe(tail))
  {
    FoldTailIs(h, tail, 0);
    assert tail[0..] == tail;
    FromLeBound(tail);
    Pow2Monotone(8 * |tail|, 64);
    Pow2Of64();
    XorBound(h, FromLe(tail), 64);
  }

  function Start(len: nat, seed: Word): Word {
    Both(seed, Times(len))
  }

  // MurmurHash64A
  function Hash(key: seq<Byte>, seed: Word): Word {
    var n := |key| / 8;
    DivEquation(|key|, 8);
    Finish(WithTail(Absorbed(key, Start(|key|, seed), n), key[8 * n..]))
  }

  // ----- no collisions -----

  lemma TailInjective(g: Word, h: Word, s: seq<Byte>, t: seq<Byte>)
    requires |s| == |t| < 8
    ensures WithTail(h, s) == WithTail(h, t) ==> s == t
    ensures WithTail(g, s) == WithTail(h, s) ==> g == h
  {
    hide Times, Untimes, Xor, FoldTail, FromLe;
    if s != [] {
      TailBound(h, s);
      TailBound(h, t);
      TailBound(g, s);
      TimesBijective(FoldTail(h, s, 0));
      TimesBijective(FoldTail(h, t, 0));
      TimesBijective(FoldTail(g, s, 0));
      XorCancels(h, FromLe(s), FromLe(t));
      XorCancels(FromLe(s), g, h);
      if FromLe(s) == FromLe(t) {
        FromLeInjective(s, t);
      }
    }
  }

  // Keys that agree on all blocks but the j-th.
  ghost predicate SameButBlock(a: seq<Byte>, b: seq<Byte>, j: nat) {
    && |a| == |b| && 8 * (j + 1) <= |a|
    && (forall i: nat :: 8 * (i + 1) <= |a| && i != j ==> BlockAt(a, i) == BlockAt(b, i))
    && a[8 * (|a| / 8)..] == b[8 * (|b| / 8)..]
  }

  // From then on they are told apart.
  lemma {:induction false} AbsorbedApart(a: seq<Byte>, b: seq<Byte>, j: nat, h: Word, n: nat)
    requires SameButBlock(a, b, j) && 8 * n <= |a| && BlockAt(a, j) != BlockAt(b, j)
    ensures Absorbed(a, h, n) == Absorbed(b, h, n) <==> n <= j
  {
    hide Absorb, BlockAt;
    if n == 0 {
    } else {
      AbsorbedApart(a, b, j, h, n - 1);
      AbsorbInjective(Absorbed(a, h, n - 1), Absorbed(b, h, n - 1), BlockAt(a, n - 1), BlockAt(b, n - 1));
      AbsorbInjective(Absorbed(b, h, n - 1), Absorbed(b, h, n - 1), BlockAt(a, n - 1), BlockAt(b, n - 1));
    }
  }

  // Keys of one length that differ in exactly one block have different hashes.
  lemma OneBlockNeverCollides(a: seq<Byte>, b: seq<Byte>, j: nat, seed: Word)
    requires SameButBlock(a, b, j) && a[8 * j..8 * (j + 1)] != b[8 * j..8 * (j + 1)]
    ensures Hash(a, seed) != Hash(b, seed)
  {
    hide Finish, WithTail, Absorbed;
    var n := |a| / 8;
    DivEquation(|a|, 8);
    if BlockAt(a, j) == BlockAt(b, j) {
      FromLeInjective(a[8 * j..8 * (j + 1)], b[8 * j..8 * (j + 1)]);
    }
    var h := Start(|a|, seed);
    AbsorbedApart(a, b, j, h, n);
    TailInjective(Absorbed(a, h, n), Absorbed(b, h, n), a[8 * n..], b[8 * n..]);
    FinishInjective(WithTail(Absorbed(a, h, n), a[8 * n..]), WithTail(Absorbed(b, h, n), b[8 * n..]));
  }

  // Keys of one length that differ only behind their last whole block have different hashes.
  lemma TailNeverCollides(a: seq<Byte>, b: seq<Byte>, seed: Word)
    requires |a| == |b| && a != b
    requires a[..8 * (|a| / 8)] == b[..8 * (|a| / 8)]
    ensures Hash(a, seed) != Hash(b, seed)
  {
    hide Finish, WithTail, Absorbed;
    var n := |a| / 8;
    DivEquation(|a|, 8);
    var h := Start(|a|, seed);
    SameBlocks(a, b, h, n);
    assert a == a[..8 * n] + a[8 * n..] && b == b[..8 * n] + b[8 * n..];
    TailInjective(Absorbed(a, h, n), Absorbed(b, h, n), a[8 * n..], b[8 * n..]);
    FinishInjective(WithTail(Absorbed(a, h, n), a[8 * n..]), WithTail(Absorbed(b, h, n), b[8 * n..]));
  }

  lemma {:induction false} SameBlocks(a: seq<Byte>, b: seq<Byte>, h: Word, n: nat)
    requires |a| == |b| && 8 * n <= |a| && a[..8 * n] == b[..8 * n]
    ensures Absorbed(a, h, n) == Absorbed(b, h, n)
  {
    hide Absorb;
    if n == 0 {
    } else {
      assert a[..8 * (n - 1)] == a[..8 * n][..8 * (n - 1)] == b[..8 * (n - 1)];
      SameBlocks(a, b, h, n - 1);
      assert a[8 * (n - 1)..8 * n] == a[..8 * n][8 * (n - 1)..] == b[8 * (n - 1)..8 * n];
    }
  }

  const METHOD_SEED: Word := 0xB64C_6EF1_0B0E_96F9

  // Different method names of one length of at most eight characters get different identifiers.
  lemma ShortNamesDistinct(a: seq<Byte>, b: seq<Byte>)
    requires |a| == |b| <= 8
    ensures Hash(a, METHOD_SEED) == Hash(b, METHOD_SEED) <==> a == b
  {
    hide Hash;
    if a != b {
      if |a| == 8 {
        assert a[0..8] == a && b[0..8] == b;
        OneBlockNeverCollides(a, b, 0, METHOD_SEED);
      } else {
        DivUnique(|a|, 8, 0, |a|);
        TailNeverCollides(a, b, METHOD_SEED);
      }
    }
  }

  // ----- the loop -----

  method MurmurHash64A(key: array<Byte>, seed: Word) returns (h: Word)
    ensures h == Hash(key[..], seed)
  {
    hide Absorb, Finish;
    ghost var all := key[..];
    var len := key.Length;
    h := Both(seed, Times(len));
    var data, end := 0, len / 8;
    DivEquation(len, 8);
    while data != end
      invariant data <= end
      invariant h == Absorbed(all, Start(len, seed), data)
    {
      assert key[8 * data..8 * (data + 1)] == all[8 * data..8 * (data + 1)];
      Pow2Of64();
      FromLeBound(key[8 * data..8 * (data + 1)]);
      var k: Word := FromLe(key[8 * data..8 * (data + 1)]);
      h := Absorb(h, k);
      data := data + 1;
    }
    var data2 := 8 * data;
    h := SwitchTail(h, key, data2);
    h := Finish(h);
  }

  // switch (len & 7), each case falling through to the next
  method SwitchTail(h0: Word, key: array<Byte>, data2: nat) returns (h: Word)
    requires data2 <= key.Length < data2 + 8
    ensures h == WithTail(h0, key[data2..])
  {
    hide Xor;
    ghost var tail := key[data2..];
    TailBound(h0, tail);
    var x: nat, i: nat := h0, key.Length - data2;
    while i > 0
      invariant i <= |tail| && key[data2..] == tail
      invariant x == FoldTail(h0, tail, i)
    {
      i := i - 1;
      x := Xor(x, ByteShifted(key[data2 + i], i));
    }
    h := if key.Length == data2 then h0 else Times(x);
  }
}

// 64-bit machine words as naturals. The single-bit operations the allocators use
// (`val & ~(1ULL << k)`, `val |= (1ULL << k)`, `__builtin_ffsll`) are defined by recursion on the bit
// position, so that every fact about them is ordinary induction.
module Words {
  const WORD_LIMIT: nat := 0x1_0000_0000_0000_0000

  type Word = w: nat | w < WORD_LIMIT

  function Pow2(n: nat): (p: nat)
    ensures p > 0
  {
    if n == 0 then 1 else 2 * Pow2(n - 1)
  }

  lemma {:induction false} Pow2Monotone(a: nat, b: nat)
    requires a <= b
    ensures Pow2(a) <= Pow2(b)
    decreases b - a
  {
    if a == b {
    } else {
      Pow2Monotone(a, b - 1);
    }
  }

  lemma Pow2Of64()
    ensures Pow2(64) == WORD_LIMIT
  {
    assert Pow2(8) == 256;
    assert Pow2(16) == 65536 by { assert Pow2(12) == 4096; }
    assert Pow2(24) == 0x100_0000 by { assert Pow2(20) == 0x10_0000; }
    assert Pow2(32) == 0x1_0000_0000 by { assert Pow2(28) == 0x1000_0000; }
    assert Pow2(40) == 0x100_0000_0000 by { assert Pow2(36) == 0x10_0000_0000; }
    assert Pow2(48) == 0x1_0000_0000_0000 by { assert Pow2(44) == 0x1000_0000_0000; }
    assert Pow2(56) == 0x100_0000_0000_0000 by { assert Pow2(52) == 0x10_0000_0000_0000; }
    assert Pow2(64) == WORD_LIMIT by { assert Pow2(60) == 0x1000_0000_0000_0000; }
  }

  // Is bit i of w set?
  predicate Bit(w: nat, i: nat) {
    if i == 0 then w % 2 == 1 else Bit(w / 2, i - 1)
  }

  // w & ~(1 << i)
  function ClearBit(w: nat, i: nat): (r: nat)
    ensures r <= w
  {
    if i == 0 then w - w % 2 else 2 * ClearBit(w / 2, i - 1) + w % 2
  }

  // w | (1 << i)
  function SetBit(w: nat, i: nat): nat {
    if i == 0 then w - w % 2 + 1 else 2 * SetBit(w / 2, i - 1) + w % 2
  }

  lemma {:induction false} ClearBitSpec(w: nat, i: nat, j: nat)
    ensures Bit(ClearBit(w, i), j) == (j != i && Bit(w, j))
  {
    if i > 0 && j > 0 {
      ClearBitSpec(w / 2, i - 1, j - 1);
      assert ClearBit(w, i) / 2 == ClearBit(w / 2, i - 1);
    }
  }

  lemma {:induction false} SetBitSpec(w: nat, i: nat, j: nat)
    ensures Bit(SetBit(w, i), j) == (j == i || Bit(w, j))
  {
    if i > 0 && j > 0 {
      SetBitSpec(w / 2, i - 1, j - 1);
      assert SetBit(w, i) / 2 == SetBit(w / 2, i - 1);
    }
  }

  lemma {:induction false} SetBitBound(w: nat, i: nat, n: nat)
    requires w < Pow2(n) && i < n
    ensures SetBit(w, i) < Pow2(n)
  {
    if i == 0 {
    } else {
      SetBitBound(w / 2, i - 1, n - 1);
    }
  }

  lemma SetBitWord(w: Word, i: nat)
    requires i < 64
    ensures SetBit(w, i) < WORD_LIMIT
  {
    Pow2Of64();
    SetBitBound(w, i, 64);
  }

  // A word with no set bit is zero.
  lemma {:induction false} ZeroWord(w: nat, n: nat)
    requires w < Pow2(n)
    requires forall i :: 0 <= i < n ==> !Bit(w, i)
    ensures w == 0
  {
    if n == 0 {
    } else {
      assert !Bit(w, 0);
      forall i | 0 <= i < n - 1
        ensures !Bit(w / 2, i)
      {
        assert !Bit(w, i + 1);
      }
      ZeroWord(w / 2, n - 1);
    }
  }

  lemma {:induction false} BitsOfZero(i: nat)
    ensures !Bit(0, i)
  {
    if i == 0 {
    } else {
      BitsOfZero(i - 1);
    }
  }

  // __builtin_ffsll: one plus the position of the least significant set bit, or zero.
  function Ffs(w: nat): nat {
    if w == 0 then 0
    else if w % 2 == 1 then 1
    else 1 + Ffs(w / 2)
  }

  lemma {:induction false} FfsSpec(w: nat, n: nat)
    requires 0 < w < Pow2(n)
    ensures 1 <= Ffs(w) <= n
    ensures Bit(w, Ffs(w) - 1)
    ensures forall i :: 0 <= i < Ffs(w) - 1 ==> !Bit(w, i)
  {
    if w % 2 == 0 {
      FfsSpec(w / 2, n - 1);
      forall i | 0 <= i < Ffs(w) - 1
        ensures !Bit(w, i)
      {
        assert i > 0 ==> !Bit(w / 2, i - 1);
      }
    }
  }

  lemma FfsWord(w: Word)
    requires w != 0
    ensures 1 <= Ffs(w) <= 64
    ensures Bit(w, Ffs(w) - 1)
    ensures forall i :: 0 <= i < Ffs(w) - 1 ==> !Bit(w, i)
  {
    Pow2Of64();
    FfsSpec(w, 64);
  }

  // Words laid end to end, least significant bit first: bit j of the bitmap is bit j % 64 of word j / 64.
  function Bits(words: seq<Word>): (bits: seq<bool>)
    ensures |bits| == 64 * |words|
  {
    seq(64 * |words|, j requires 0 <= j < 64 * |words| => Bit(words[j / 64], j % 64))
  }

  lemma BitsOfClear(words: seq<Word>, w: nat, i: nat)
    requires w < |words| && i < 64
    ensures Bits(words[w := ClearBit(words[w], i)]) == Bits(words)[64 * w + i := false]
  {
    var a, b := Bits(words[w := ClearBit(words[w], i)]), Bits(words)[64 * w + i := false];
    forall j | 0 <= j < 64 * |words|
      ensures a[j] == b[j]
    {
      ClearBitSpec(words[w], i, j % 64);
    }
  }

  lemma BitsOfSet(words: seq<Word>, w: nat, i: nat)
    requires w < |words| && i < 64
    ensures SetBit(words[w], i) < WORD_LIMIT
    ensures Bits(words[w := SetBit(words[w], i)]) == Bits(words)[64 * w + i := true]
  {
    SetBitWord(words[w], i);
    var a, b := Bits(words[w := SetBit(words[w], i)]), Bits(words)[64 * w + i := true];
    forall j | 0 <= j < 64 * |words|
      ensures a[j] == b[j]
    {
      SetBitSpec(words[w], i, j % 64);
    }
  }

  // The word after n bits from lo upwards have been set: what storing 0xFF over whole bytes does.
  function SetBits(w: nat, lo: nat, n: nat): nat {
    if n == 0 then w else SetBit(SetBits(w, lo, n - 1), lo + n - 1)
  }

  lemma {:induction false} SetBitsSpec(w: Word, lo: nat, n: nat)
    requires lo + n <= 64
    ensures SetBits(w, lo, n) < WORD_LIMIT
    ensures forall j :: 0 <= j < 64 ==> Bit(SetBits(w, lo, n), j) == (lo <= j < lo + n || Bit(w, j))
  {
    if n == 0 {
    } else {
      SetBitsSpec(w, lo, n - 1);
      SetBitWord(SetBits(w, lo, n - 1), lo + n - 1);
      forall j | 0 <= j < 64
        ensures Bit(SetBits(w, lo, n), j) == (lo <= j < lo + n || Bit(w, j))
      {
        SetBitSpec(SetBits(w, lo, n - 1), lo + n - 1, j);
      }
    }
  }
}

// MurmurHash64A as its author describes it, block by block from the front, with its constants written out; the hash
// of the generated identifiers is this one.
module HashReference {
  import opened Division
  import opened ByteOrder
  import opened Words
  import opened MurmurHash

  function Scramble(k: nat): nat {
    var a := k * 0xc6a4_a793_5bd1_e995 % 0x1_0000_0000_0000_0000;
    Xor(a, a / 0x8000_0000_0000) * 0xc6a4_a793_5bd1_e995 % 0x1_0000_0000_0000_0000
  }

  // Eight bytes at a time, lowest first; what is left over counts as one shorter number.
  function Digest(h: nat, key: seq<Byte>): nat
    decreases |key|
  {
    if key == [] then h
    else if |key| < 8 then Xor(h, FromLe(key)) * 0xc6a4_a793_5bd1_e995 % 0x1_0000_0000_0000_0000
    else
      Digest(Xor(h, Scramble(FromLe(key[..8]))) * 0xc6a4_a793_5bd1_e995 % 0x1_0000_0000_0000_0000, key[8..])
  }

  function Reference(key: seq<Byte>, seed: nat): nat {
    var h := Digest(Xor(seed, |key| * 0xc6a4_a793_5bd1_e995 % 0x1_0000_0000_0000_0000), key);
    var g := Xor(h, h / 0x8000_0000_0000) * 0xc6a4_a793_5bd1_e995 % 0x1_0000_0000_0000_0000;
    Xor(g, g / 0x8000_0000_0000)
  }

  // Shifting is division.
  lemma {:induction false} ShrIs(x: nat, n: nat)
    ensures Shr(x, n) == x / Pow2(n)
  {
    if n == 0 {
    } else {
      ShrIs(x / 2, n - 1);
      var p := Pow2(n - 1);
      DivEquation(x, 2);
      DivEquation(x / 2, p);
      var q, r := x / 2 / p, x / 2 % p;
      assert x == 2 * p * q + (2 * r + x % 2);
      DivUnique(x, 2 * p, q, 2 * r + x % 2);
    }
  }

  lemma Pow2Of47()
    ensures Pow2(47) == 0x8000_0000_0000
  {
    assert Pow2(7) == 128;
    assert Pow2(15) == 0x8000 by { assert Pow2(11) == 0x800; }
    assert Pow2(23) == 0x80_0000 by { assert Pow2(19) == 0x8_0000; }
    assert Pow2(31) == 0x8000_0000 by { assert Pow2(27) == 0x800_0000; }
    assert Pow2(39) == 0x80_0000_0000 by { assert Pow2(35) == 0x8_0000_0000; }
    assert Pow2(47) == 0x8000_0000_0000 by { assert Pow2(43) == 0x800_0000_0000; }
  }

  lemma ShiftedIs(x: Word)
    ensures Shifted(x) == Xor(x, x / 0x8000_0000_0000)
  {
    ShrIs(x, 47);
    Pow2Of47();
  }

  lemma ScrambleIs(k: Word)
    ensures Mix(k) == Scramble(k)
  {
    hide Xor, Shifted;
    ShiftedIs(Times(k));
  }

  // The blocks in front, then the tail.
  lemma {:induction false} DigestIs(h: Word, key: seq<Byte>, n: nat)
    requires 8 * n <= |key| < 8 * n + 8
    ensures Digest(h, key) == WithTail(Absorbed(key, h, n), key[8 * n..])
    decreases n
  {
    hide Xor, Mix, Scramble, FoldTail, FromLe;
    if n == 0 {
      assert key[0..] == key;
      TailBound(h, key);
    } else {
      var g := Absorb(h, BlockAt(key, 0));
      assert key[0..8] == key[..8];
      ScrambleIs(BlockAt(key, 0));
      DigestIs(g, key[8..], n - 1);
      FrontBlock(key, h, n);
      assert key[8..][8 * (n - 1)..] == key[8 * n..];
    }
  }

  lemma {:induction false} FrontBlock(key: seq<Byte>, h: Word, n: nat)
    requires 1 <= n && 8 * n <= |key|
    ensures Absorbed(key[8..], Absorb(h, BlockAt(key, 0)), n - 1) == Absorbed(key, h, n)
    decreases n
  {
    hide Absorb, FromLe;
    if n == 1 {
      assert Absorbed(key, h, 1) == Absorb(Absorbed(key, h, 0), BlockAt(key, 0));
    } else {
      FrontBlock(key, h, n - 1);
      assert key[8..][8 * (n - 2)..8 * (n - 1)] == key[8 * (n - 1)..8 * n];
    }
  }

  lemma HashIsReference(key: seq<Byte>, seed: Word)
    ensures Hash(key, seed) == Reference(key, seed)
  {
    hide Xor, Digest, Absorbed, WithTail, Shifted;
    DivEquation(|key|, 8);
    var n := |key| / 8;
    DigestIs(Start(|key|, seed), key, n);
    var h := WithTail(Absorbed(key, Start(|key|, seed), n), key[8 * n..]);
    ShiftedIs(h);
    ShiftedIs(Times(Shifted(h)));
  }
}

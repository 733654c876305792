// Bytes and the little-endian form integers have in memory.
module ByteOrder {
  import opened Division

  type Byte = b: nat | b < 256

  function Pow256(k: nat): (p: nat)
    ensures p > 0
  {
    if k == 0 then 1 else 256 * Pow256(k - 1)
  }

  // The low k bytes of n, lowest first.
  function Le(n: nat, k: nat): (s: seq<Byte>)
    ensures |s| == k
  {
    if k == 0 then [] else [n % 256] + Le(n / 256, k - 1)
  }

  function FromLe(s: seq<Byte>): nat {
    if s == [] then 0 else s[0] + 256 * FromLe(s[1..])
  }

  lemma {:induction false} FromLeInverts(n: nat, k: nat)
    requires n < Pow256(k)
    ensures FromLe(Le(n, k)) == n
  {
    if k == 0 {
    } else {
      DivEquation(n, 256);
      FromLeInverts(n / 256, k - 1);
      assert Le(n, k)[1..] == Le(n / 256, k - 1);
    }
  }

  // Byte strings of one length are determined by their little-endian value.
  lemma {:induction false} FromLeInjective(s: seq<Byte>, t: seq<Byte>)
    requires |s| == |t| && FromLe(s) == FromLe(t)
    ensures s == t
  {
    if s == [] {
    } else {
      DivUnique(FromLe(s), 256, FromLe(s[1..]), s[0]);
      DivUnique(FromLe(t), 256, FromLe(t[1..]), t[0]);
      FromLeInjective(s[1..], t[1..]);
      assert s == [s[0]] + s[1..] && t == [t[0]] + t[1..];
    }
  }

  const LIMIT32: nat := 0x1_0000_0000

  lemma Le32(n: nat)
    requires n < LIMIT32
    ensures FromLe(Le(n, 4)) == n
  {
    assert Pow256(4) == 256 * Pow256(3) && Pow256(3) == 256 * Pow256(2) && Pow256(2) == 256 * Pow256(1)
        && Pow256(1) == 256 * Pow256(0);
    FromLeInverts(n, 4);
  }

  // Memory with s written over the bytes from `at` on.
  function Overwrite(m: seq<Byte>, at: nat, s: seq<Byte>): (r: seq<Byte>)
    requires at + |s| <= |m|
    ensures |r| == |m|
  {
    m[..at] + s + m[at + |s|..]
  }

  lemma OverwriteBytes(m: seq<Byte>, at: nat, s: seq<Byte>)
    requires at + |s| <= |m|
    ensures Overwrite(m, at, s)[at..at + |s|] == s
    ensures forall k :: 0 <= k < |m| && !(at <= k < at + |s|) ==> Overwrite(m, at, s)[k] == m[k]
  {
  }

  // What lies outside the written bytes is as before.
  lemma OverwriteKeeps(m: seq<Byte>, at: nat, s: seq<Byte>, lo: nat, hi: nat)
    requires at + |s| <= |m| && lo <= hi <= |m|
    requires hi <= at || at + |s| <= lo
    ensures Overwrite(m, at, s)[lo..hi] == m[lo..hi]
  {
  }

  // memcpy of s to buf[at..]
  method CopyIn(buf: array<Byte>, at: nat, s: seq<Byte>)
    requires at + |s| <= buf.Length
    modifies buf
    ensures buf[..] == Overwrite(old(buf[..]), at, s)
  {
    forall i | 0 <= i < |s| {
      buf[at + i] := s[i];
    }
  }
}

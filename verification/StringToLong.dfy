// strtol (Util/String.h), against the value of the longest prefix of digits (section 7.22.1.4 of C11).
module StringToLong {
  import opened Division
  import opened ByteOrder

  const LONG_MAX: int := 0x7FFF_FFFF_FFFF_FFFF
  const LONG_MIN: int := -0x8000_0000_0000_0000
  const UNSIGNED_LIMIT: nat := 0x1_0000_0000

  // A NUL-terminated string.
  predicate IsString(s: seq<Byte>) { s != [] && s[|s| - 1] == 0 }

  // ----- character classes, on ints -----

  // (unsigned)c, and (unsigned)c | 32
  function Unsigned(c: int): nat { c % UNSIGNED_LIMIT }

  function Lowered(c: int): nat {
    var u := Unsigned(c);
    if (u / 32) % 2 == 1 then u else u + 32
  }

  predicate IsSpace(c: int) { c == 32 || (Unsigned(c) - 9) % UNSIGNED_LIMIT < 5 }
  predicate IsAlpha(c: int) { (Lowered(c) - 97) % UNSIGNED_LIMIT < 26 }
  predicate IsDigit(c: int) { (Unsigned(c) - 48) % UNSIGNED_LIMIT < 10 }
  predicate IsUpper(c: int) { (Unsigned(c) - 65) % UNSIGNED_LIMIT < 26 }
  predicate IsHexDigit(c: int) { IsDigit(c) || (Lowered(c) - 97) % UNSIGNED_LIMIT < 6 }

  // A char is signed here; only some of the reads go through unsigned char.
  function SignedChar(b: Byte): int { if b < 128 then b else b - 256 }

  // The classes are the ranges they should be, for a character read either way.
  lemma ClassesAreRanges(c: int)
    requires -128 <= c < 256
    ensures IsSpace(c) <==> c == 32 || 9 <= c <= 13
    ensures IsDigit(c) <==> 48 <= c <= 57
    ensures IsUpper(c) <==> 65 <= c <= 90
    ensures IsAlpha(c) <==> 65 <= c <= 90 || 97 <= c <= 122
    ensures IsHexDigit(c) <==> 48 <= c <= 57 || 65 <= c <= 70 || 97 <= c <= 102
  {
    UnsignedSpec(c);
    var u := Unsigned(c);
    LowBits(u);
    WrapSpec(u, 9);
    WrapSpec(u, 48);
    WrapSpec(u, 65);
    WrapSpec(Lowered(c), 97);
  }

  lemma UnsignedSpec(c: int)
    requires -128 <= c < 256
    ensures Unsigned(c) == if c >= 0 then c else c + UNSIGNED_LIMIT
  {
  }

  lemma WrapSpec(u: nat, k: nat)
    requires u < UNSIGNED_LIMIT + 32 && k < 128
    ensures (u - k) % UNSIGNED_LIMIT < 32 <==> k <= u < k + 32 || UNSIGNED_LIMIT + k <= u
    ensures k <= u < k + 32 ==> (u - k) % UNSIGNED_LIMIT == u - k
  {
  }

  lemma LowBits(u: nat)
    requires u < 256 || UNSIGNED_LIMIT - 128 <= u < UNSIGNED_LIMIT
    ensures u < 256 ==> ((u / 32) % 2 == 1 <==> 32 <= u < 64 || 96 <= u < 128 || 160 <= u < 192 || 224 <= u)
  {
  }

  // ----- what strtol should compute -----

  predicate Space(b: Byte) { b == 32 || 9 <= b <= 13 }

  predicate Hex(b: Byte) { 48 <= b <= 57 || 65 <= b <= 70 || 97 <= b <= 102 }

  // A digit's value, 36 for every other character.
  function DigitOf(b: Byte): (d: nat)
    ensures d <= 36
  {
    if 48 <= b <= 57 then b - 48 else if 65 <= b <= 90 then b - 55 else if 97 <= b <= 122 then b - 87 else 36
  }

  function SkipSpace(s: seq<Byte>, i: nat): (k: nat)
    requires IsString(s) && i < |s|
    ensures i <= k < |s| && !Space(s[k])
    ensures forall j :: i <= j < k ==> Space(s[j])
    decreases |s| - i
  {
    if Space(s[i]) then SkipSpace(s, i + 1) else i
  }

  datatype Subject = Subject(at: nat, base: nat, neg: bool)

  // Behind white space, a sign and, where the base allows it, 0x: where the digits start, and their base.
  function Prefix(s: seq<Byte>, base: nat): (p: Subject)
    requires IsString(s) && base <= 36 && base != 1
    ensures p.at < |s| && 2 <= p.base <= 36
  {
    var i := SkipSpace(s, 0);
    var neg := s[i] == 45;
    var j := if neg || s[i] == 43 then i + 1 else i;
    if (base == 0 || base == 16) && s[j] == 48 && (s[j + 1] == 120 || s[j + 1] == 88) && Hex(s[j + 2])
    then Subject(j + 2, 16, neg)
    else Subject(j, if base != 0 then base else if s[j] == 48 then 8 else 10, neg)
  }

  // End of the longest run of digits.
  function DigitsEnd(s: seq<Byte>, i: nat, base: nat): (k: nat)
    requires IsString(s) && i < |s| && 2 <= base <= 36
    ensures i <= k < |s| && DigitOf(s[k]) >= base
    ensures forall j :: i <= j < k ==> DigitOf(s[j]) < base
    decreases |s| - i
  {
    if DigitOf(s[i]) < base then DigitsEnd(s, i + 1, base) else i
  }

  // The number the digits in i..j denote.
  function Value(s: seq<Byte>, i: nat, j: nat, base: nat): nat
    requires i <= j <= |s|
    decreases j
  {
    if i == j then 0 else Value(s, i, j - 1, base) * base + DigitOf(s[j - 1])
  }

  function Limit(neg: bool): nat { if neg then -LONG_MIN else LONG_MAX }

  function Signed(neg: bool, v: nat): int { if neg then 0 - v else v }

  function Clamped(neg: bool, v: nat): (r: int)
    ensures LONG_MIN <= r <= LONG_MAX
  {
    if v > Limit(neg) then Signed(neg, Limit(neg)) else Signed(neg, v)
  }

  // The longest run of digits is found no matter where in it one starts.
  lemma {:induction false} SameEnd(s: seq<Byte>, i: nat, k: nat, base: nat)
    requires IsString(s) && i <= k < |s| && 2 <= base <= 36
    requires forall j :: i <= j < k ==> DigitOf(s[j]) < base
    ensures DigitsEnd(s, i, base) == DigitsEnd(s, k, base)
    decreases k - i
  {
  }

  // The test against cutoff and cutlim is exact: it holds when one more digit leaves the range.
  lemma CutoffExact(limit: nat, base: nat, acc: nat, c: nat)
    requires 2 <= base && c < base
    ensures var cutoff, cutlim := limit / base, limit % base;
            (acc > cutoff || (acc == cutoff && c > cutlim)) <==> acc * base + c > limit
  {
    var cutoff, cutlim := limit / base, limit % base;
    DivEquation(limit, base);
    if acc > cutoff {
      MulMonotone(base, cutoff + 1, acc);
    } else if acc < cutoff {
      MulMonotone(base, acc + 1, cutoff);
    }
  }

  type Long = x: int | LONG_MIN <= x <= LONG_MAX

  // Division as the machine does it, truncating towards zero.
  function TruncDiv(a: int, b: nat): int
    requires b > 0
  {
    if a >= 0 then a / b else -((-a) / b)
  }

  function TruncMod(a: int, b: nat): int
    requires b > 0
  {
    if a >= 0 then a % b else -((-a) % b)
  }

  // cutoff and cutlim after the adjustment for negative numbers, as magnitudes of the range's limit.
  method Cutoffs(neg: bool, base: nat) returns (cutoff: int, cutlim: int)
    requires 2 <= base <= 36
    ensures cutoff == Signed(neg, Limit(neg) / base) && cutlim == Limit(neg) % base
  {
    var edge := if neg then LONG_MIN else LONG_MAX;
    cutlim := TruncMod(edge, base);
    DivEquation(Limit(neg), base);
    MulMonotone(base, 0, Limit(neg) / base);
    QuotientSmaller(Limit(neg), base);
    cutoff := TruncDiv(edge, base);
    if neg {
      if cutlim > 0 {
        cutlim := cutlim - base;
        cutoff := cutoff + 1;
      }
      cutlim := -cutlim;
    }
  }

  lemma QuotientSmaller(x: nat, d: nat)
    requires d > 0
    ensures x / d <= x
  {
    DivEquation(x, d);
    MulMonotone(x / d, 1, d);
  }

  // What a subject converts to: its digits' value, clamped, and how far endptr ends up from nptr.
  datatype Converted = Converted(value: int, endptr: nat)

  function Convert(s: seq<Byte>, p: Subject): Converted
    requires IsString(s) && p.at < |s| && 2 <= p.base <= 36
  {
    var end := DigitsEnd(s, p.at, p.base);
    Converted(Clamped(p.neg, Value(s, p.at, end, p.base)), if end == p.at then 0 else end)
  }

  // strtol
  method StrToL(s: seq<Byte>, base: int) returns (acc: Long, endptr: nat)
    requires IsString(s)
    ensures base < 0 || base == 1 || base > 36 ==> acc == 0 && endptr == 0
    ensures 0 <= base <= 36 && base != 1 ==> Converted(acc, endptr) == Convert(s, Prefix(s, base))
  {
    if base < 0 || base == 1 || base > 36 {
      return 0, 0;
    }
    acc, endptr := Parse(s, base);
  }

  method Parse(s: seq<Byte>, base0: nat) returns (acc: Long, endptr: nat)
    requires IsString(s) && base0 <= 36 && base0 != 1
    ensures Converted(acc, endptr) == Convert(s, Prefix(s, base0))
  {
    hide SkipSpace, DigitsEnd, Value, Clamped, Hex, Read, Convert;
    var pos, c := SkipSpaces(s);
    var neg;
    pos, c, neg := ReadSign(s, pos, c);
    var base: nat;
    pos, c, base := ReadPrefix(s, pos, c, base0);
    assert Subject(pos - 1, base, neg) == Prefix(s, base0);
    acc, endptr := Digits(s, pos, c, base, neg);
  }

  // c is the character pos - 1, read as a char or as an unsigned char.
  predicate Read(s: seq<Byte>, pos: nat, c: int) {
    0 < pos <= |s| && (c == s[pos - 1] || c == SignedChar(s[pos - 1]))
  }

  // do c = (unsigned char) *s++; while(isspace(c));
  method SkipSpaces(s: seq<Byte>) returns (pos: nat, c: int)
    requires IsString(s)
    ensures pos == SkipSpace(s, 0) + 1 && Read(s, pos, c)
  {
    hide IsSpace, IsDigit, IsAlpha, IsUpper, IsHexDigit;
    pos := 0;
    while true
      invariant pos < |s| && SkipSpace(s, 0) == SkipSpace(s, pos)
      decreases |s| - pos
    {
      c := s[pos];
      pos := pos + 1;
      ClassesAreRanges(c);
      if !IsSpace(c) {
        break;
      }
    }
  }

  method ReadSign(s: seq<Byte>, pos0: nat, c0: int) returns (pos: nat, c: int, neg: bool)
    requires IsString(s) && Read(s, pos0, c0)
    ensures neg <==> s[pos0 - 1] == 45
    ensures pos == (if neg || s[pos0 - 1] == 43 then pos0 + 1 else pos0) && Read(s, pos, c)
  {
    pos, c, neg := pos0, c0, false;
    if c == 45 {
      neg := true;
      c := SignedChar(s[pos]);
      pos := pos + 1;
    } else if c == 43 {
      c := SignedChar(s[pos]);
      pos := pos + 1;
    }
  }

  method ReadPrefix(s: seq<Byte>, pos0: nat, c0: int, base0: nat) returns (pos: nat, c: int, base: nat)
    requires IsString(s) && Read(s, pos0, c0) && base0 <= 36 && base0 != 1
    ensures var j: nat := pos0 - 1;
            if (base0 == 0 || base0 == 16) && s[j] == 48 && (s[j + 1] == 120 || s[j + 1] == 88) && Hex(s[j + 2])
            then pos == pos0 + 2 && base == 16
            else pos == pos0 && base == if base0 != 0 then base0 else if s[j] == 48 then 8 else 10
    ensures Read(s, pos, c)
  {
    hide IsSpace, IsDigit, IsAlpha, IsUpper, IsHexDigit;
    pos, c, base := pos0, c0, base0;
    if (base == 0 || base == 16) && c == 48 && (s[pos] == 120 || s[pos] == 88) {
      ClassesAreRanges(s[pos + 1]);
      if IsHexDigit(s[pos + 1]) {
        c := SignedChar(s[pos + 1]);
        pos := pos + 2;
        base := 16;
      }
    }
    if base == 0 {
      base := if c == 48 then 8 else 10;
    }
  }

  // One more digit: nothing after an overflow, the range's limit at the overflow, the longer number before.
  method AddDigit(acc0: Long, any0: int, c: nat, base: nat, neg: bool, cutoff: int, cutlim: int, ghost v: nat)
    returns (acc: Long, any: int)
    requires 2 <= base <= 36 && c < base
    requires cutoff == Signed(neg, Limit(neg) / base) && cutlim == Limit(neg) % base
    requires acc0 == Clamped(neg, v) && (any0 < 0 <==> v > Limit(neg))
    ensures acc == Clamped(neg, v * base + c) && any != 0 && (any < 0 <==> v * base + c > Limit(neg))
  {
    CutoffExact(Limit(neg), base, v, c);
    MulMonotone(v, 1, base);
    if any0 < 0 {
      return acc0, any0;
    }
    if neg {
      if acc0 < cutoff || (acc0 == cutoff && c > cutlim) {
        any, acc := -1, LONG_MIN;
      } else {
        any := 1;
        NegTimes(v, base);
        acc := acc0 * base;
        acc := acc - c;
      }
    } else {
      if acc0 > cutoff || (acc0 == cutoff && c > cutlim) {
        any, acc := -1, LONG_MAX;
      } else {
        any := 1;
        acc := acc0 * base;
        acc := acc + c;
      }
    }
  }

  lemma NegTimes(v: nat, b: nat)
    ensures (0 - v) * b == 0 - v * b
  {
  }

  // The value of a character as a digit, 36 or more where the loop stops.
  method DigitValue(c: int, b: Byte) returns (d: nat)
    requires c == b || c == SignedChar(b)
    ensures d == DigitOf(b)
  {
    hide IsSpace, IsDigit, IsAlpha, IsUpper, IsHexDigit;
    ClassesAreRanges(c);
    if IsDigit(c) {
      d := c - 48;
    } else if IsAlpha(c) {
      d := c - (if IsUpper(c) then 55 else 87);
    } else {
      d := 36;
    }
  }

  // The digit loop.
  method Digits(s: seq<Byte>, pos0: nat, c0: int, base: nat, neg: bool) returns (acc: Long, endptr: nat)
    requires IsString(s) && Read(s, pos0, c0) && 2 <= base <= 36
    ensures Converted(acc, endptr) == Convert(s, Subject(pos0 - 1, base, neg))
  {
    hide Clamped, Limit, DigitsEnd, Value, DigitOf, SignedChar;
    ghost var at: nat := pos0 - 1;
    var cutoff, cutlim := Cutoffs(neg, base);
    var pos, c, any := pos0, c0, 0;
    acc := 0;
    ClampedZero(s, at, base, neg);
    while true
      invariant at < pos && Read(s, pos, c)
      invariant forall j :: at <= j < pos - 1 ==> DigitOf(s[j]) < base
      invariant acc == Clamped(neg, Value(s, at, pos - 1, base))
      invariant any < 0 <==> Value(s, at, pos - 1, base) > Limit(neg)
      invariant any == 0 <==> pos - 1 == at
      decreases |s| - pos
    {
      SameEnd(s, at, pos - 1, base);
      var d := DigitValue(c, s[pos - 1]);
      EndHere(s, pos - 1, base);
      if d >= base {
        break;
      }
      ValueNext(s, at, pos, base);
      acc, any := AddDigit(acc, any, d, base, neg, cutoff, cutlim, Value(s, at, pos - 1, base));
      c := s[pos];
      pos := pos + 1;
    }
    endptr := if any != 0 then pos - 1 else 0;
  }

  lemma ClampedZero(s: seq<Byte>, at: nat, base: nat, neg: bool)
    requires at <= |s|
    ensures Clamped(neg, Value(s, at, at, base)) == 0 && Limit(neg) >= Value(s, at, at, base)
  {
  }

  lemma EndHere(s: seq<Byte>, k: nat, base: nat)
    requires IsString(s) && k < |s| && 2 <= base <= 36
    ensures DigitOf(s[k]) >= base ==> DigitsEnd(s, k, base) == k
    ensures DigitOf(s[k]) < base ==> k + 1 < |s|
  {
  }

  lemma ValueNext(s: seq<Byte>, at: nat, pos: nat, base: nat)
    requires at < pos <= |s|
    ensures Value(s, at, pos, base) == Value(s, at, pos - 1, base) * base + DigitOf(s[pos - 1])
  {
  }
}

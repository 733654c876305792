// What strtol makes of written numbers, said without its own helpers: every string reads as white space, a sign, a
// mark, digits and a rest, and strtol returns what the digits denote.
module WrittenNumbers {
  import opened Division
  import opened ByteOrder
  import opened StringToLong

  // Character b is digit d: '0' to '9', then letters of either case.
  predicate Denotes(b: Byte, d: nat) {
    (d < 10 && b == '0' as int + d)
    || (10 <= d < 36 && (b == 'a' as int + (d - 10) || b == 'A' as int + (d - 10)))
  }

  // The characters spell the digits of a numeral in a base; leading zeros are allowed.
  predicate Spells(chars: seq<Byte>, digits: seq<nat>, base: nat) {
    |chars| == |digits| && forall i :: 0 <= i < |chars| ==> digits[i] < base && Denotes(chars[i], digits[i])
  }

  function Number(digits: seq<nat>, base: nat): nat {
    if digits == [] then 0 else Number(digits[..|digits| - 1], base) * base + digits[|digits| - 1]
  }

  // A written number: white space, a sign, a mark for hexadecimal, digits in a base, and whatever follows.
  datatype Written = Written(space: seq<Byte>, sign: seq<Byte>, mark: seq<Byte>, base: nat, digits: seq<nat>,
                             chars: seq<Byte>, rest: seq<Byte>)

  predicate IsSign(t: seq<Byte>) {
    t == [] || t == ['+' as int] || t == ['-' as int]
  }

  predicate IsMark(t: seq<Byte>) {
    t == [] || t == ['0' as int, 'x' as int] || t == ['0' as int, 'X' as int]
  }

  // "0x" or "0X" and a hexadecimal digit
  predicate Marked(t: seq<Byte>) {
    && |t| >= 3 && t[0] == '0' as int && (t[1] == 'x' as int || t[1] == 'X' as int)
    && exists d: nat :: d < 16 && Denotes(t[2], d)
  }

  // The base a caller's base stands for when it meets a number: 0 means that the number itself tells.
  predicate BaseFor(asked: nat, w: Written) {
    var t := w.chars + w.rest;
    if t == [] then false
    else if w.mark != [] then (asked == 0 || asked == 16) && w.base == 16 && w.chars != []
    else
      && !((asked == 0 || asked == 16) && Marked(t))
      && w.base == if asked != 0 then asked else if t[0] == '0' as int then 8 else 10
  }

  predicate IsWritten(w: Written, asked: nat) {
    && IsString(w.rest)
    && (forall b :: b in w.space ==> b == 32 || 9 <= b <= 13)
    && IsSign(w.sign) && IsMark(w.mark)
    && BaseFor(asked, w) && Spells(w.chars, w.digits, w.base)
    && (forall d: nat :: d < w.base ==> !Denotes(w.rest[0], d))
    && (w.chars == [] && w.sign == [] ==>
          !(w.rest[0] == 32 || 9 <= w.rest[0] <= 13) && w.rest[0] != '+' as int && w.rest[0] != '-' as int)
  }

  function Text(w: Written): seq<Byte>
  {
    w.space + w.sign + w.mark + w.chars + w.rest
  }

  // The number, cut to the range of a 64-bit long.
  function InRange(negative: bool, v: nat): int {
    if negative then if v > 0x8000_0000_0000_0000 then -0x8000_0000_0000_0000 else 0 - v
    else if v > 0x7FFF_FFFF_FFFF_FFFF then 0x7FFF_FFFF_FFFF_FFFF else v
  }

  // What the caller gets: the number and the length of its text, or nothing converted when it has no digits.
  function Meaning(w: Written): Converted
  {
    if w.digits == [] then Converted(0, 0)
    else Converted(InRange(w.sign == ['-' as int], Number(w.digits, w.base)), |Text(w)| - |w.rest|)
  }

  lemma DenotesDigit(b: Byte, d: nat)
    ensures Denotes(b, d) <==> d < 36 && DigitOf(b) == d
  {
  }

  lemma HexDigit(b: Byte)
    ensures Hex(b) <==> exists d: nat :: d < 16 && Denotes(b, d)
  {
    if Hex(b) {
      assert Denotes(b, DigitOf(b));
    }
  }

  lemma {:induction false} SkipsSpace(s: seq<Byte>, i: nat, n: nat)
    requires IsString(s) && i <= n < |s| && (forall j :: i <= j < n ==> Space(s[j])) && !Space(s[n])
    ensures SkipSpace(s, i) == n
    decreases n - i
  {
    if i == n {
    } else {
      SkipsSpace(s, i + 1, n);
    }
  }

  lemma {:induction false} ValueIsNumber(s: seq<Byte>, at: nat, chars: seq<Byte>, digits: seq<nat>, base: nat)
    requires 2 <= base <= 36 && at + |chars| <= |s| && |digits| == |chars|
    requires forall j :: 0 <= j < |chars| ==> s[at + j] == chars[j] && DigitOf(chars[j]) == digits[j]
    ensures Value(s, at, at + |chars|, base) == Number(digits, base)
    decreases |chars|
  {
    if chars == [] {
    } else {
      var n := |chars| - 1;
      ValueIsNumber(s, at, chars[..n], digits[..n], base);
      assert s[at + n] == chars[n];
    }
  }

  // The pieces of the text, by position.
  lemma TextAt(w: Written)
    requires IsString(w.rest) && IsSign(w.sign) && IsMark(w.mark)
    ensures IsString(Text(w))
    ensures var s, i, t := Text(w), |w.space|, w.chars + w.rest;
            && (forall k :: 0 <= k < i ==> s[k] == w.space[k])
            && (w.sign != [] ==> s[i] == w.sign[0])
            && var j := i + |w.sign|;
               && (w.mark != [] ==> s[j] == w.mark[0] && s[j + 1] == w.mark[1])
               && s[j + |w.mark|..] == t
               && forall k :: 0 <= k < |t| ==> s[j + |w.mark| + k] == t[k]
  {
  }

  // The digits, or else what follows, start with neither white space nor, after no sign, another sign.
  lemma FirstOf(w: Written, asked: nat)
    requires asked <= 36 && asked != 1 && IsWritten(w, asked)
    ensures var t := w.chars + w.rest;
            && (w.sign == [] ==> !Space(t[0]) && t[0] != 43 && t[0] != 45)
            && (w.chars != [] ==> DigitOf(t[0]) == w.digits[0] < w.base)
            && (Marked(t) <==> t[0] == 48 && (t[1] == 120 || t[1] == 88) && Hex(t[2]))
            && (w.mark != [] ==> Hex(t[0]))
  {
    var t := w.chars + w.rest;
    if w.chars != [] {
      assert t[0] == w.chars[0];
      DenotesDigit(t[0], w.digits[0]);
      HexDigit(t[0]);
    } else {
      assert t[0] == w.rest[0];
    }
    if t[0] == 48 && (t[1] == 120 || t[1] == 88) {
      HexDigit(t[2]);
    }
    if Marked(t) {
      HexDigit(t[2]);
    }
  }

  lemma SkipsToSign(w: Written, asked: nat)
    requires asked <= 36 && asked != 1 && IsWritten(w, asked)
    ensures var s, i := Text(w), |w.space|;
            && IsString(s) && SkipSpace(s, 0) == i
            && (s[i] == 45 <==> w.sign == ['-' as int]) && (s[i] == 43 <==> w.sign == ['+' as int])
  {
    var s, i := Text(w), |w.space|;
    FirstOf(w, asked);
    TextAt(w);
    hide Text, Marked, Hex, Denotes, Spells, DigitOf, BaseFor;
    forall k | 0 <= k < i
      ensures Space(s[k])
    {
      assert s[k] in w.space;
    }
    assert w.sign == [] && w.mark == [] ==> s[i] == (w.chars + w.rest)[0];
    SkipsSpace(s, 0, i);
  }

  lemma MarkOrNot(w: Written, asked: nat)
    requires asked <= 36 && asked != 1 && IsWritten(w, asked)
    ensures 2 <= w.base <= 36
    ensures var s, j := Text(w), |w.space| + |w.sign|;
            && (w.mark != [] ==> (asked == 0 || asked == 16) && w.base == 16 && s[j] == 48
                                 && (s[j + 1] == 120 || s[j + 1] == 88) && Hex(s[j + 2]))
            && (w.mark == [] ==>
                  && !((asked == 0 || asked == 16) && s[j] == 48 && (s[j + 1] == 120 || s[j + 1] == 88)
                       && Hex(s[j + 2]))
                  && w.base == if asked != 0 then asked else if s[j] == 48 then 8 else 10)
  {
    var s, j, t := Text(w), |w.space| + |w.sign|, w.chars + w.rest;
    FirstOf(w, asked);
    TextAt(w);
    hide Text, Marked, Hex, Denotes, Spells, DigitOf, IsString, Space;
    if w.mark == [] {
      assert s[j..] == t;
      Unmarked(s, j, t);
    } else {
      assert s[j + 2] == t[0];
    }
  }

  lemma Unmarked(s: seq<Byte>, j: nat, t: seq<Byte>)
    requires IsString(s) && j < |s| && s[j..] == t
    ensures t[0] == s[j] && (s[j] == 48 ==> t[1] == s[j + 1])
    ensures s[j] == 48 && (s[j + 1] == 120 || s[j + 1] == 88) ==> t[2] == s[j + 2]
  {
  }

  // What strtol sees in a written number: the same start, base and sign.
  lemma PrefixOfWritten(w: Written, asked: nat)
    requires asked <= 36 && asked != 1 && IsWritten(w, asked)
    ensures IsString(Text(w)) && 2 <= w.base <= 36
    ensures Prefix(Text(w), asked) == Subject(|w.space| + |w.sign| + |w.mark|, w.base, w.sign == ['-' as int])
  {
    SkipsToSign(w, asked);
    MarkOrNot(w, asked);
    hide Text, Marked, Hex, Denotes, Spells, DigitOf, BaseFor, SkipSpace, IsString;
  }

  // strtol's reading of every written number is its meaning.
  lemma WrittenReadsBack(w: Written, asked: nat)
    requires asked <= 36 && asked != 1 && IsWritten(w, asked)
    ensures IsString(Text(w)) && Convert(Text(w), Prefix(Text(w), asked)) == Meaning(w)
  {
    PrefixOfWritten(w, asked);
    DigitsOfWritten(w, asked);
    hide Prefix, Value, DigitsEnd, IsString, IsWritten, Number;
    assert |Text(w)| - |w.rest| == |w.space| + |w.sign| + |w.mark| + |w.chars|;
  }

  lemma DigitsOfWritten(w: Written, asked: nat)
    requires asked <= 36 && asked != 1 && IsWritten(w, asked) && IsString(Text(w)) && 2 <= w.base <= 36
    ensures var at := |w.space| + |w.sign| + |w.mark|;
            && DigitsEnd(Text(w), at, w.base) == at + |w.chars|
            && Value(Text(w), at, at + |w.chars|, w.base) == Number(w.digits, w.base)
  {
    TextAt(w);
    hide Text, Value, Denotes, BaseFor, DigitOf, DigitsEnd, IsString, Spells;
    DigitsAt(Text(w), |w.space| + |w.sign| + |w.mark|, w.chars, w.digits, w.base, w.rest);
  }

  // The characters are digits of the base, and no others follow.
  lemma SpellsDigits(chars: seq<Byte>, digits: seq<nat>, base: nat)
    requires Spells(chars, digits, base)
    ensures |chars| == |digits| && forall j :: 0 <= j < |chars| ==> DigitOf(chars[j]) == digits[j] < base
  {
    forall j | 0 <= j < |chars|
      ensures DigitOf(chars[j]) == digits[j] < base
    {
      DenotesDigit(chars[j], digits[j]);
    }
  }

  lemma StopsAt(b: Byte, base: nat)
    requires base <= 36
    ensures DigitOf(b) >= base <==> forall d: nat :: d < base ==> !Denotes(b, d)
  {
    DenotesDigit(b, DigitOf(b));
  }

  lemma DigitsAt(s: seq<Byte>, at: nat, chars: seq<Byte>, digits: seq<nat>, base: nat, rest: seq<Byte>)
    requires IsString(s) && 2 <= base <= 36 && at + |chars| < |s| && rest != []
    requires s[at..] == chars + rest && Spells(chars, digits, base)
    requires forall d: nat :: d < base ==> !Denotes(rest[0], d)
    ensures DigitsEnd(s, at, base) == at + |chars|
    ensures Value(s, at, at + |chars|, base) == Number(digits, base)
  {
    SpellsDigits(chars, digits, base);
    StopsAt(rest[0], base);
    Piece(s, at, chars, rest);
    hide Value, Number, Denotes, DigitOf, DigitsEnd;
    forall j | at <= j < at + |chars|
      ensures DigitOf(s[j]) < base
    {
      assert s[j] == chars[j - at];
    }
    SameEnd(s, at, at + |chars|, base);
    EndHere(s, at + |chars|, base);
    ValueIsNumber(s, at, chars, digits, base);
  }

  lemma Piece(s: seq<Byte>, at: nat, chars: seq<Byte>, rest: seq<Byte>)
    requires at + |chars| < |s| && rest != [] && s[at..] == chars + rest
    ensures s[at + |chars|] == rest[0]
    ensures forall j :: 0 <= j < |chars| ==> s[at + j] == chars[j]
  {
    var n := |chars|;
    forall j | 0 <= j < n
      ensures s[at + j] == chars[j]
    {
      assert s[at + j] == s[at..][j];
    }
    assert s[at + n] == s[at..][n];
  }

  // ----- every input is a written number -----

  // The digits a run of characters denotes.
  function DigitsOf(chars: seq<Byte>): (digits: seq<nat>)
    ensures |digits| == |chars| && forall i :: 0 <= i < |chars| ==> digits[i] == DigitOf(chars[i])
  {
    seq(|chars|, i requires 0 <= i < |chars| => DigitOf(chars[i]))
  }

  // A string cut at four places.
  function Cut(s: seq<Byte>, i: nat, j: nat, at: nat, end: nat, base: nat): Written
    requires i <= j <= at <= end <= |s|
  {
    Written(s[..i], s[i..j], s[j..at], base, DigitsOf(s[at..end]), s[at..end], s[end..])
  }

  lemma CutText(s: seq<Byte>, i: nat, j: nat, at: nat, end: nat, base: nat)
    requires i <= j <= at <= end <= |s|
    ensures Text(Cut(s, i, j, at, end, base)) == s
  {
  }

  // The one way to read a string as a written number.
  function Reading(s: seq<Byte>, asked: nat): Written
    requires IsString(s) && asked <= 36 && asked != 1
  {
    var i, p := SkipSpace(s, 0), Prefix(s, asked);
    var j := if s[i] == 45 || s[i] == 43 then i + 1 else i;
    Cut(s, i, j, p.at, DigitsEnd(s, p.at, p.base), p.base)
  }

  lemma ReadingSpells(s: seq<Byte>, at: nat, end: nat, base: nat)
    requires at <= end <= |s| && forall j :: at <= j < end ==> DigitOf(s[j]) < base <= 36
    ensures Spells(s[at..end], DigitsOf(s[at..end]), base)
  {
    var chars := s[at..end];
    forall k | 0 <= k < |chars|
      ensures DigitsOf(chars)[k] < base && Denotes(chars[k], DigitsOf(chars)[k])
    {
      assert chars[k] == s[at + k];
      DenotesDigit(chars[k], DigitOf(chars[k]));
    }
  }

  predicate MarkedAt(s: seq<Byte>, j: nat)
    requires IsString(s) && j < |s|
  {
    s[j] == 48 && (s[j + 1] == 120 || s[j + 1] == 88) && Hex(s[j + 2])
  }

  // Where the digits start, by what stands behind the sign.
  lemma PrefixCases(s: seq<Byte>, asked: nat)
    requires IsString(s) && asked <= 36 && asked != 1
    ensures var i, p := SkipSpace(s, 0), Prefix(s, asked);
            var j := if s[i] == 45 || s[i] == 43 then i + 1 else i;
            if (asked == 0 || asked == 16) && MarkedAt(s, j) then p == Subject(j + 2, 16, s[i] == 45)
            else p == Subject(j, if asked != 0 then asked else if s[j] == 48 then 8 else 10, s[i] == 45)
  {
    hide Hex, SkipSpace;
  }

  lemma WithMark(s: seq<Byte>, j: nat, end: nat, asked: nat, w: Written)
    requires IsString(s) && j + 2 < end < |s| && (asked == 0 || asked == 16) && MarkedAt(s, j)
    requires w.mark == s[j..j + 2] && w.base == 16 && w.chars == s[j + 2..end] && w.rest == s[end..]
    ensures IsMark(w.mark) && BaseFor(asked, w)
  {
    hide Hex;
    assert w.mark == [s[j], s[j + 1]];
  }

  lemma WithoutMark(s: seq<Byte>, j: nat, end: nat, asked: nat, w: Written)
    requires IsString(s) && j <= end < |s| && !((asked == 0 || asked == 16) && MarkedAt(s, j))
    requires w.mark == [] && w.chars == s[j..end] && w.rest == s[end..]
    requires w.base == if asked != 0 then asked else if s[j] == 48 then 8 else 10
    ensures IsMark(w.mark) && BaseFor(asked, w)
  {
    assert w.chars + w.rest == s[j..];
    NoMark(s, j, s[j..], asked);
    hide IsString, Hex, Marked;
  }

  lemma NoMark(s: seq<Byte>, j: nat, t: seq<Byte>, asked: nat)
    requires IsString(s) && j < |s| && s[j..] == t
    requires !((asked == 0 || asked == 16) && s[j] == 48 && (s[j + 1] == 120 || s[j + 1] == 88) && Hex(s[j + 2]))
    ensures t[0] == s[j] && !((asked == 0 || asked == 16) && Marked(t))
  {
    hide Hex, Denotes;
    Unmarked(s, j, t);
    if s[j] == 48 && (s[j + 1] == 120 || s[j + 1] == 88) {
      HexDigit(s[j + 2]);
    }
  }

  lemma HexIsDigit(b: Byte)
    requires Hex(b)
    ensures DigitOf(b) < 16
  {
  }

  lemma ReadingBase(s: seq<Byte>, asked: nat)
    requires IsString(s) && asked <= 36 && asked != 1
    ensures IsMark(Reading(s, asked).mark) && BaseFor(asked, Reading(s, asked)) && IsSign(Reading(s, asked).sign)
  {
    hide IsString, MarkedAt, BaseFor, Prefix, DigitsOf, DigitsEnd, SkipSpace, Space, DigitOf, IsMark;
    PrefixCases(s, asked);
    var w, i, p := Reading(s, asked), SkipSpace(s, 0), Prefix(s, asked);
    var j := if s[i] == 45 || s[i] == 43 then i + 1 else i;
    var end := DigitsEnd(s, p.at, p.base);
    if (asked == 0 || asked == 16) && MarkedAt(s, j) {
      FirstHex(s, j);
      WithMark(s, j, end, asked, w);
    } else {
      WithoutMark(s, j, end, asked, w);
    }
  }

  // The digits behind a mark are not empty.
  lemma FirstHex(s: seq<Byte>, j: nat)
    requires IsString(s) && j < |s| && MarkedAt(s, j)
    ensures j + 2 < |s| && DigitsEnd(s, j + 2, 16) > j + 2
  {
    HexIsDigit(s[j + 2]);
  }

  lemma ReadingRest(s: seq<Byte>, asked: nat)
    requires IsString(s) && asked <= 36 && asked != 1
    ensures var w := Reading(s, asked);
            && IsString(w.rest) && Spells(w.chars, w.digits, w.base)
            && (forall b :: b in w.space ==> b == 32 || 9 <= b <= 13)
            && (forall d: nat :: d < w.base ==> !Denotes(w.rest[0], d))
  {
    var w, i, p := Reading(s, asked), SkipSpace(s, 0), Prefix(s, asked);
    var end := DigitsEnd(s, p.at, p.base);
    ReadingSpells(s, p.at, end, p.base);
    StopsAt(s[end], p.base);
    hide Denotes, DigitsOf, BaseFor, Spells, Prefix, DigitOf;
    assert w.rest[0] == s[end] && w.rest[|w.rest| - 1] == s[|s| - 1];
  }

  lemma ReadingStart(s: seq<Byte>, asked: nat)
    requires IsString(s) && asked <= 36 && asked != 1
    ensures var w := Reading(s, asked);
            && w.rest != []
            && (w.chars == [] && w.sign == [] ==> !Space(w.rest[0]) && w.rest[0] != 43 && w.rest[0] != 45)
  {
    PrefixCases(s, asked);
    hide DigitsOf, MarkedAt, Prefix, DigitOf, IsString, Space;
    var w, i, p := Reading(s, asked), SkipSpace(s, 0), Prefix(s, asked);
    var end := DigitsEnd(s, p.at, p.base);
    assert w.rest[0] == s[end];
    if w.chars == [] && w.sign == [] {
      assert end == p.at;
      if p.at != i {
        FirstHex(s, i);
      }
    }
  }

  // Together with WrittenReadsBack: what strtol returns is settled for every string.
  lemma EveryStringIsWritten(s: seq<Byte>, asked: nat)
    requires IsString(s) && asked <= 36 && asked != 1
    ensures IsWritten(Reading(s, asked), asked) && Text(Reading(s, asked)) == s
  {
    ReadingBase(s, asked);
    ReadingRest(s, asked);
    var i, p := SkipSpace(s, 0), Prefix(s, asked);
    var j := if s[i] == 45 || s[i] == 43 then i + 1 else i;
    CutText(s, i, j, p.at, DigitsEnd(s, p.at, p.base), p.base);
    ReadingStart(s, asked);
    hide Denotes, BaseFor, Spells, MarkedAt, Prefix, IsSign, IsMark, Reading, Text;
  }

  // ----- writing a number -----

  // The digits of a number, without leading zeros.
  function Render(v: nat, base: nat): (digits: seq<nat>)
    requires 2 <= base <= 36
    ensures digits != [] && (forall d :: d in digits ==> d < base) && (digits[0] == 0 ==> v == 0 && |digits| == 1)
    ensures Number(digits, base) == v
    decreases v
  {
    if v < base then [v]
    else
      QuotientLess(v, base);
      DivEquation(v, base);
      var high := Render(v / base, base);
      assert (high + [v % base])[..|high|] == high;
      high + [v % base]
  }

  lemma QuotientLess(v: nat, base: nat)
    requires 2 <= base <= v
    ensures 0 < v / base < v
  {
  }

  lemma {:induction false} LeadingZero(digits: seq<nat>, base: nat)
    ensures Number([0] + digits, base) == Number(digits, base)
    decreases |digits|
  {
    var n := |digits|;
    if n == 0 {
      assert ([0] + digits)[..0] == [];
    } else {
      LeadingZero(digits[..n - 1], base);
      assert ([0] + digits)[..n] == [0] + digits[..n - 1];
    }
  }

  // How a number may be written so that a caller's base finds it: plainly in that base, behind a hexadecimal mark,
  // behind a zero for octal, or in decimal.
  predicate Announced(asked: nat, base: nat, lead: seq<Byte>, v: nat) {
    || (lead == [] && asked == base)
    || (lead == [] && asked == 0 && base == 10 && v > 0)
    || (lead == ['0' as int] && asked == 0 && base == 8)
    || (IsMark(lead) && lead != [] && base == 16 && (asked == 0 || asked == 16))
  }

  // Digits and a NUL hold no mark.
  lemma NotMarked(chars: seq<Byte>, digits: seq<nat>, base: nat)
    requires 2 <= base <= 16 && Spells(chars, digits, base)
    ensures !Marked(chars + [0])
  {
    var t := chars + [0];
    if |chars| >= 2 {
      assert t[1] == chars[1] && Denotes(chars[1], digits[1]);
    }
  }

  // The first character tells octal from decimal.
  lemma StartsWith(chars: seq<Byte>, digits: seq<nat>, base: nat)
    requires Spells(chars, digits, base) && digits != []
    ensures (chars + [0])[0] == '0' as int <==> digits[0] == 0
  {
    assert (chars + [0])[0] == chars[0] && Denotes(chars[0], digits[0]);
  }

  lemma OctalSpells(chars: seq<Byte>, digits: seq<nat>)
    requires Spells(chars, digits, 8)
    ensures Spells(['0' as int] + chars, [0] + digits, 8)
  {
  }

  lemma NulStops(base: nat)
    ensures forall d: nat :: d < base ==> !Denotes(0, d)
  {
  }

  // The written number a rendering is.
  function Rendering(v: nat, base: nat, space: seq<Byte>, sign: seq<Byte>, lead: seq<Byte>, chars: seq<Byte>): Written
    requires 2 <= base <= 36
  {
    if lead == ['0' as int] then Written(space, sign, [], base, [0] + Render(v, base), lead + chars, [0])
    else Written(space, sign, lead, base, Render(v, base), chars, [0])
  }

  lemma RenderingFits(v: nat, base: nat, asked: nat, space: seq<Byte>, sign: seq<Byte>, lead: seq<Byte>,
                      chars: seq<Byte>)
    requires 2 <= base <= 36 && Announced(asked, base, lead, v) && Spells(chars, Render(v, base), base)
    ensures BaseFor(asked, Rendering(v, base, space, sign, lead, chars))
    ensures var w := Rendering(v, base, space, sign, lead, chars); Spells(w.chars, w.digits, base)
  {
    var digits := Render(v, base);
    assert |chars| == |digits|;
    hide Render, Spells, Denotes, Marked;
    if lead == ['0' as int] {
      OctalSpells(chars, digits);
      NotMarked(lead + chars, [0] + digits, 8);
    } else if lead == [] {
      StartsWith(chars, digits, base);
      if base <= 16 {
        NotMarked(chars, digits, base);
      }
    }
  }

  lemma RenderingText(v: nat, base: nat, space: seq<Byte>, sign: seq<Byte>, lead: seq<Byte>, chars: seq<Byte>)
    requires 2 <= base <= 36
    ensures Text(Rendering(v, base, space, sign, lead, chars)) == space + sign + lead + chars + [0]
  {
    hide Render;
    var w := Rendering(v, base, space, sign, lead, chars);
    assert space + sign + [] + (lead + chars) + [0] == space + sign + lead + chars + [0];
  }

  lemma RenderingMeans(v: nat, base: nat, space: seq<Byte>, sign: seq<Byte>, lead: seq<Byte>, chars: seq<Byte>)
    requires 2 <= base <= 36
    ensures var w := Rendering(v, base, space, sign, lead, chars);
            Meaning(w) == Converted(InRange(sign == ['-' as int], v), |Text(w)| - 1)
  {
    LeadingZero(Render(v, base), base);
    hide Text;
  }

  // Any number, written in any base in any mixture of upper and lower case, with any sign, behind white space, reads
  // back as itself, cut to the range, and endptr ends up behind it.
  lemma RenderReadsBack(v: nat, base: nat, asked: nat, space: seq<Byte>, sign: seq<Byte>, lead: seq<Byte>,
                        chars: seq<Byte>)
    requires 2 <= base <= 36 && Announced(asked, base, lead, v) && Spells(chars, Render(v, base), base)
    requires (forall b :: b in space ==> b == 32 || 9 <= b <= 13) && IsSign(sign)
    ensures var s := space + sign + lead + chars + [0];
            && IsString(s)
            && Convert(s, Prefix(s, asked)) == Converted(InRange(sign == ['-' as int], v), |s| - 1)
  {
    var w := Rendering(v, base, space, sign, lead, chars);
    RenderingFits(v, base, asked, space, sign, lead, chars);
    RenderingText(v, base, space, sign, lead, chars);
    RenderingMeans(v, base, space, sign, lead, chars);
    NulStops(base);
    assert IsWritten(w, asked) by {
      assert |chars| == |Render(v, base)|;
      hide Render, Spells, BaseFor, Denotes;
    }
    hide IsWritten, Spells, Render, Text, Meaning, Prefix, Convert;
    WrittenReadsBack(w, asked);
  }
}

// The wire format of idlc messages (CodeGenerator+Serialization.cpp): the generated layout, and the emitted
// bytesFor, serialize and deserialize for an arbitrary argument list.
module WireFormat {
  import opened Division
  import opened ByteOrder

  // A fixed-size builtin (void takes no bytes), a string or blob, or a type with serializers of its own.
  datatype ArgType = Scalar(size: nat) | Bytes | Custom(id: nat)

  // A builtin value is its object representation.
  datatype Value<C> = Raw(bytes: seq<Byte>) | Made(made: C)

  datatype Option<T> = None | Some(value: T)

  // The custom types: which values each has, and the serializers that come along with it.
  datatype Codec<!C> = Codec(has: (nat, C) -> bool, encode: C -> seq<Byte>, decode: (nat, seq<Byte>) -> Option<C>)

  ghost predicate RoundTrips<C(!new)>(codec: Codec<C>) {
    forall id: nat, c: C :: codec.has(id, c) ==> codec.decode(id, codec.encode(c)) == Some(c)
  }

  predicate IsBlob(t: ArgType) { !t.Scalar? }

  // kElementSizes
  function WireSize(t: ArgType): nat {
    if t.Scalar? then t.size else 8
  }

  // kElementOffsets, and kScalarBytes at the end
  function Offset(args: seq<ArgType>, i: nat): nat
    requires i <= |args|
  {
    if i == 0 then 0 else Offset(args, i - 1) + WireSize(args[i - 1])
  }

  function ScalarBytes(args: seq<ArgType>): nat { Offset(args, |args|) }

  // kBlobStartOffset
  function BlobStart(args: seq<ArgType>): nat {
    (ScalarBytes(args) + 7) / 8 * 8
  }

  predicate Typed<C>(codec: Codec<C>, t: ArgType, v: Value<C>) {
    match t
    case Scalar(size) => v.Raw? && |v.bytes| == size
    case Bytes => v.Raw?
    case Custom(id) => v.Made? && codec.has(id, v.made)
  }

  predicate AllTyped<C>(codec: Codec<C>, args: seq<ArgType>, xs: seq<Value<C>>) {
    |xs| == |args| && forall i :: 0 <= i < |args| ==> Typed(codec, args[i], xs[i])
  }

  function Payload<C>(codec: Codec<C>, v: Value<C>): seq<Byte> {
    match v
    case Raw(bytes) => bytes
    case Made(c) => codec.encode(c)
  }

  // bytesFor of one argument, as far as it takes space in the blob region
  function BlobLen<C>(codec: Codec<C>, t: ArgType, v: Value<C>): nat {
    if IsBlob(t) then |Payload(codec, v)| else 0
  }

  // Where the blob of argument i starts; the message's length at the end.
  function BlobOffset<C>(codec: Codec<C>, args: seq<ArgType>, xs: seq<Value<C>>, i: nat): nat
    requires i <= |args| == |xs|
  {
    if i == 0 then BlobStart(args) else BlobOffset(codec, args, xs, i - 1) + BlobLen(codec, args[i - 1], xs[i - 1])
  }

  // bytesFor of a message
  function BytesFor<C>(codec: Codec<C>, args: seq<ArgType>, xs: seq<Value<C>>): nat
    requires |args| == |xs|
  {
    BlobOffset(codec, args, xs, |args|)
  }

  // ----- the layout: everything disjoint -----

  lemma {:induction false} OffsetMonotone(args: seq<ArgType>, i: nat, j: nat)
    requires i <= j <= |args|
    ensures Offset(args, i) <= Offset(args, j)
    decreases j
  {
    if i == j {
    } else {
      OffsetMonotone(args, i, j - 1);
    }
  }

  lemma {:induction false} BlobMonotone<C>(codec: Codec<C>, args: seq<ArgType>, xs: seq<Value<C>>, i: nat, j: nat)
    requires i <= j <= |args| == |xs|
    ensures BlobOffset(codec, args, xs, i) <= BlobOffset(codec, args, xs, j)
    decreases j
  {
    if i == j {
    } else {
      BlobMonotone(codec, args, xs, i, j - 1);
    }
  }

  lemma BlobStartSpec(args: seq<ArgType>)
    ensures ScalarBytes(args) <= BlobStart(args) < ScalarBytes(args) + 8
    ensures BlobStart(args) % 8 == 0
  {
  }

  // Slots lie before the blob region, blobs in it, none overlaps another, and the last ends at bytesFor.
  lemma LayoutDisjoint<C>(codec: Codec<C>, args: seq<ArgType>, xs: seq<Value<C>>, i: nat, j: nat)
    requires i < |args| == |xs| && j < |args|
    ensures Offset(args, i) + WireSize(args[i]) <= BlobStart(args) <= BlobOffset(codec, args, xs, j)
    ensures BlobOffset(codec, args, xs, j) + BlobLen(codec, args[j], xs[j]) <= BytesFor(codec, args, xs)
    ensures i < j ==> Offset(args, i) + WireSize(args[i]) <= Offset(args, j)
    ensures i < j ==> BlobOffset(codec, args, xs, i) + BlobLen(codec, args[i], xs[i]) <= BlobOffset(codec, args, xs, j)
  {
    BlobStartSpec(args);
    OffsetMonotone(args, i + 1, |args|);
    BlobMonotone(codec, args, xs, 0, j);
    BlobMonotone(codec, args, xs, j + 1, |args|);
    if i < j {
      OffsetMonotone(args, i + 1, j);
      BlobMonotone(codec, args, xs, i + 1, j);
    }
  }

  // ----- serialize -----

  // SerUndefined: a subspan reached outside the buffer.
  datatype SerState = SerUndefined | SerFailed(buf: seq<Byte>) | Ser(buf: seq<Byte>, blobOff: nat)

  // The pointer written for a blob.
  function Pointer(off: nat, len: nat): (s: seq<Byte>)
    ensures |s| == 8
  {
    Le(off, 4) + Le(len, 4)
  }

  // One argument's block of the emitted code. Blob lengths and offsets are 32 bits wide; the blob
  // serializers refuse a range shorter than their data.
  function SerOne<C>(codec: Codec<C>, s: SerState, t: ArgType, off: nat, v: Value<C>): SerState
    requires Typed(codec, t, v)
  {
    if !s.Ser? then s
    else if off + WireSize(t) > |s.buf| then SerUndefined
    else if t.Scalar? then Ser(Overwrite(s.buf, off, v.bytes), s.blobOff)
    else
      var data := Payload(codec, v);
      var blobSz := |data| % LIMIT32;
      if s.blobOff + blobSz > |s.buf| then SerUndefined
      else if blobSz < |data| then SerFailed(s.buf)
      else
        var buf1 := Overwrite(s.buf, s.blobOff, data);
        Ser(Overwrite(buf1, off, Pointer(s.blobOff, blobSz)), (s.blobOff + blobSz) % LIMIT32)
  }

  // The first n blocks.
  function SerSome<C>(codec: Codec<C>, buf: seq<Byte>, args: seq<ArgType>, xs: seq<Value<C>>, n: nat): SerState
    requires AllTyped(codec, args, xs) && n <= |args|
  {
    if n == 0 then Ser(buf, BlobStart(args) % LIMIT32)
    else SerOne(codec, SerSome(codec, buf, args, xs, n - 1), args[n - 1], Offset(args, n - 1), xs[n - 1])
  }

  // The bytes serialize writes into: with a blob, all of bytesFor; without one, the scalars alone.
  function Needed<C>(codec: Codec<C>, args: seq<ArgType>, xs: seq<Value<C>>, n: nat): nat
    requires n <= |args| == |xs|
  {
    if n == 0 then 0
    else
      var rest := Needed(codec, args, xs, n - 1);
      var slot := Offset(args, n);
      var blob := if IsBlob(args[n - 1]) then BlobOffset(codec, args, xs, n) else 0;
      if rest >= slot && rest >= blob then rest else if slot >= blob then slot else blob
  }

  // What argument i's slot holds.
  function Slot<C>(codec: Codec<C>, args: seq<ArgType>, xs: seq<Value<C>>, i: nat): seq<Byte>
    requires i < |args| == |xs|
  {
    if IsBlob(args[i]) then Pointer(BlobOffset(codec, args, xs, i), |Payload(codec, xs[i])|) else Payload(codec, xs[i])
  }

  // Argument i is in place: its slot, and its blob where the slot says.
  ghost predicate LaidOut<C>(codec: Codec<C>, args: seq<ArgType>, xs: seq<Value<C>>, m: seq<Byte>, i: nat)
    requires i < |args| == |xs|
  {
    var off, at := Offset(args, i), BlobOffset(codec, args, xs, i);
    && off + WireSize(args[i]) <= |m| && m[off..off + WireSize(args[i])] == Slot(codec, args, xs, i)
    && (IsBlob(args[i]) ==>
         at + |Payload(codec, xs[i])| <= |m| && m[at..at + |Payload(codec, xs[i])|] == Payload(codec, xs[i]))
  }

  // The first n arguments are in place and every byte outside their slots and blobs is untouched.
  ghost predicate Written<C>(codec: Codec<C>, args: seq<ArgType>, xs: seq<Value<C>>, buf: seq<Byte>, m: seq<Byte>,
                             n: nat)
    requires n <= |args| == |xs|
  {
    && |m| == |buf|
    && (forall i :: 0 <= i < n ==> LaidOut(codec, args, xs, m, i))
    && (forall k :: Offset(args, n) <= k < |m| && !(BlobStart(args) <= k < BlobOffset(codec, args, xs, n)) ==>
          m[k] == buf[k])
  }

  lemma SlotSize<C>(codec: Codec<C>, args: seq<ArgType>, xs: seq<Value<C>>, i: nat)
    requires AllTyped(codec, args, xs) && i < |args|
    ensures |Slot(codec, args, xs, i)| == WireSize(args[i])
  {
  }

  // Writing outside an argument's slot and blob leaves it in place.
  lemma StaysLaidOut<C>(codec: Codec<C>, args: seq<ArgType>, xs: seq<Value<C>>, m: seq<Byte>, i: nat, at: nat,
                        s: seq<Byte>)
    requires i < |args| == |xs| && LaidOut(codec, args, xs, m, i) && at + |s| <= |m|
    requires Offset(args, i) + WireSize(args[i]) <= at || at + |s| <= Offset(args, i)
    requires IsBlob(args[i]) ==> BlobOffset(codec, args, xs, i + 1) <= at || at + |s| <= BlobOffset(codec, args, xs, i)
    ensures LaidOut(codec, args, xs, Overwrite(m, at, s), i)
  {
    hide Overwrite, Slot;
    OverwriteKeeps(m, at, s, Offset(args, i), Offset(args, i) + WireSize(args[i]));
    if IsBlob(args[i]) {
      OverwriteKeeps(m, at, s, BlobOffset(codec, args, xs, i),
          BlobOffset(codec, args, xs, i) + |Payload(codec, xs[i])|);
    }
  }

  lemma WrittenNext<C>(codec: Codec<C>, args: seq<ArgType>, xs: seq<Value<C>>, buf: seq<Byte>, m: seq<Byte>, n: nat)
    requires AllTyped(codec, args, xs) && n < |args| && Written(codec, args, xs, buf, m, n)
    requires Offset(args, n + 1) <= |m|
    requires IsBlob(args[n]) ==> BlobOffset(codec, args, xs, n + 1) <= |m|
    ensures |Slot(codec, args, xs, n)| == WireSize(args[n])
    ensures var m1 := if IsBlob(args[n]) then Overwrite(m, BlobOffset(codec, args, xs, n), Payload(codec, xs[n]))
              else m;
            Written(codec, args, xs, buf, Overwrite(m1, Offset(args, n), Slot(codec, args, xs, n)), n + 1)
  {
    hide Overwrite, LaidOut, Slot, BlobStart;
    SlotSize(codec, args, xs, n);
    var off, at, slot, data := Offset(args, n), BlobOffset(codec, args, xs, n), Slot(codec, args, xs, n),
        Payload(codec, xs[n]);
    LayoutDisjoint(codec, args, xs, n, n);
    var m1 := if IsBlob(args[n]) then Overwrite(m, at, data) else m;
    var m2 := Overwrite(m1, off, slot);
    forall i | 0 <= i < n
      ensures LaidOut(codec, args, xs, m2, i)
    {
      LayoutDisjoint(codec, args, xs, i, n);
      LayoutDisjoint(codec, args, xs, n, i);
      BlobMonotone(codec, args, xs, i + 1, n);
      if IsBlob(args[n]) {
        StaysLaidOut(codec, args, xs, m, i, at, data);
      }
      StaysLaidOut(codec, args, xs, m1, i, off, slot);
    }
    if IsBlob(args[n]) {
      OverwriteBytes(m, at, data);
      OverwriteKeeps(m1, off, slot, at, at + |data|);
    }
    OverwriteBytes(m1, off, slot);
    NewlyLaidOut(codec, args, xs, m2, n);
  }

  lemma NewlyLaidOut<C>(codec: Codec<C>, args: seq<ArgType>, xs: seq<Value<C>>, m: seq<Byte>, n: nat)
    requires n < |args| == |xs|
    requires var off := Offset(args, n);
               off + WireSize(args[n]) <= |m| && m[off..off + WireSize(args[n])] == Slot(codec, args, xs, n)
    requires IsBlob(args[n]) ==>
               var at := BlobOffset(codec, args, xs, n);
               at + |Payload(codec, xs[n])| <= |m| && m[at..at + |Payload(codec, xs[n])|] == Payload(codec, xs[n])
    ensures LaidOut(codec, args, xs, m, n)
  {
  }

  // For a message that fits 32-bit offsets serialize stays inside its buffer exactly when the buffer has
  // the bytes it needs; then it succeeds, puts every argument in place and touches nothing else.
  lemma {:induction false} SerializeLaysOut<C>(codec: Codec<C>, buf: seq<Byte>, args: seq<ArgType>, xs: seq<Value<C>>,
                                               n: nat)
    requires AllTyped(codec, args, xs) && n <= |args| && BytesFor(codec, args, xs) < LIMIT32
    ensures var r := SerSome(codec, buf, args, xs, n);
            && (r == SerUndefined <==> |buf| < Needed(codec, args, xs, n))
            && (|buf| >= Needed(codec, args, xs, n) ==>
                  r.Ser? && r.blobOff == BlobOffset(codec, args, xs, n) && Written(codec, args, xs, buf, r.buf, n))
  {
    hide Written, Overwrite, Slot, BlobStart;
    if n == 0 {
      BlobMonotone(codec, args, xs, 0, |args|);
      DivUnique(BlobStart(args), LIMIT32, 0, BlobStart(args));
      WrittenNothing(codec, args, xs, buf);
    } else {
      hide SerOne;
      SerializeLaysOut(codec, buf, args, xs, n - 1);
      SerNext(codec, buf, args, xs, n, SerSome(codec, buf, args, xs, n - 1));
    }
  }

  lemma SerNext<C>(codec: Codec<C>, buf: seq<Byte>, args: seq<ArgType>, xs: seq<Value<C>>, n: nat, s: SerState)
    requires AllTyped(codec, args, xs) && 0 < n <= |args| && BytesFor(codec, args, xs) < LIMIT32
    requires s == SerUndefined <==> |buf| < Needed(codec, args, xs, n - 1)
    requires |buf| >= Needed(codec, args, xs, n - 1) ==>
               s.Ser? && s.blobOff == BlobOffset(codec, args, xs, n - 1) && Written(codec, args, xs, buf, s.buf, n - 1)
    ensures var r := SerOne(codec, s, args[n - 1], Offset(args, n - 1), xs[n - 1]);
            && (r == SerUndefined <==> |buf| < Needed(codec, args, xs, n))
            && (|buf| >= Needed(codec, args, xs, n) ==>
                  r.Ser? && r.blobOff == BlobOffset(codec, args, xs, n) && Written(codec, args, xs, buf, r.buf, n))
  {
    hide Written, Overwrite, Slot, BlobStart;
    if s.Ser? {
      BlobMonotone(codec, args, xs, n, |args|);
      var data := Payload(codec, xs[n - 1]);
      if IsBlob(args[n - 1]) {
        DivUnique(|data|, LIMIT32, 0, |data|);
        DivUnique(s.blobOff + |data|, LIMIT32, 0, s.blobOff + |data|);
      }
      WrittenSize(codec, args, xs, buf, s.buf, n - 1);
      if Offset(args, n) <= |s.buf| && (IsBlob(args[n - 1]) ==> BlobOffset(codec, args, xs, n) <= |s.buf|) {
        WrittenNext(codec, args, xs, buf, s.buf, n - 1);
        SlotIs(codec, args, xs, n - 1);
      }
    }
  }

  lemma WrittenNothing<C>(codec: Codec<C>, args: seq<ArgType>, xs: seq<Value<C>>, buf: seq<Byte>)
    requires |args| == |xs|
    ensures Written(codec, args, xs, buf, buf, 0)
  {
  }

  lemma WrittenSize<C>(codec: Codec<C>, args: seq<ArgType>, xs: seq<Value<C>>, buf: seq<Byte>, m: seq<Byte>, n: nat)
    requires n <= |args| == |xs| && Written(codec, args, xs, buf, m, n)
    ensures |m| == |buf|
  {
  }

  lemma SlotIs<C>(codec: Codec<C>, args: seq<ArgType>, xs: seq<Value<C>>, i: nat)
    requires i < |args| == |xs|
    ensures Slot(codec, args, xs, i) ==
            if IsBlob(args[i]) then Pointer(BlobOffset(codec, args, xs, i), |Payload(codec, xs[i])|)
              else Payload(codec, xs[i])
  {
  }

  // bytesFor is always enough, and with a last argument in the blob region exactly enough.
  lemma {:induction false} BytesForEnough<C>(codec: Codec<C>, args: seq<ArgType>, xs: seq<Value<C>>, n: nat)
    requires n <= |args| == |xs|
    ensures Needed(codec, args, xs, n) <= BlobOffset(codec, args, xs, n)
    ensures n > 0 && IsBlob(args[n - 1]) ==> Needed(codec, args, xs, n) == BlobOffset(codec, args, xs, n)
    ensures (forall i :: 0 <= i < n ==> !IsBlob(args[i])) ==> Needed(codec, args, xs, n) == Offset(args, n)
  {
    hide BlobStart;
    BlobStartSpec(args);
    OffsetMonotone(args, n, |args|);
    BlobMonotone(codec, args, xs, 0, n);
    if n == 0 {
    } else {
      BytesForEnough(codec, args, xs, n - 1);
    }
  }

  // ----- deserialize -----

  // Undefined: a subspan reached outside the input, which the emitted code does not check for.
  datatype DeState<C> = Undefined | Failed | Parsed(values: seq<Value<C>>)

  function Decoded<C>(codec: Codec<C>, t: ArgType, data: seq<Byte>): Option<Value<C>> {
    if t.Custom? then
      match codec.decode(t.id, data)
      case None => None
      case Some(c) => Some(Made(c))
    else Some(Raw(data))
  }

  // One argument's block, once the input is known to hold the scalars.
  function DeOne<C>(codec: Codec<C>, s: seq<Byte>, before: DeState<C>, t: ArgType, off: nat): DeState<C>
    requires off + WireSize(t) <= |s|
  {
    if !before.Parsed? then before
    else
      var range := s[off..off + WireSize(t)];
      if |range| == 0 then Failed
      else if t.Scalar? then Parsed(before.values + [Raw(range)])
      else
        var at, len := FromLe(range[..4]), FromLe(range[4..]);
        if at + len > |s| then Undefined
        else
          match Decoded(codec, t, s[at..at + len])
          case None => Failed
          case Some(v) => Parsed(before.values + [v])
  }

  function DeSome<C>(codec: Codec<C>, s: seq<Byte>, args: seq<ArgType>, n: nat): DeState<C>
    requires n <= |args| && ScalarBytes(args) <= |s|
  {
    if n == 0 then Parsed([])
    else
      OffsetMonotone(args, n, |args|);
      DeOne(codec, s, DeSome(codec, s, args, n - 1), args[n - 1], Offset(args, n - 1))
  }

  // The blob region is taken before anything is read, although the blobs are then found by their offsets.
  function Deserialize<C>(codec: Codec<C>, s: seq<Byte>, args: seq<ArgType>): DeState<C> {
    if |s| < ScalarBytes(args) then Failed
    else if BlobStart(args) > |s| then Undefined
    else DeSome(codec, s, args, |args|)
  }

  predicate NoVoid(args: seq<ArgType>) {
    forall i :: 0 <= i < |args| ==> WireSize(args[i]) > 0
  }

  lemma PointerReadsBack(off: nat, len: nat)
    requires off < LIMIT32 && len < LIMIT32
    ensures FromLe(Pointer(off, len)[..4]) == off && FromLe(Pointer(off, len)[4..]) == len
  {
    Le32(off);
    Le32(len);
    assert Pointer(off, len)[..4] == Le(off, 4) && Pointer(off, len)[4..] == Le(len, 4);
  }

  lemma ReadLaidOut<C(!new)>(codec: Codec<C>, args: seq<ArgType>, xs: seq<Value<C>>, s: seq<Byte>, i: nat,
                             values: seq<Value<C>>)
    requires AllTyped(codec, args, xs) && i < |args| && BytesFor(codec, args, xs) < LIMIT32
    requires LaidOut(codec, args, xs, s, i) && RoundTrips(codec) && WireSize(args[i]) > 0
    ensures DeOne(codec, s, Parsed(values), args[i], Offset(args, i)) == Parsed(values + [xs[i]])
  {
    hide BlobStart, Offset, BlobOffset, FromLe, Pointer, DeOne, BytesFor;
    DeCases(codec, s, values, args[i], Offset(args, i));
    SlotIs(codec, args, xs, i);
    if IsBlob(args[i]) {
      LayoutDisjoint(codec, args, xs, i, i);
      PointerReadsBack(BlobOffset(codec, args, xs, i), |Payload(codec, xs[i])|);
      DecodesBack(codec, args[i], xs[i]);
    }
  }

  lemma DecodesBack<C(!new)>(codec: Codec<C>, t: ArgType, v: Value<C>)
    requires Typed(codec, t, v) && RoundTrips(codec) && IsBlob(t)
    ensures Decoded(codec, t, Payload(codec, v)) == Some(v)
  {
  }

  lemma {:induction false} ReadsBack<C(!new)>(codec: Codec<C>, args: seq<ArgType>, xs: seq<Value<C>>, s: seq<Byte>,
                                              n: nat)
    requires AllTyped(codec, args, xs) && n <= |args| && BytesFor(codec, args, xs) < LIMIT32
    requires forall i :: 0 <= i < |args| ==> LaidOut(codec, args, xs, s, i)
    requires RoundTrips(codec) && ScalarBytes(args) <= |s|
    ensures DeSome(codec, s, args, n) ==
            if forall i :: 0 <= i < n ==> WireSize(args[i]) > 0 then Parsed(xs[..n]) else Failed
  {
    hide LaidOut, BlobStart;
    if n == 0 {
    } else {
      ReadsBack(codec, args, xs, s, n - 1);
      OffsetMonotone(args, n, |args|);
      if WireSize(args[n - 1]) > 0 {
        ReadLaidOut(codec, args, xs, s, n - 1, xs[..n - 1]);
        assert xs[..n] == xs[..n - 1] + [xs[n - 1]];
      }
    }
  }

  // Trailing bytes do not matter.
  lemma LaidOutInPrefix<C>(codec: Codec<C>, args: seq<ArgType>, xs: seq<Value<C>>, m: seq<Byte>, s: seq<Byte>, i: nat)
    requires i < |args| == |xs| && LaidOut(codec, args, xs, m, i) && m <= s
    ensures LaidOut(codec, args, xs, s, i)
  {
  }

  // The main result. For every argument list and all values whose message fits 32-bit offsets: serialized
  // into any buffer with room for bytesFor, whatever it held, the message deserializes, whatever trails
  // it, to exactly the values - provided no argument is void; with a void argument deserialize fails.
  lemma MessageRoundTrip<C(!new)>(codec: Codec<C>, buf: seq<Byte>, args: seq<ArgType>, xs: seq<Value<C>>,
                                  tail: seq<Byte>)
    requires AllTyped(codec, args, xs) && BytesFor(codec, args, xs) < LIMIT32 && RoundTrips(codec)
    requires |buf| >= BytesFor(codec, args, xs)
    ensures var r := SerSome(codec, buf, args, xs, |args|);
            && r.Ser? && |r.buf| == |buf|
            && Deserialize(codec, r.buf + tail, args) == (if NoVoid(args) then Parsed(xs) else Failed)
  {
    hide LaidOut, BlobStart, RoundTrips;
    SerializeLaysOut(codec, buf, args, xs, |args|);
    BytesForEnough(codec, args, xs, |args|);
    BlobStartSpec(args);
    BlobMonotone(codec, args, xs, 0, |args|);
    var m := SerSome(codec, buf, args, xs, |args|).buf;
    forall i | 0 <= i < |args|
      ensures LaidOut(codec, args, xs, m + tail, i)
    {
      LaidOutInPrefix(codec, args, xs, m, m + tail, i);
    }
    ReadsBack(codec, args, xs, m + tail, |args|);
    assert xs[..|args|] == xs;
  }

  // ----- inputs that are read past their end -----

  // Where argument i's blob is said to be, and how long.
  function PointerAt(args: seq<ArgType>, s: seq<Byte>, i: nat): (p: (nat, nat))
    requires i < |args| && Offset(args, i) + 8 <= |s|
  {
    (FromLe(s[Offset(args, i)..][..4]), FromLe(s[Offset(args, i)..][4..8]))
  }

  // Argument i is a blob whose pointer, as it came in, leads outside the input.
  predicate BadPointer(args: seq<ArgType>, s: seq<Byte>, i: nat)
    requires i < |args|
  {
    IsBlob(args[i]) && Offset(args, i) + 8 <= |s| && PointerAt(args, s, i).0 + PointerAt(args, s, i).1 > |s|
  }

  // Argument i takes space, its pointer stays inside, and its own deserializer accepts it.
  predicate Decodes<C>(codec: Codec<C>, args: seq<ArgType>, s: seq<Byte>, i: nat)
    requires i < |args|
  {
    && WireSize(args[i]) > 0
    && (IsBlob(args[i]) ==>
          && Offset(args, i) + 8 <= |s| && !BadPointer(args, s, i)
          && var p := PointerAt(args, s, i); Decoded(codec, args[i], s[p.0..p.0 + p.1]).Some?)
  }

  // The first argument among the first n that does not decode has a pointer that leads outside.
  predicate Misleads<C>(codec: Codec<C>, args: seq<ArgType>, s: seq<Byte>, n: nat)
    requires n <= |args|
  {
    exists i :: 0 <= i < n && BadPointer(args, s, i) && forall j :: 0 <= j < i ==> Decodes(codec, args, s, j)
  }

  // The input holds the scalars, but not the padding behind them, or such a pointer is followed.
  predicate ReadsPast<C>(codec: Codec<C>, args: seq<ArgType>, s: seq<Byte>) {
    ScalarBytes(args) <= |s| && (|s| < BlobStart(args) || Misleads(codec, args, s, |args|))
  }

  lemma OneArgument<C>(codec: Codec<C>, args: seq<ArgType>, s: seq<Byte>, i: nat, values: seq<Value<C>>)
    requires i < |args| && ScalarBytes(args) <= |s| && Offset(args, i) + WireSize(args[i]) <= |s|
    ensures var r := DeOne(codec, s, Parsed(values), args[i], Offset(args, i));
            && (r == Undefined <==> BadPointer(args, s, i))
            && (r.Parsed? <==> Decodes(codec, args, s, i))
  {
    hide FromLe, DeOne, BlobStart, Offset, Decoded;
    var off := Offset(args, i);
    var range := s[off..off + WireSize(args[i])];
    DeCases(codec, s, values, args[i], off);
    if IsBlob(args[i]) {
      assert range[..4] == s[off..][..4] && range[4..] == s[off..][4..8];
    }
  }

  lemma {:induction false} FirstArguments<C>(codec: Codec<C>, args: seq<ArgType>, s: seq<Byte>, n: nat)
    requires n <= |args| && ScalarBytes(args) <= |s|
    ensures DeSome(codec, s, args, n) == Undefined <==> Misleads(codec, args, s, n)
    ensures DeSome(codec, s, args, n).Parsed? <==> forall j :: 0 <= j < n ==> Decodes(codec, args, s, j)
  {
    hide BadPointer, Decodes, DeOne;
    if n == 0 {
      assert DeSome(codec, s, args, 0) == Parsed([]);
    } else {
      FirstArguments(codec, args, s, n - 1);
      OffsetMonotone(args, n, |args|);
      var before := DeSome(codec, s, args, n - 1);
      if before.Parsed? {
        OneArgument(codec, args, s, n - 1, before.values);
      } else {
        NotParsed(codec, s, before, args[n - 1], Offset(args, n - 1));
        var j: nat :| j < n - 1 && !Decodes(codec, args, s, j);
        BadDoesNotDecode(codec, args, s, n);
      }
    }
  }

  lemma NotParsed<C>(codec: Codec<C>, s: seq<Byte>, before: DeState<C>, t: ArgType, off: nat)
    requires off + WireSize(t) <= |s| && !before.Parsed?
    ensures DeOne(codec, s, before, t, off) == before
  {
  }

  lemma BadDoesNotDecode<C>(codec: Codec<C>, args: seq<ArgType>, s: seq<Byte>, n: nat)
    requires n <= |args|
    ensures forall i :: 0 <= i < n && BadPointer(args, s, i) ==> !Decodes(codec, args, s, i)
  {
  }

  // For every argument list and every input: deserialize reads past the end exactly then.
  lemma ReadsPastExact<C>(codec: Codec<C>, args: seq<ArgType>, s: seq<Byte>)
    ensures Deserialize(codec, s, args) == Undefined <==> ReadsPast(codec, args, s)
  {
    if ScalarBytes(args) <= |s| {
      FirstArguments(codec, args, s, |args|);
    }
  }

  // One blob, said to be eight bytes at offset 1000 of an input of eight bytes.
  lemma WildPointer<C>(codec: Codec<C>)
    ensures Deserialize(codec, Pointer(1000, 8), [Bytes]) == Undefined
  {
    hide FromLe, Pointer;
    var args, s := [Bytes], Pointer(1000, 8);
    PointerReadsBack(1000, 8);
    assert Offset(args, 0) == 0 && Offset(args, 1) == 8;
    assert s[0..] == s && s[..8][4..] == s[4..];
    assert BadPointer(args, s, 0);
    ReadsPastExact(codec, args, s);
  }

  // ----- the emitted code -----

  // bytesFor
  method BytesForMessage<C>(codec: Codec<C>, args: seq<ArgType>, xs: seq<Value<C>>) returns (len: nat)
    requires |args| == |xs|
    ensures len == BytesFor(codec, args, xs)
  {
    len := BlobStart(args);
    for i := 0 to |args|
      invariant len == BlobOffset(codec, args, xs, i)
    {
      if IsBlob(args[i]) {
        len := len + |Payload(codec, xs[i])|;
      }
    }
  }

  // The layout pass of the generator: the running sum that becomes the element offsets.
  method LayOut(args: seq<ArgType>) returns (sizes: seq<nat>, offsets: seq<nat>, scalarBytes: nat, blobStart: nat)
    ensures |sizes| == |offsets| == |args|
    ensures forall i :: 0 <= i < |args| ==> sizes[i] == WireSize(args[i])
    ensures forall i {:trigger offsets[i]} :: 0 <= i < |args| ==> offsets[i] == Offset(args, i)
    ensures scalarBytes == ScalarBytes(args)
    ensures blobStart == BlobStart(args)
  {
    sizes, offsets, scalarBytes := [], [], 0;
    for i := 0 to |args|
      invariant |sizes| == |offsets| == i && scalarBytes == Offset(args, i)
      invariant forall k :: 0 <= k < i ==> sizes[k] == WireSize(args[k])
      invariant forall k {:trigger offsets[k]} :: 0 <= k < i ==> offsets[k] == Offset(args, k)
    {
      var bytes := WireSize(args[i]);
      sizes, offsets := sizes + [bytes], offsets + [scalarBytes];
      scalarBytes := scalarBytes + bytes;
    }
    blobStart := (scalarBytes + 7) / 8 * 8;
  }

  // One argument's block, on the span s of buf behind head and before tail.
  method SerializeArg<C>(codec: Codec<C>, buf: array<Byte>, at: nat, t: ArgType, off: nat, v: Value<C>, blobOff: nat,
                         ghost head: seq<Byte>, ghost s: seq<Byte>, ghost tail: seq<Byte>)
    returns (blobOff': nat)
    requires Typed(codec, t, v) && SerOne(codec, Ser(s, blobOff), t, off, v).Ser?
    requires |head| == at && buf[..] == head + s + tail
    modifies buf
    ensures SerOne(codec, Ser(s, blobOff), t, off, v).blobOff == blobOff'
    ensures buf[..] == head + SerOne(codec, Ser(s, blobOff), t, off, v).buf + tail
  {
    hide SerOne, Overwrite, Pointer;
    SerCases(codec, Ser(s, blobOff), t, off, v);
    var data := Payload(codec, v);
    blobOff' := blobOff;
    if IsBlob(t) {
      var blobSz := |data| % LIMIT32;
      CopyIn(buf, at + blobOff, data);
      OverwriteAfter(head, s, tail, blobOff, data);
      CopyIn(buf, at + off, Pointer(blobOff, blobSz));
      OverwriteAfter(head, Overwrite(s, blobOff, data), tail, off, Pointer(blobOff, blobSz));
      blobOff' := (blobOff + blobSz) % LIMIT32;
    } else {
      CopyIn(buf, at + off, data);
      OverwriteAfter(head, s, tail, off, data);
    }
  }

  // serialize into the span of len bytes from buf[at] on, for a message that fits and a span with room for it
  method Serialize<C>(codec: Codec<C>, buf: array<Byte>, at: nat, len: nat, args: seq<ArgType>, xs: seq<Value<C>>)
    returns (ok: bool)
    requires AllTyped(codec, args, xs) && BytesFor(codec, args, xs) < LIMIT32
    requires BytesFor(codec, args, xs) <= len && at + len <= buf.Length
    modifies buf
    ensures ok
    ensures SerSome(codec, old(buf[at..at + len]), args, xs, |args|).Ser?
    ensures buf[..] == old(buf[..at]) + SerSome(codec, old(buf[at..at + len]), args, xs, |args|).buf +
              old(buf[at + len..])
  {
    hide SerOne, Needed, BlobStart;
    ghost var head, was, tail := buf[..at], buf[at..at + len], buf[at + len..];
    assert buf[..] == head + was + tail;
    BytesForEnough(codec, args, xs, |args|);
    SerializeLaysOut(codec, was, args, xs, |args|);
    var blobOff := BlobStart(args) % LIMIT32;
    for i := 0 to |args|
      invariant SerSome(codec, was, args, xs, i).Ser?
      invariant blobOff == SerSome(codec, was, args, xs, i).blobOff
      invariant buf[..] == head + SerSome(codec, was, args, xs, i).buf + tail
    {
      SerPrefix(codec, was, args, xs, i + 1, |args|);
      blobOff := SerializeArg(codec, buf, at, args[i], Offset(args, i), xs[i], blobOff,
                              head, SerSome(codec, was, args, xs, i).buf, tail);
    }
    ok := true;
  }

  lemma OverwriteAfter(head: seq<Byte>, m: seq<Byte>, tail: seq<Byte>, at: nat, s: seq<Byte>)
    requires at + |s| <= |m|
    ensures Overwrite(head + m + tail, |head| + at, s) == head + Overwrite(m, at, s) + tail
  {
  }

  // If the whole message can be serialized, so can its first arguments.
  lemma {:induction false} SerPrefix<C>(codec: Codec<C>, buf: seq<Byte>, args: seq<ArgType>, xs: seq<Value<C>>, i: nat,
                                        n: nat)
    requires AllTyped(codec, args, xs) && i <= n <= |args| && SerSome(codec, buf, args, xs, n).Ser?
    ensures SerSome(codec, buf, args, xs, i).Ser?
    decreases n
  {
    if i == n {
    } else {
      SerPrefix(codec, buf, args, xs, i, n - 1);
    }
  }

  lemma SerCases<C>(codec: Codec<C>, s: SerState, t: ArgType, off: nat, v: Value<C>)
    requires Typed(codec, t, v) && s.Ser? && SerOne(codec, s, t, off, v).Ser?
    ensures var data := Payload(codec, v);
            var r := SerOne(codec, s, t, off, v);
            && off + WireSize(t) <= |s.buf| == |r.buf|
            && (t.Scalar? ==> |data| == WireSize(t) && r == Ser(Overwrite(s.buf, off, data), s.blobOff))
            && (IsBlob(t) ==>
                  && |data| % LIMIT32 == |data| && s.blobOff + |data| <= |s.buf|
                  && r == Ser(Overwrite(Overwrite(s.buf, s.blobOff, data), off, Pointer(s.blobOff, |data|)),
                              (s.blobOff + |data|) % LIMIT32))
  {
  }

  // One argument's block.
  method DeserializeArg<C>(codec: Codec<C>, s: array<Byte>, t: ArgType, off: nat, ghost values: seq<Value<C>>)
    returns (r: Option<Value<C>>)
    requires off + WireSize(t) <= s.Length
    requires DeOne(codec, s[..], Parsed(values), t, off) != Undefined
    ensures DeOne(codec, s[..], Parsed(values), t, off) ==
              match r case None => Failed case Some(v) => Parsed(values + [v])
  {
    hide DeOne, FromLe;
    ghost var all := s[..];
    DeCases(codec, all, values, t, off);
    var range := s[off..off + WireSize(t)];
    assert range == all[off..off + WireSize(t)];
    if |range| == 0 {
      return None;
    }
    if IsBlob(t) {
      var blobDataOffset, blobSz := FromLe(range[..4]), FromLe(range[4..]);
      var data := s[blobDataOffset..blobDataOffset + blobSz];
      assert data == all[blobDataOffset..blobDataOffset + blobSz];
      r := Decoded(codec, t, data);
    } else {
      r := Some(Raw(range));
    }
  }

  // deserialize of an input that is not read past its end
  method DeserializeMessage<C>(codec: Codec<C>, s: array<Byte>, args: seq<ArgType>) returns (r: Option<seq<Value<C>>>)
    requires !ReadsPast(codec, args, s[..])
    ensures match Deserialize(codec, s[..], args)
            case Parsed(values) => r == Some(values)
            case _ => r == None
  {
    hide DeOne, ReadsPast;
    ghost var all := s[..];
    ReadsPastExact(codec, args, all);
    if s.Length < ScalarBytes(args) {
      return None;
    }
    var values := [];
    for i := 0 to |args|
      invariant DeSome(codec, all, args, i) == Parsed(values)
    {
      OffsetMonotone(args, i + 1, |args|);
      DePrefix(codec, all, args, i + 1, |args|);
      var v := DeserializeArg(codec, s, args[i], Offset(args, i), values);
      if v.None? {
        return None;
      }
      values := values + [v.value];
    }
    r := Some(values);
  }

  lemma {:induction false} DePrefix<C>(codec: Codec<C>, s: seq<Byte>, args: seq<ArgType>, i: nat, n: nat)
    requires i <= n <= |args| && ScalarBytes(args) <= |s|
    ensures !DeSome(codec, s, args, i).Parsed? ==> DeSome(codec, s, args, n) == DeSome(codec, s, args, i)
    decreases n
  {
    if i == n {
    } else {
      DePrefix(codec, s, args, i, n - 1);
      OffsetMonotone(args, n, |args|);
    }
  }

  lemma DeCases<C>(codec: Codec<C>, s: seq<Byte>, values: seq<Value<C>>, t: ArgType, off: nat)
    requires off + WireSize(t) <= |s|
    ensures var range := s[off..off + WireSize(t)];
            var r := DeOne(codec, s, Parsed(values), t, off);
            && (|range| == 0 ==> r == Failed)
            && (|range| > 0 && t.Scalar? ==> r == Parsed(values + [Raw(range)]))
            && (|range| > 0 && IsBlob(t) ==>
                  var at, len := FromLe(range[..4]), FromLe(range[4..]);
                  if at + len > |s| then r == Undefined
                  else
                    match Decoded(codec, t, s[at..at + len])
                    case None => r == Failed
                    case Some(v) => r == Parsed(values + [v]))
  {
  }
}

// What stands where in a message, byte by byte.
module WireBytes {
  import opened Division
  import opened ByteOrder
  import opened WireFormat
  import RemoteCalls

  // ----- little-endian integers -----

  // n without its low k bytes.
  function Above(n: nat, k: nat): nat {
    if k == 0 then n else Above(n / 256, k - 1)
  }

  lemma {:induction false} ByteOfLe(n: nat, size: nat, i: nat)
    requires i < size
    ensures Le(n, size)[i] == Above(n, i) % 256
  {
    if i == 0 {
    } else {
      ByteOfLe(n / 256, size - 1, i - 1);
    }
  }

  lemma {:induction false} LeSplit(n: nat, k: nat, j: nat)
    ensures Le(n, k + j) == Le(n, k) + Le(Above(n, k), j)
  {
    if k == 0 {
    } else {
      LeSplit(n / 256, k - 1, j);
    }
  }

  lemma AboveIs(n: nat)
    ensures Above(n, 1) == n / 0x100 && Above(n, 2) == n / 0x1_0000 && Above(n, 3) == n / 0x100_0000
    ensures Above(n, 4) == n / 0x1_0000_0000
  {
    assert Above(n, 1) == Above(n / 256, 0);
    assert Above(n, 2) == Above(n / 256, 1) == n / 256 / 256;
    assert Above(n, 3) == Above(n / 256, 2) == Above(n / 256 / 256, 1) == n / 256 / 256 / 256;
    assert Above(n, 4) == Above(n / 256, 3) == Above(n / 256 / 256, 2) == Above(n / 256 / 256 / 256, 1);
  }

  // Four bytes, the lowest first.
  predicate FourBytes(s: seq<Byte>, at: nat, n: nat) {
    && at + 4 <= |s|
    && s[at] == n % 256 && s[at + 1] == n / 0x100 % 256 && s[at + 2] == n / 0x1_0000 % 256
    && s[at + 3] == n / 0x100_0000 % 256
  }

  lemma FourBytesOf(n: nat)
    ensures FourBytes(Le(n, 4), 0, n)
  {
    hide Le;
    AboveIs(n);
    ByteOfLe(n, 4, 0);
    ByteOfLe(n, 4, 1);
    ByteOfLe(n, 4, 2);
    ByteOfLe(n, 4, 3);
  }

  // Four bytes that are part of a longer text.
  lemma FourBytesIn(s: seq<Byte>, at: nat, n: nat)
    requires at + 4 <= |s| && s[at..at + 4] == Le(n, 4)
    ensures FourBytes(s, at, n)
  {
    hide Le;
    FourBytesOf(n);
    var t := s[at..at + 4];
    assert t[0] == s[at] && t[1] == s[at + 1] && t[2] == s[at + 2] && t[3] == s[at + 3];
  }

  // ----- places -----

  // Bytes an argument takes among the scalars: its own size, or eight for a pointer.
  function Width(t: ArgType): nat {
    match t
    case Scalar(size) => size
    case Bytes => 8
    case Custom(_) => 8
  }

  // Arguments follow each other without gaps.
  function Widths(args: seq<ArgType>): nat {
    if args == [] then 0 else Width(args[0]) + Widths(args[1..])
  }

  // The bytes of blobs, without gaps.
  function Lengths<C>(codec: Codec<C>, args: seq<ArgType>, xs: seq<Value<C>>): nat
    requires |args| == |xs|
  {
    if args == [] then 0
    else (if args[0].Scalar? then 0 else |Payload(codec, xs[0])|) + Lengths(codec, args[1..], xs[1..])
  }

  lemma {:induction false} WidthsSnoc(args: seq<ArgType>, i: nat)
    requires i < |args|
    ensures Widths(args[..i + 1]) == Widths(args[..i]) + Width(args[i])
    decreases i
  {
    if i == 0 {
    } else {
      WidthsSnoc(args[1..], i - 1);
      assert args[..i + 1][1..] == args[1..][..i] && args[..i][1..] == args[1..][..i - 1];
    }
  }

  lemma {:induction false} OffsetIs(args: seq<ArgType>, i: nat)
    requires i <= |args|
    ensures Offset(args, i) == Widths(args[..i])
  {
    if i == 0 {
    } else {
      OffsetIs(args, i - 1);
      WidthsSnoc(args, i - 1);
    }
  }

  lemma {:induction false} LengthsSnoc<C>(codec: Codec<C>, args: seq<ArgType>, xs: seq<Value<C>>, i: nat)
    requires i < |args| == |xs|
    ensures Lengths(codec, args[..i + 1], xs[..i + 1]) ==
            Lengths(codec, args[..i], xs[..i]) + if args[i].Scalar? then 0 else |Payload(codec, xs[i])|
    decreases i
  {
    if i == 0 {
    } else {
      LengthsSnoc(codec, args[1..], xs[1..], i - 1);
      assert args[..i + 1][1..] == args[1..][..i] && args[..i][1..] == args[1..][..i - 1];
      assert xs[..i + 1][1..] == xs[1..][..i] && xs[..i][1..] == xs[1..][..i - 1];
    }
  }

  lemma {:induction false} BlobOffsetIs<C>(codec: Codec<C>, args: seq<ArgType>, xs: seq<Value<C>>, i: nat)
    requires i <= |args| == |xs|
    ensures BlobOffset(codec, args, xs, i) == BlobStart(args) + Lengths(codec, args[..i], xs[..i])
  {
    hide BlobStart;
    if i == 0 {
    } else {
      BlobOffsetIs(codec, args, xs, i - 1);
      LengthsSnoc(codec, args, xs, i - 1);
    }
  }

  // The blobs start at the next multiple of eight behind the scalars.
  lemma BlobsStart(args: seq<ArgType>)
    ensures var w := Widths(args); w <= BlobStart(args) < w + 8 && BlobStart(args) % 8 == 0
  {
    OffsetIs(args, |args|);
    assert args[..|args|] == args;
    BlobStartSpec(args);
  }

  // An argument in place: a scalar's bytes behind those of the arguments before it; for a blob the offset and the
  // length, four bytes each, and there its data, behind that of the blobs before it.
  ghost predicate InPlace<C>(codec: Codec<C>, args: seq<ArgType>, xs: seq<Value<C>>, m: seq<Byte>, start: nat, i: nat)
    requires i < |args| == |xs|
  {
    var data := Payload(codec, xs[i]);
    var off, at := Widths(args[..i]), start + Lengths(codec, args[..i], xs[..i]);
    if args[i].Scalar? then off + |data| <= |m| && m[off..off + |data|] == data
    else
      && FourBytes(m, off, at) && FourBytes(m, off + 4, |data|)
      && at + |data| <= |m| && m[at..at + |data|] == data
  }

  lemma PointerBytes(m: seq<Byte>, off: nat, at: nat, len: nat)
    requires off + 8 <= |m| && m[off..off + 8] == Pointer(at, len)
    ensures FourBytes(m, off, at) && FourBytes(m, off + 4, len)
  {
    hide Le, FourBytes;
    var p := m[off..off + 8];
    assert m[off..off + 4] == p[..4] == Le(at, 4);
    assert m[off + 4..off + 8] == p[4..] == Le(len, 4);
    FourBytesIn(m, off, at);
    FourBytesIn(m, off + 4, len);
  }

  lemma LaidOutInPlace<C>(codec: Codec<C>, args: seq<ArgType>, xs: seq<Value<C>>, m: seq<Byte>, i: nat)
    requires AllTyped(codec, args, xs) && i < |args| && LaidOut(codec, args, xs, m, i)
    ensures InPlace(codec, args, xs, m, BlobStart(args), i)
  {
    hide BlobStart, Le, FourBytes, Offset, BlobOffset, Widths, Lengths, Slot, Pointer;
    OffsetIs(args, i);
    BlobOffsetIs(codec, args, xs, i);
    SlotSize(codec, args, xs, i);
    SlotIs(codec, args, xs, i);
    if IsBlob(args[i]) {
      PointerBytes(m, Offset(args, i), BlobOffset(codec, args, xs, i), |Payload(codec, xs[i])|);
    }
  }

  // A serialized message holds every argument in its place.
  lemma SerializedBytes<C>(codec: Codec<C>, buf: seq<Byte>, args: seq<ArgType>, xs: seq<Value<C>>, i: nat)
    requires AllTyped(codec, args, xs) && BytesFor(codec, args, xs) < LIMIT32 && |buf| >= BytesFor(codec, args, xs)
    requires i < |args|
    ensures var r := SerSome(codec, buf, args, xs, |args|);
            && r.Ser? && InPlace(codec, args, xs, r.buf, BlobStart(args), i)
    ensures BytesFor(codec, args, xs) == BlobStart(args) + Lengths(codec, args, xs)
  {
    hide BlobStart, LaidOut, SerSome, InPlace;
    SerializeLaysOut(codec, buf, args, xs, |args|);
    BytesForEnough(codec, args, xs, |args|);
    LaidOutInPlace(codec, args, xs, SerSome(codec, buf, args, xs, |args|).buf, i);
    BlobOffsetIs(codec, args, xs, |args|);
    assert args[..|args|] == args && xs[..|xs|] == xs;
  }

  // What a value read from a message is: a scalar's bytes, or for a blob what the bytes its offset and length name
  // decode to.
  ghost predicate ReadFrom<C>(codec: Codec<C>, t: ArgType, v: Value<C>, s: seq<Byte>, off: nat) {
    && off + Width(t) <= |s|
    && match t
       case Scalar(size) => size > 0 && v == Raw(s[off..off + size])
       case Bytes => exists at: nat, len: nat :: Names(s, off, at, len) && v == Raw(s[at..at + len])
       case Custom(id) =>
         exists at: nat, len: nat ::
           Names(s, off, at, len) && v.Made? && codec.decode(id, s[at..at + len]) == Some(v.made)
  }

  ghost predicate Names(s: seq<Byte>, off: nat, at: nat, len: nat) {
    at + len <= |s| && FourBytes(s, off, at) && FourBytes(s, off + 4, len)
  }

  lemma FourBytesBack(t: seq<Byte>)
    requires |t| == 4
    ensures FourBytes(t, 0, FromLe(t))
  {
    hide Le, FromLe, FourBytes;
    LeInverts(t);
    FourBytesOf(FromLe(t));
  }

  lemma {:induction false} LeInverts(t: seq<Byte>)
    ensures Le(FromLe(t), |t|) == t
  {
    if t == [] {
    } else {
      DivUnique(FromLe(t), 256, FromLe(t[1..]), t[0]);
      LeInverts(t[1..]);
      assert t == [t[0]] + t[1..];
    }
  }

  lemma ReadOne<C>(codec: Codec<C>, s: seq<Byte>, values: seq<Value<C>>, t: ArgType, off: nat)
    requires off + WireSize(t) <= |s| && DeOne(codec, s, Parsed(values), t, off).Parsed?
    ensures var r := DeOne(codec, s, Parsed(values), t, off).values;
            |r| == |values| + 1 && r[..|values|] == values && ReadFrom(codec, t, r[|values|], s, off)
  {
    hide Le, FromLe, FourBytes;
    if IsBlob(t) {
      var range := s[off..off + 8];
      FourBytesBack(range[..4]);
      FourBytesBack(range[4..]);
      var at, len := FromLe(range[..4]), FromLe(range[4..]);
      FourBytesAt(s, off, range[..4], at);
      FourBytesAt(s, off + 4, range[4..], len);
      assert at + len <= |s| ==> Names(s, off, at, len);
    }
  }

  lemma FourBytesAt(s: seq<Byte>, off: nat, t: seq<Byte>, n: nat)
    requires off + 4 <= |s| && t == s[off..off + 4] && FourBytes(t, 0, n)
    ensures FourBytes(s, off, n)
  {
    assert t[0] == s[off] && t[1] == s[off + 1] && t[2] == s[off + 2] && t[3] == s[off + 3];
  }

  lemma {:induction false} ReadSome<C>(codec: Codec<C>, s: seq<Byte>, args: seq<ArgType>, n: nat)
    requires n <= |args| && ScalarBytes(args) <= |s| && DeSome(codec, s, args, n).Parsed?
    ensures var values := DeSome(codec, s, args, n).values;
            |values| == n && forall i :: 0 <= i < n ==> ReadFrom(codec, args[i], values[i], s, Widths(args[..i]))
  {
    hide DeOne, ReadFrom;
    if n == 0 {
    } else {
      OffsetMonotone(args, n, |args|);
      var before := DeSome(codec, s, args, n - 1);
      if !before.Parsed? {
        NotParsed(codec, s, before, args[n - 1], Offset(args, n - 1));
        assert false;
      }
      ReadSome(codec, s, args, n - 1);
      OffsetIs(args, n - 1);
      ReadOne(codec, s, before.values, args[n - 1], Offset(args, n - 1));
      var values := DeSome(codec, s, args, n).values;
      assert forall i :: 0 <= i < n - 1 ==> values[i] == values[..n - 1][i];
    }
  }

  // Whatever deserialize accepts holds all arguments, each in its place.
  lemma DeserializedBytes<C>(codec: Codec<C>, s: seq<Byte>, args: seq<ArgType>)
    requires Deserialize(codec, s, args).Parsed?
    ensures var values := Deserialize(codec, s, args).values;
            && |values| == |args| && Widths(args) <= |s|
            && forall i :: 0 <= i < |args| ==> ReadFrom(codec, args[i], values[i], s, Widths(args[..i]))
  {
    OffsetIs(args, |args|);
    assert args[..|args|] == args;
    ReadSome(codec, s, args, |args|);
  }

  // An input shorter than the scalars is refused.
  lemma TooShort<C>(codec: Codec<C>, s: seq<Byte>, args: seq<ArgType>)
    requires |s| < Widths(args)
    ensures Deserialize(codec, s, args) == Failed
  {
    OffsetIs(args, |args|);
    assert args[..|args|] == args;
  }

  // ----- messages of a call -----

  // Behind the sixteen bytes of the header the arguments stand in their places.
  lemma MessageBytes<C>(codec: Codec<C>, msg: seq<Byte>, kind: nat, flags: nat, tag: nat, args: seq<ArgType>,
                        xs: seq<Value<C>>, i: nat)
    requires RemoteCalls.IsMessage(codec, msg, kind, flags, tag, args, xs) && i < |args|
    ensures |msg| >= 16 && InPlace(codec, args, xs, msg[16..], BlobStart(args), i)
  {
    hide BlobStart, LaidOut, InPlace;
    LaidOutInPlace(codec, args, xs, msg[16..], i);
  }

  // Eight bytes of type, four of flags and four of tag, all with the lowest byte first.
  lemma HeaderBytes<C>(codec: Codec<C>, msg: seq<Byte>, kind: nat, flags: nat, tag: nat, args: seq<ArgType>,
                       xs: seq<Value<C>>)
    requires RemoteCalls.IsMessage(codec, msg, kind, flags, tag, args, xs)
    ensures FourBytes(msg, 0, kind) && FourBytes(msg, 4, kind / 0x1_0000_0000)
    ensures FourBytes(msg, 8, flags) && FourBytes(msg, 12, tag)
  {
    hide Le, BytesFor, AllTyped, LaidOut, FourBytes;
    var h := RemoteCalls.Header(kind, flags, tag);
    LeSplit(kind, 4, 4);
    AboveIs(kind);
    assert msg[0..4] == msg[..16][0..4] == h[0..4] == Le(kind, 4);
    assert msg[4..8] == msg[..16][4..8] == h[4..8] == Le(kind / 0x1_0000_0000, 4);
    assert msg[8..12] == msg[..16][8..12] == h[8..12] == Le(flags, 4);
    assert msg[12..16] == msg[..16][12..16] == h[12..16] == Le(tag, 4);
    FourBytesIn(msg, 0, kind);
    FourBytesIn(msg, 4, kind / 0x1_0000_0000);
    FourBytesIn(msg, 8, flags);
    FourBytesIn(msg, 12, tag);
  }

  // A request carries flag 1, a reply flag 2, and the reply repeats type and tag of its request.
  lemma CallBytes<C(!new)>(codec: Codec<C>, methods: seq<RemoteCalls.Method>, k: nat, tag: nat, request: seq<Byte>,
                           reply: seq<Byte>, xs: seq<Value<C>>, ys: seq<Value<C>>)
    requires k < |methods|
    requires RemoteCalls.IsMessage(codec, request, methods[k].id, RemoteCalls.REQUEST, tag, methods[k].params, xs)
    requires RemoteCalls.IsMessage(codec, reply, methods[k].id, RemoteCalls.RESPONSE, tag, methods[k].outs, ys)
    ensures FourBytes(request, 8, 1) && FourBytes(reply, 8, 2)
    ensures request[..8] == reply[..8] && request[12..16] == reply[12..16]
  {
    hide BytesFor, AllTyped, LaidOut, Le, FourBytes;
    HeaderBytes(codec, request, methods[k].id, RemoteCalls.REQUEST, tag, methods[k].params, xs);
    HeaderBytes(codec, reply, methods[k].id, RemoteCalls.RESPONSE, tag, methods[k].outs, ys);
    var h, g := RemoteCalls.Header(methods[k].id, RemoteCalls.REQUEST, tag),
                RemoteCalls.Header(methods[k].id, RemoteCalls.RESPONSE, tag);
    assert request[..8] == request[..16][..8] == h[..8] == g[..8] == reply[..16][..8];
    assert request[12..16] == request[..16][12..16] == h[12..16] == g[12..16] == reply[..16][12..16];
  }

  // ----- messages that are refused -----

  lemma KindIs(msg: seq<Byte>, id: nat)
    requires |msg| >= 16 && id < 0x1_0000_0000_0000_0000
    ensures RemoteCalls.KindOf(msg) == id <==> msg[0..8] == Le(id, 8)
  {
    hide FromLe, Le;
    RemoteCalls.Limits();
    FromLeInverts(id, 8);
    if RemoteCalls.KindOf(msg) == id {
      FromLeInjective(msg[0..8], Le(id, 8));
    }
  }

  // The server takes a message for a method only if the type in it is that of the method, and ignores it exactly if
  // there is a header, but of no method.
  lemma ServesOnlyItsMethods<C>(codec: Codec<C>, methods: seq<RemoteCalls.Method>, msg: seq<Byte>)
    requires RemoteCalls.DistinctIds(methods)
    ensures var r := RemoteCalls.Serve(codec, methods, msg);
            && (r.TooSmall? <==> |msg| < 16)
            && (r.Ignored? <==> |msg| >= 16 && forall k :: 0 <= k < |methods| ==> msg[0..8] != Le(methods[k].id, 8))
            && (r.Accepted? ==> r.call.index < |methods| && msg[0..8] == Le(methods[r.call.index].id, 8))
  {
    hide Le, FromLe, Deserialize;
    if |msg| >= 16 {
      forall k | 0 <= k < |methods|
        ensures RemoteCalls.KindOf(msg) == methods[k].id <==> msg[0..8] == Le(methods[k].id, 8)
      {
        KindIs(msg, methods[k].id);
      }
    }
  }

  // The client takes a message for the reply it waits for only if tag and type are those it sent.
  lemma AcceptsOnlyItsReply<C>(codec: Codec<C>, methods: seq<RemoteCalls.Method>, k: nat, tag: nat, msg: seq<Byte>)
    requires RemoteCalls.DistinctIds(methods) && k < |methods| && tag < LIMIT32
    ensures RemoteCalls.Accept(codec, methods, k, tag, msg).Some? <==>
              && |msg| >= 16 && msg[0..8] == Le(methods[k].id, 8) && msg[12..16] == Le(tag, 4)
              && Deserialize(codec, msg[16..], methods[k].outs).Parsed?
  {
    hide Le, FromLe, Deserialize;
    if |msg| >= 16 {
      KindIs(msg, methods[k].id);
      RemoteCalls.Limits();
      FromLeInverts(tag, 4);
      if RemoteCalls.TagOf(msg) == tag {
        FromLeInjective(msg[12..16], Le(tag, 4));
      }
    }
  }
}

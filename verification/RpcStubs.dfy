// The emitted stub classes: building messages in a transmit buffer, sending, dispatching and replying.
module RpcStubs {
  import opened ByteOrder
  import opened WireFormat
  import opened RemoteCalls

  // The connection: a lossless queue in each direction.
  class IoStream {
    var requests: seq<seq<Byte>>
    var replies: seq<seq<Byte>>

    constructor ()
      ensures requests == [] && replies == []
    {
      requests, replies := [], [];
    }
  }

  // What a serialized message looks like behind its header.
  lemma SentIsMessage<C>(codec: Codec<C>, kind: nat, flags: nat, tag: nat, args: seq<ArgType>, xs: seq<Value<C>>,
                         was: seq<Byte>, msg: seq<Byte>)
    requires Sendable(codec, args, xs) && |was| == BytesFor(codec, args, xs)
    requires SerSome(codec, was, args, xs, |args|).Ser?
    requires msg == Header(kind, flags, tag) + SerSome(codec, was, args, xs, |args|).buf
    ensures IsMessage(codec, msg, kind, flags, tag, args, xs)
  {
    hide LaidOut, Header, BytesFor, AllTyped;
    SerializeLaysOut(codec, was, args, xs, |args|);
    var m := SerSome(codec, was, args, xs, |args|).buf;
    assert msg[HEADER_BYTES..] == m && msg[..HEADER_BYTES] == Header(kind, flags, tag);
  }

  // The transmit buffer both stubs keep.
  class Transmitter {
    var txBuf: array<Byte>

    constructor ()
      ensures fresh(txBuf)
    {
      txBuf := new Byte[0];
    }

    // _ensureTxBuf: the old contents are lost when the buffer grows; the new ones are arbitrary.
    method EnsureTxBuf(payloadBytes: nat)
      modifies this
      ensures txBuf.Length >= HEADER_BYTES + payloadBytes + 16
      ensures txBuf == old(txBuf) || fresh(txBuf)
      ensures txBuf.Length >= old(txBuf.Length)
    {
      var len := HEADER_BYTES + payloadBytes + 16;
      if len > txBuf.Length {
        txBuf := new Byte[len];
      }
    }

    // Serialize a message behind the header's place, then write the header; the bytes that go out.
    method Build<C>(codec: Codec<C>, args: seq<ArgType>, xs: seq<Value<C>>, kind: nat, flags: nat, tag: nat)
      returns (msg: seq<Byte>)
      requires Sendable(codec, args, xs)
      modifies this, txBuf
      ensures txBuf == old(txBuf) || fresh(txBuf)
      ensures IsMessage(codec, msg, kind, flags, tag, args, xs)
    {
      hide Sendable, Header, IsMessage, AllTyped, BytesFor, Overwrite, SerSome, Needed;
      Fits(codec, args, xs);
      var numBytes := BytesForMessage(codec, args, xs);
      EnsureTxBuf(numBytes);
      ghost var t0 := txBuf[..];
      ghost var was := t0[HEADER_BYTES..HEADER_BYTES + numBytes];
      assert was == txBuf[HEADER_BYTES..HEADER_BYTES + numBytes];
      MessageSize(codec, was, args, xs);
      var ok := Serialize(codec, txBuf, HEADER_BYTES, numBytes, args, xs);
      ghost var m := SerSome(codec, was, args, xs, |args|).buf;
      ghost var t1 := txBuf[..];
      CopyIn(txBuf, 0, Header(kind, flags, tag));
      msg := txBuf[..HEADER_BYTES + numBytes];
      HeaderInFront(t1, Header(kind, flags, tag), t0[..HEADER_BYTES], m, t0[HEADER_BYTES + numBytes..]);
      SentIsMessage(codec, kind, flags, tag, args, xs, was, msg);
    }
  }

  lemma MessageSize<C>(codec: Codec<C>, was: seq<Byte>, args: seq<ArgType>, xs: seq<Value<C>>)
    requires AllTyped(codec, args, xs) && BytesFor(codec, args, xs) < LIMIT32 && |was| == BytesFor(codec, args, xs)
    ensures SerSome(codec, was, args, xs, |args|).Ser? && |SerSome(codec, was, args, xs, |args|).buf| == |was|
  {
    hide LaidOut;
    SerializeLaysOut(codec, was, args, xs, |args|);
    BytesForEnough(codec, args, xs, |args|);
  }

  lemma HeaderInFront(t: seq<Byte>, h: seq<Byte>, old16: seq<Byte>, m: seq<Byte>, rest: seq<Byte>)
    requires |h| == |old16| && t == old16 + m + rest
    ensures Overwrite(t, 0, h)[..|h| + |m|] == h + m
  {
  }

  lemma Fits<C>(codec: Codec<C>, args: seq<ArgType>, xs: seq<Value<C>>)
    requires Sendable(codec, args, xs)
    ensures AllTyped(codec, args, xs) && BytesFor(codec, args, xs) < LIMIT32
  {
  }

  class Client<C> {
    const io: IoStream
    const codec: Codec<C>
    const methods: seq<Method>
    const tx: Transmitter
    var nextTag: nat

    constructor (io: IoStream, codec: Codec<C>, methods: seq<Method>)
      ensures this.io == io && this.codec == codec && this.methods == methods
      ensures fresh(tx) && fresh(tx.txBuf) && nextTag == 0
    {
      this.io, this.codec, this.methods, nextTag := io, codec, methods, 0;
      tx := new Transmitter();
    }

    // The sending half of the call method: one request at the end of the queue, holding exactly the call.
    method Call(c: RemoteCalls.Call<C>) returns (sentTag: nat)
      requires GoodCall(codec, methods, c)
      modifies this`nextTag, tx, tx.txBuf, io`requests
      ensures tx.txBuf == old(tx.txBuf) || fresh(tx.txBuf)
      ensures sentTag == nextTag == (old(nextTag) + 1) % LIMIT32
      ensures |io.requests| == |old(io.requests)| + 1 && io.requests[..|old(io.requests)|] == old(io.requests)
      ensures IsMessage(codec, io.requests[|old(io.requests)|], methods[c.index].id, REQUEST, sentTag,
                methods[c.index].params, c.args)
    {
      hide IsMessage, Sendable;
      nextTag := (nextTag + 1) % LIMIT32;
      sentTag := nextTag;
      var msg := tx.Build(codec, methods[c.index].params, c.args, methods[c.index].id, REQUEST, sentTag);
      io.requests := io.requests + [msg];
    }

    // The receiving half: the reply at the head of the queue, or nothing when one of the checks fails.
    method AwaitReply(k: nat, sentTag: nat) returns (r: Option<seq<Value<C>>>)
      requires k < |methods| && io.replies != []
      requires !MisleadsClient(codec, methods, k, sentTag, io.replies[0])
      modifies io`replies
      ensures r == Accept(codec, methods, k, sentTag, old(io.replies[0]))
      ensures io.replies == old(io.replies[1..])
    {
      var buf := io.replies[0];
      io.replies := io.replies[1..];
      if |buf| < HEADER_BYTES {
        return None;
      }
      if TagOf(buf) != sentTag {
        return None;
      } else if KindOf(buf) != methods[k].id {
        return None;
      }
      var payload := new Byte[|buf| - HEADER_BYTES](i requires 0 <= i < |buf| - HEADER_BYTES => buf[HEADER_BYTES + i]);
      assert payload[..] == buf[HEADER_BYTES..];
      r := DeserializeMessage(codec, payload, methods[k].outs);
    }
  }

  class Server<C, S> {
    const io: IoStream
    const codec: Codec<C>
    const methods: seq<Method>
    const impl: Impl<C, S>
    const tx: Transmitter
    var state: S

    constructor (io: IoStream, codec: Codec<C>, methods: seq<Method>, impl: Impl<C, S>, state: S)
      ensures this.io == io && this.codec == codec && this.methods == methods
      ensures this.impl == impl && this.state == state
      ensures fresh(tx) && fresh(tx.txBuf)
    {
      this.io, this.codec, this.methods, this.impl, this.state := io, codec, methods, impl, state;
      tx := new Transmitter();
    }

    // runOne, without blocking.
    method RunOne() returns (cont: bool)
      requires io.requests != [] ==> !MisleadsServer(codec, methods, io.requests[0])
      requires io.requests != [] && Serve(codec, methods, io.requests[0]).Accepted? ==>
                 var c := Serve(codec, methods, io.requests[0]).call;
                 c.index < |methods| && Sendable(codec, methods[c.index].outs, impl(state, c).1)
      modifies this`state, tx, tx.txBuf, io
      ensures tx.txBuf == old(tx.txBuf) || fresh(tx.txBuf)
      ensures old(io.requests) == [] ==>
                !cont && io.requests == [] && state == old(state) && io.replies == old(io.replies)
      ensures old(io.requests) != [] ==> io.requests == old(io.requests[1..])
      ensures old(io.requests) != [] ==> Served(old(io.requests[0]), old(state), old(io.replies), cont)
    {
      hide IsMessage, Sendable, ReadsPast;
      if io.requests == [] {
        return false;
      }
      var buf := io.requests[0];
      io.requests := io.requests[1..];
      if |buf| < HEADER_BYTES {
        return false;
      }
      var payload := new Byte[|buf| - HEADER_BYTES](i requires 0 <= i < |buf| - HEADER_BYTES => buf[HEADER_BYTES + i]);
      assert payload[..] == buf[HEADER_BYTES..];
      var k := Find(methods, KindOf(buf));
      if k < |methods| {
        Marshall(k, TagOf(buf), payload, buf);
      }
      cont := true;
    }

    // The effect of one message on the implementation and on the replies.
    ghost predicate Served(msg: seq<Byte>, was: S, replies: seq<seq<Byte>>, cont: bool)
      reads this`state, io`replies
    {
      match Serve(codec, methods, msg)
      case TooSmall => !cont && state == was && io.replies == replies
      case Accepted(c) =>
        && cont && c.index < |methods| && state == impl(was, c).0
        && if methods[c.index].isAsync then io.replies == replies
           else
             && |io.replies| == |replies| + 1 && io.replies[..|replies|] == replies
             && IsMessage(codec, io.replies[|replies|], methods[c.index].id, RESPONSE, TagOf(msg),
                  methods[c.index].outs, impl(was, c).1)
      case _ => cont && state == was && io.replies == replies
    }

    // The marshalling method of the k-th method.
    method Marshall(k: nat, tag: nat, payload: array<Byte>, ghost msg: seq<Byte>)
      requires k < |methods| && |msg| >= HEADER_BYTES && payload[..] == msg[HEADER_BYTES..]
      requires k == Find(methods, KindOf(msg)) && tag == TagOf(msg) && methods[k].id == KindOf(msg)
      requires !ReadsPast(codec, methods[k].params, payload[..])
      requires Serve(codec, methods, msg).Accepted? ==>
                 var c := Serve(codec, methods, msg).call;
                 c.index < |methods| && Sendable(codec, methods[c.index].outs, impl(state, c).1)
      modifies this`state, tx, tx.txBuf, io`replies
      ensures tx.txBuf == old(tx.txBuf) || fresh(tx.txBuf)
      ensures Served(msg, old(state), old(io.replies), true)
    {
      hide IsMessage, Sendable, Deserialize, ReadsPast;
      ReadsPastExact(codec, methods[k].params, payload[..]);
      var request := DeserializeMessage(codec, payload, methods[k].params);
      if request.None? {
        return;
      }
      var c := RemoteCalls.Call(k, request.value);
      assert Serve(codec, methods, msg) == Accepted(c);
      var (next, retVal) := impl(state, c);
      state := next;
      if !methods[k].isAsync {
        var reply := tx.Build(codec, methods[k].outs, retVal, methods[k].id, RESPONSE, tag);
        io.replies := io.replies + [reply];
      }
    }
  }

  // One synchronous call over an idle connection, through both stubs: the caller gets what the
  // implementation returns, the implementation's state is as after a direct call, and the queues are idle.
  method RemoteCall<C(!new), S(!new)>(client: Client<C>, server: Server<C, S>, c: RemoteCalls.Call<C>)
    returns (r: Option<seq<Value<C>>>)
    requires client.io == server.io && client.codec == server.codec && client.methods == server.methods
    requires client.tx != server.tx && client.tx.txBuf != server.tx.txBuf
    requires GoodInterface(client.codec, client.methods, server.impl)
    requires GoodCall(client.codec, client.methods, c) && !client.methods[c.index].isAsync
    requires client.io.requests == [] && client.io.replies == []
    modifies client`nextTag, client.tx, client.tx.txBuf, client.io, server`state, server.tx, server.tx.txBuf
    ensures r == Some(server.impl(old(server.state), c).1)
    ensures server.state == server.impl(old(server.state), c).0
    ensures client.io.requests == [] && client.io.replies == []
  {
    hide IsMessage, Sendable, Serve, Accept, RoundTrips, DistinctIds, NoVoid, MisleadsServer, MisleadsClient;
    var sentTag := client.Call(c);
    ghost var request := client.io.requests[0];
    RequestUnderstood(client.codec, client.methods, c, sentTag, request);
    BrokenExact(client.codec, client.methods, request);
    var cont := server.RunOne();
    var values := server.impl(old(server.state), c).1;
    ReplyUnderstood(client.codec, client.methods, c.index, sentTag, values, client.io.replies[0]);
    AcceptedIsDefined(client.codec, client.methods, c.index, sentTag, client.io.replies[0]);
    r := client.AwaitReply(c.index, sentTag);
  }

  lemma AcceptedIsDefined<C>(codec: Codec<C>, methods: seq<Method>, k: nat, tag: nat, msg: seq<Byte>)
    requires k < |methods| && Accept(codec, methods, k, tag, msg).Some?
    ensures !MisleadsClient(codec, methods, k, tag, msg)
  {
    hide ReadsPast, Deserialize;
    if |msg| >= HEADER_BYTES {
      ReadsPastExact(codec, methods[k].outs, msg[HEADER_BYTES..]);
    }
  }
}

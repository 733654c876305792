// Remote calls as the emitted client and server stubs make them (CodeGenerator+Client.cpp,
// CodeGenerator+Server.cpp), over a lossless queue in each direction.
module RemoteCalls {
  import opened ByteOrder
  import opened WireFormat

  const LIMIT64: nat := 0x1_0000_0000_0000_0000
  const HEADER_BYTES: nat := 16
  const REQUEST: nat := 1
  const RESPONSE: nat := 2

  datatype Method = Method(id: nat, params: seq<ArgType>, outs: seq<ArgType>, isAsync: bool)

  // A call: the index of its method and its arguments.
  datatype Call<C> = Call(index: nat, args: seq<Value<C>>)

  // The implementation behind the server: its state and what each call does to it and returns.
  type Impl<!C, !S> = (S, Call<C>) -> (S, seq<Value<C>>)

  // ----- messages -----

  function Header(kind: nat, flags: nat, tag: nat): (h: seq<Byte>)
    ensures |h| == HEADER_BYTES
  {
    Le(kind, 8) + Le(flags, 4) + Le(tag, 4)
  }

  function KindOf(msg: seq<Byte>): nat
    requires |msg| >= HEADER_BYTES
  {
    FromLe(msg[0..8])
  }

  function TagOf(msg: seq<Byte>): nat
    requires |msg| >= HEADER_BYTES
  {
    FromLe(msg[12..16])
  }

  // A message with the given header whose payload holds the values; padding bytes are arbitrary.
  ghost predicate IsMessage<C>(codec: Codec<C>, msg: seq<Byte>, kind: nat, flags: nat, tag: nat, args: seq<ArgType>,
                               xs: seq<Value<C>>) {
    && AllTyped(codec, args, xs) && |msg| == HEADER_BYTES + BytesFor(codec, args, xs)
    && msg[..HEADER_BYTES] == Header(kind, flags, tag)
    && forall i :: 0 <= i < |args| ==> LaidOut(codec, args, xs, msg[HEADER_BYTES..], i)
  }

  lemma Limits()
    ensures Pow256(4) == LIMIT32 && Pow256(8) == LIMIT64
  {
  }

  lemma HeaderReadsBack(msg: seq<Byte>, kind: nat, flags: nat, tag: nat)
    requires kind < LIMIT64 && tag < LIMIT32
    requires |msg| >= HEADER_BYTES && msg[..HEADER_BYTES] == Header(kind, flags, tag)
    ensures KindOf(msg) == kind && TagOf(msg) == tag
  {
    Limits();
    FromLeInverts(kind, 8);
    FromLeInverts(tag, 4);
    var h := Header(kind, flags, tag);
    assert msg[0..8] == msg[..HEADER_BYTES][0..8] == h[0..8] == Le(kind, 8);
    assert msg[12..16] == msg[..HEADER_BYTES][12..16] == h[12..16] == Le(tag, 4);
  }

  lemma PayloadReadsBack<C(!new)>(codec: Codec<C>, msg: seq<Byte>, kind: nat, flags: nat, tag: nat, args: seq<ArgType>,
                                  xs: seq<Value<C>>)
    requires IsMessage(codec, msg, kind, flags, tag, args, xs)
    requires RoundTrips(codec) && BytesFor(codec, args, xs) < LIMIT32
    ensures Deserialize(codec, msg[HEADER_BYTES..], args) == if NoVoid(args) then Parsed(xs) else Failed
  {
    hide LaidOut, BlobStart, RoundTrips;
    BlobStartSpec(args);
    BlobMonotone(codec, args, xs, 0, |args|);
    ReadsBack(codec, args, xs, msg[HEADER_BYTES..], |args|);
    assert xs[..|args|] == xs;
  }

  // ----- dispatch -----

  // The case of the switch that matches a type, or the number of methods when none does.
  function Find(methods: seq<Method>, kind: nat): (k: nat)
    ensures k <= |methods| && (k < |methods| ==> methods[k].id == kind)
    ensures forall j :: 0 <= j < k ==> methods[j].id != kind
  {
    if methods == [] || methods[0].id == kind then 0
    else
      var k := Find(methods[1..], kind);
      assert forall j :: 0 < j < k + 1 ==> methods[j] == methods[1..][j - 1];
      1 + k
  }

  ghost predicate DistinctIds(methods: seq<Method>) {
    && (forall k :: 0 <= k < |methods| ==> methods[k].id < LIMIT64)
    && (forall j, k :: 0 <= j < k < |methods| ==> methods[j].id != methods[k].id)
  }

  lemma FindsMethod(methods: seq<Method>, k: nat)
    requires DistinctIds(methods) && k < |methods|
    ensures Find(methods, methods[k].id) == k
  {
  }

  // What the server makes of one message: nothing it can act on, or a call.
  datatype Served<C> = TooSmall | Ignored | Rejected | Broken | Accepted(call: Call<C>)

  function Serve<C>(codec: Codec<C>, methods: seq<Method>, msg: seq<Byte>): Served<C> {
    if |msg| < HEADER_BYTES then TooSmall
    else
      var k := Find(methods, KindOf(msg));
      if k == |methods| then Ignored
      else
        match Deserialize(codec, msg[HEADER_BYTES..], methods[k].params)
        case Undefined => Broken
        case Failed => Rejected
        case Parsed(values) => Accepted(Call(k, values))
  }

  // A message whose payload the server (the client, for method k and tag sentTag) reads past its end.
  predicate MisleadsServer<C>(codec: Codec<C>, methods: seq<Method>, msg: seq<Byte>) {
    && |msg| >= HEADER_BYTES
    && var k := Find(methods, KindOf(msg));
       k < |methods| && ReadsPast(codec, methods[k].params, msg[HEADER_BYTES..])
  }

  predicate MisleadsClient<C>(codec: Codec<C>, methods: seq<Method>, k: nat, sentTag: nat, msg: seq<Byte>)
    requires k < |methods|
  {
    && |msg| >= HEADER_BYTES && TagOf(msg) == sentTag && KindOf(msg) == methods[k].id
    && ReadsPast(codec, methods[k].outs, msg[HEADER_BYTES..])
  }

  lemma BrokenExact<C>(codec: Codec<C>, methods: seq<Method>, msg: seq<Byte>)
    ensures Serve(codec, methods, msg) == Broken <==> MisleadsServer(codec, methods, msg)
  {
    hide ReadsPast, Deserialize;
    if |msg| >= HEADER_BYTES {
      var k := Find(methods, KindOf(msg));
      if k < |methods| {
        ReadsPastExact(codec, methods[k].params, msg[HEADER_BYTES..]);
      }
    }
  }

  // What the client makes of a reply to method k with tag sentTag; none when one of its checks fails.
  function Accept<C>(codec: Codec<C>, methods: seq<Method>, k: nat, sentTag: nat, msg: seq<Byte>): Option<seq<Value<C>>>
    requires k < |methods|
  {
    if |msg| < HEADER_BYTES || TagOf(msg) != sentTag || KindOf(msg) != methods[k].id then None
    else
      match Deserialize(codec, msg[HEADER_BYTES..], methods[k].outs)
      case Parsed(values) => Some(values)
      case _ => None
  }

  // ----- what is asked of an interface and its implementation -----

  ghost predicate Sendable<C>(codec: Codec<C>, args: seq<ArgType>, xs: seq<Value<C>>) {
    AllTyped(codec, args, xs) && BytesFor(codec, args, xs) < LIMIT32
  }

  ghost predicate GoodCall<C>(codec: Codec<C>, methods: seq<Method>, c: Call<C>) {
    c.index < |methods| && Sendable(codec, methods[c.index].params, c.args)
  }

  // Distinct ids, no void arguments or results; what the implementation returns has the declared types
  // and fits a message.
  ghost predicate GoodInterface<C(!new), S(!new)>(codec: Codec<C>, methods: seq<Method>, impl: Impl<C, S>) {
    && RoundTrips(codec) && DistinctIds(methods)
    && (forall k :: 0 <= k < |methods| ==> NoVoid(methods[k].params) && NoVoid(methods[k].outs))
    && (forall s: S, c: Call<C> :: GoodCall(codec, methods, c) ==> Sendable(codec, methods[c.index].outs, impl(s, c).1))
  }

  // A request is understood as exactly the call it was made from.
  lemma RequestUnderstood<C(!new)>(codec: Codec<C>, methods: seq<Method>, c: Call<C>, tag: nat, msg: seq<Byte>)
    requires RoundTrips(codec) && DistinctIds(methods) && GoodCall(codec, methods, c)
    requires NoVoid(methods[c.index].params) && tag < LIMIT32
    requires IsMessage(codec, msg, methods[c.index].id, REQUEST, tag, methods[c.index].params, c.args)
    ensures Serve(codec, methods, msg) == Accepted(c) && TagOf(msg) == tag && |msg| >= HEADER_BYTES
  {
    hide Deserialize, RoundTrips, NoVoid, LaidOut;
    var m := methods[c.index];
    HeaderReadsBack(msg, m.id, REQUEST, tag);
    FindsMethod(methods, c.index);
    PayloadReadsBack(codec, msg, m.id, REQUEST, tag, m.params, c.args);
  }

  // A reply to it is accepted, and gives exactly the values it was made from.
  lemma ReplyUnderstood<C(!new)>(codec: Codec<C>, methods: seq<Method>, k: nat, tag: nat, values: seq<Value<C>>,
                                 msg: seq<Byte>)
    requires RoundTrips(codec) && DistinctIds(methods) && k < |methods| && NoVoid(methods[k].outs) && tag < LIMIT32
    requires Sendable(codec, methods[k].outs, values)
    requires IsMessage(codec, msg, methods[k].id, RESPONSE, tag, methods[k].outs, values)
    ensures Accept(codec, methods, k, tag, msg) == Some(values)
  {
    hide Deserialize, RoundTrips, NoVoid, LaidOut;
    HeaderReadsBack(msg, methods[k].id, RESPONSE, tag);
    PayloadReadsBack(codec, msg, methods[k].id, RESPONSE, tag, methods[k].outs, values);
  }

  // A call with a void argument is never carried out: the server rejects the request, so a client that
  // waits for the reply waits for ever.
  lemma VoidNeverServed<C(!new)>(codec: Codec<C>, methods: seq<Method>, c: Call<C>, tag: nat, msg: seq<Byte>)
    requires RoundTrips(codec) && DistinctIds(methods) && GoodCall(codec, methods, c) && tag < LIMIT32
    requires IsMessage(codec, msg, methods[c.index].id, REQUEST, tag, methods[c.index].params, c.args)
    ensures Serve(codec, methods, msg) == Rejected <==> !NoVoid(methods[c.index].params)
  {
    hide Deserialize, RoundTrips, NoVoid, LaidOut;
    var m := methods[c.index];
    HeaderReadsBack(msg, m.id, REQUEST, tag);
    FindsMethod(methods, c.index);
    PayloadReadsBack(codec, msg, m.id, REQUEST, tag, m.params, c.args);
  }

  // ----- the system -----

  datatype Waiting = NotWaiting | Waiting(index: nat, tag: nat)

  // Both queues, the client's tag counter and what it waits for, the implementation's state; and, for the
  // specification, every call made so far and every result handed to a caller.
  datatype World<C, S> = World(requests: seq<seq<Byte>>, replies: seq<seq<Byte>>, nextTag: nat, waiting: Waiting,
                               state: S,
                               log: seq<Call<C>>, results: seq<seq<Value<C>>>)

  datatype Step<C> = Send(call: Call<C>, request: seq<Byte>) | Process(reply: seq<Byte>) | Receive

  // Send: the stub takes the next tag, sends the request, and waits unless the method is async.
  // Process: runOne. Receive: the waiting stub takes the reply. Messages that fail a check are errors, and
  // no error is a step.
  ghost predicate Next<C(!new), S>(codec: Codec<C>, methods: seq<Method>, impl: Impl<C, S>, w: World<C, S>, e: Step<C>,
                                   w': World<C, S>) {
    match e
    case Send(c, msg) =>
      var tag := (w.nextTag + 1) % LIMIT32;
      && w.waiting == NotWaiting && GoodCall(codec, methods, c)
      && IsMessage(codec, msg, methods[c.index].id, REQUEST, tag, methods[c.index].params, c.args)
      && w' == w.(requests := w.requests + [msg], nextTag := tag, log := w.log + [c],
                  waiting := if methods[c.index].isAsync then NotWaiting else Waiting(c.index, tag))
    case Process(reply) =>
      && w.requests != [] && Serve(codec, methods, w.requests[0]).Accepted?
      && var c := Serve(codec, methods, w.requests[0]).call;
         var m := methods[c.index];
         var (s', values) := impl(w.state, c);
         if m.isAsync then w' == w.(requests := w.requests[1..], state := s')
         else
           && IsMessage(codec, reply, m.id, RESPONSE, TagOf(w.requests[0]), m.outs, values)
           && w' == w.(requests := w.requests[1..], state := s', replies := w.replies + [reply])
    case Receive =>
      && w.waiting.Waiting? && w.waiting.index < |methods| && w.replies != []
      && var r := Accept(codec, methods, w.waiting.index, w.waiting.tag, w.replies[0]);
         r.Some? && w' == w.(replies := w.replies[1..], waiting := NotWaiting, results := w.results + [r.value])
  }

  // The implementation's state after some calls, made directly one after the other.
  ghost function StateAfter<C, S>(impl: Impl<C, S>, s0: S, calls: seq<Call<C>>): S {
    if calls == [] then s0 else impl(StateAfter(impl, s0, calls[..|calls| - 1]), calls[|calls| - 1]).0
  }

  // What direct calls of the methods that return something would have returned.
  ghost function DirectResults<C, S>(methods: seq<Method>, impl: Impl<C, S>, s0: S,
                                     calls: seq<Call<C>>): seq<seq<Value<C>>>
    requires forall i :: 0 <= i < |calls| ==> calls[i].index < |methods|
  {
    if calls == [] then []
    else
      var front, c := calls[..|calls| - 1], calls[|calls| - 1];
      DirectResults(methods, impl, s0, front) +
      (if methods[c.index].isAsync then [] else [impl(StateAfter(impl, s0, front), c).1])
  }

  // The pending requests are the last calls of the log, in order; all but the one a caller waits for are
  // async; a caller that waits for no pending request has its reply in the queue.
  ghost predicate Inv<C(!new), S>(codec: Codec<C>, methods: seq<Method>, impl: Impl<C, S>, s0: S, w: World<C, S>) {
    && w.nextTag < LIMIT32
    && |w.requests| <= |w.log| && (forall i :: 0 <= i < |w.log| ==> GoodCall(codec, methods, w.log[i]))
    && var served := |w.log| - |w.requests|;
       var last := |w.log| - 1;
       && (forall i :: 0 <= i < |w.requests| ==> PendingRequest(codec, methods, w.requests[i], w.log[served + i]))
       && (forall i :: served <= i < |w.log| && (w.waiting.Waiting? ==> i < last) ==> methods[w.log[i].index].isAsync)
       && w.state == StateAfter(impl, s0, w.log[..served])
       && match w.waiting
          case NotWaiting => w.replies == [] && w.results == DirectResults(methods, impl, s0, w.log)
          case Waiting(k, tag) =>
            && last >= 0 && w.log[last].index == k && !methods[k].isAsync && tag < LIMIT32
            && w.results == DirectResults(methods, impl, s0, w.log[..last])
            && if w.requests != [] then w.replies == [] && |w.requests[|w.requests| - 1]| >= HEADER_BYTES
                 && TagOf(w.requests[|w.requests| - 1]) == tag
               else
                 |w.replies| == 1 && IsMessage(codec, w.replies[0], methods[k].id, RESPONSE, tag, methods[k].outs,
                                               impl(StateAfter(impl, s0, w.log[..last]), w.log[last]).1)
  }

  ghost predicate PendingRequest<C(!new)>(codec: Codec<C>, methods: seq<Method>, msg: seq<Byte>, c: Call<C>) {
    && c.index < |methods|
    && exists tag: nat :: tag < LIMIT32
         && IsMessage(codec, msg, methods[c.index].id, REQUEST, tag, methods[c.index].params, c.args)
  }

  lemma PendingServed<C(!new), S(!new)>(codec: Codec<C>, methods: seq<Method>, impl: Impl<C, S>, msg: seq<Byte>,
                                        c: Call<C>)
    requires GoodInterface(codec, methods, impl) && GoodCall(codec, methods, c)
    requires PendingRequest(codec, methods, msg, c)
    ensures c.index < |methods|
    ensures Serve(codec, methods, msg) == Accepted(c) && |msg| >= HEADER_BYTES && TagOf(msg) < LIMIT32
  {
    hide IsMessage, RoundTrips, Serve, DistinctIds, NoVoid;
    var tag: nat :| tag < LIMIT32 && IsMessage(codec, msg, methods[c.index].id, REQUEST, tag, methods[c.index].params,
        c.args);
    RequestUnderstood(codec, methods, c, tag, msg);
  }

  lemma SendKeeps<C(!new), S(!new)>(codec: Codec<C>, methods: seq<Method>, impl: Impl<C, S>, s0: S, w: World<C, S>,
                                    c: Call<C>, msg: seq<Byte>, w': World<C, S>)
    requires GoodInterface(codec, methods, impl) && Inv(codec, methods, impl, s0, w)
    requires Next(codec, methods, impl, w, Send(c, msg), w')
    ensures Inv(codec, methods, impl, s0, w')
  {
    hide IsMessage, GoodCall, Serve, Accept, RoundTrips, DistinctIds, NoVoid, TagOf, StateAfter, Sendable,
      PendingRequest;
    var tag := (w.nextTag + 1) % LIMIT32;
    var served := |w.log| - |w.requests|;
    assert w'.log[..served] == w.log[..served];
    assert w'.log[..|w.log|] == w.log;
    MadePending(codec, methods, tag, msg, c);
    HeaderOf(codec, msg, methods[c.index].id, REQUEST, tag, methods[c.index].params, c.args, methods);
    forall i | 0 <= i < |w'.requests|
      ensures PendingRequest(codec, methods, w'.requests[i], w'.log[served + i])
    {
    }
  }

  lemma MadePending<C(!new)>(codec: Codec<C>, methods: seq<Method>, tag: nat, msg: seq<Byte>, c: Call<C>)
    requires tag < LIMIT32 && GoodCall(codec, methods, c)
    requires IsMessage(codec, msg, methods[c.index].id, REQUEST, tag, methods[c.index].params, c.args)
    ensures PendingRequest(codec, methods, msg, c) && c.index < |methods|
  {
  }

  lemma HeaderOf<C>(codec: Codec<C>, msg: seq<Byte>, kind: nat, flags: nat, tag: nat, args: seq<ArgType>,
                    xs: seq<Value<C>>,
                    methods: seq<Method>)
    requires IsMessage(codec, msg, kind, flags, tag, args, xs) && tag < LIMIT32
    requires DistinctIds(methods) && exists k :: 0 <= k < |methods| && methods[k].id == kind
    ensures |msg| >= HEADER_BYTES && TagOf(msg) == tag
  {
    HeaderReadsBack(msg, kind, flags, tag);
  }

  lemma ProcessKeeps<C(!new), S(!new)>(codec: Codec<C>, methods: seq<Method>, impl: Impl<C, S>, s0: S, w: World<C, S>,
                                       reply: seq<Byte>, w': World<C, S>)
    requires GoodInterface(codec, methods, impl) && Inv(codec, methods, impl, s0, w)
    requires Next(codec, methods, impl, w, Process(reply), w')
    ensures Inv(codec, methods, impl, s0, w')
  {
    hide IsMessage, GoodCall, Serve, Accept, RoundTrips, DistinctIds, NoVoid, TagOf, PendingRequest, DirectResults,
      Sendable, StateAfter;
    var served := |w.log| - |w.requests|;
    var c := w.log[served];
    PendingServed(codec, methods, impl, w.requests[0], c);
    StateStep(impl, s0, w.log, served);
    if !methods[c.index].isAsync {
      assert served == |w.log| - 1 && w.requests == [w.requests[0]];
    }
    forall i | 0 <= i < |w'.requests|
      ensures PendingRequest(codec, methods, w'.requests[i], w'.log[served + 1 + i])
    {
      assert w'.requests[i] == w.requests[i + 1];
    }
  }

  lemma StateStep<C, S>(impl: Impl<C, S>, s0: S, log: seq<Call<C>>, k: nat)
    requires k < |log|
    ensures StateAfter(impl, s0, log[..k + 1]) == impl(StateAfter(impl, s0, log[..k]), log[k]).0
  {
    assert log[..k + 1][..k] == log[..k];
  }

  lemma ReceiveKeeps<C(!new), S(!new)>(codec: Codec<C>, methods: seq<Method>, impl: Impl<C, S>, s0: S, w: World<C, S>,
                                       w': World<C, S>)
    requires GoodInterface(codec, methods, impl) && Inv(codec, methods, impl, s0, w)
    requires Next(codec, methods, impl, w, Receive, w')
    ensures Inv(codec, methods, impl, s0, w')
  {
    hide IsMessage, Serve, Accept, RoundTrips, DistinctIds, NoVoid, TagOf, PendingRequest, Sendable;
    var last := |w.log| - 1;
    var k := w.waiting.index;
    ReplyUnderstood(codec, methods, k, w.waiting.tag, impl(StateAfter(impl, s0, w.log[..last]), w.log[last]).1,
        w.replies[0]);
    assert w.log[..last + 1] == w.log;
  }

  // No check ever fails: a pending request is served, a waiting caller's reply is accepted.
  lemma NoErrors<C(!new), S(!new)>(codec: Codec<C>, methods: seq<Method>, impl: Impl<C, S>, s0: S, w: World<C, S>)
    requires GoodInterface(codec, methods, impl) && Inv(codec, methods, impl, s0, w)
    ensures w.requests != [] ==> Serve(codec, methods, w.requests[0]) == Accepted(w.log[|w.log| - |w.requests|])
    ensures w.replies != [] ==>
              && w.waiting.Waiting? && w.waiting.index < |methods|
              && Accept(codec, methods, w.waiting.index, w.waiting.tag, w.replies[0]).Some?
    ensures w.waiting.Waiting? ==> w.requests != [] || w.replies != []
  {
    hide IsMessage, Serve, Accept, RoundTrips, DistinctIds, NoVoid, TagOf, PendingRequest, Sendable;
    if w.requests != [] {
      PendingServed(codec, methods, impl, w.requests[0], w.log[|w.log| - |w.requests|]);
    }
    if w.replies != [] {
      var last := |w.log| - 1;
      ReplyUnderstood(codec, methods, w.waiting.index, w.waiting.tag,
                      impl(StateAfter(impl, s0, w.log[..last]), w.log[last]).1, w.replies[0]);
    }
  }

  ghost predicate Run<C(!new), S>(codec: Codec<C>, methods: seq<Method>, impl: Impl<C, S>, run: seq<World<C, S>>,
                                  steps: seq<Step<C>>) {
    && |run| == |steps| + 1
    && forall k :: 0 <= k < |steps| ==> Next(codec, methods, impl, run[k], steps[k], run[k + 1])
  }

  ghost predicate Fresh<C, S>(w: World<C, S>, s0: S) {
    && w.requests == [] && w.replies == [] && w.nextTag < LIMIT32 && w.waiting == NotWaiting
    && w.state == s0 && w.log == [] && w.results == []
  }

  lemma {:induction false} RunInv<C(!new), S(!new)>(codec: Codec<C>, methods: seq<Method>, impl: Impl<C, S>, s0: S,
                                                    run: seq<World<C, S>>, steps: seq<Step<C>>, k: nat)
    requires GoodInterface(codec, methods, impl)
    requires Run(codec, methods, impl, run, steps) && k < |run| && Fresh(run[0], s0)
    ensures Inv(codec, methods, impl, s0, run[k])
  {
    hide Next, GoodInterface;
    if k == 0 {
      hide IsMessage;
      assert run[0].log[..0] == [];
    } else {
      hide Inv;
      RunInv(codec, methods, impl, s0, run, steps, k - 1);
      match steps[k - 1] {
        case Send(c, msg) => SendKeeps(codec, methods, impl, s0, run[k - 1], c, msg, run[k]);
        case Process(reply) => ProcessKeeps(codec, methods, impl, s0, run[k - 1], reply, run[k]);
        case Receive => ReceiveKeeps(codec, methods, impl, s0, run[k - 1], run[k]);
      }
    }
  }

  // The main result: in every run, however calls, the server and replies interleave, callers have been
  // handed exactly the results of direct calls in the same order, and once the server has caught up the
  // implementation's state is what direct calls would have left.
  lemma {:induction false} CallsAreTransparent<C(!new), S(!new)>(codec: Codec<C>, methods: seq<Method>,
      impl: Impl<C, S>, s0: S,
                                              run: seq<World<C, S>>, steps: seq<Step<C>>)
    requires GoodInterface(codec, methods, impl) && Run(codec, methods, impl, run, steps) && Fresh(run[0], s0)
    ensures var end := run[|steps|];
            && (forall i :: 0 <= i < |end.log| ==> end.log[i].index < |methods|)
            && (end.waiting == NotWaiting ==> end.results == DirectResults(methods, impl, s0, end.log))
            && (end.requests == [] ==> end.state == StateAfter(impl, s0, end.log))
  {
    hide IsMessage, Sendable, PendingRequest, Next;
    RunInv(codec, methods, impl, s0, run, steps, |steps|);
    var end := run[|steps|];
    assert end.log[..|end.log|] == end.log;
  }
}

// Building interface descriptions from the actions the parser fires (InterfaceDescriptionBuilder.cpp).
module IdlBuilder {
  import opened ByteOrder
  import opened Words
  import MurmurHash
  import StringToLong
  import WireFormat

  type Text = seq<Byte>

  // The actions, in the order of the grammar's rules they hang on.
  datatype Event =
    | InterfaceName(text: Text) | InterfaceEnd
    | MethodName(text: Text) | MethodEnd | AsyncMarker | SyncMarker
    | ArgsOpen | ArgsClose | ReturnOpen | ReturnClose
    | ArgName(text: Text) | ArgType(text: Text) | ArgEnd
    | DecoratorKey(text: Text) | DecoratorValue(text: Text) | DecoratorClose
    | IncludePath(text: Text)

  datatype Option<T> = None | Some(value: T)

  datatype Argument = Argument(name: Text, typeName: Text)

  datatype Method = Method(name: Text, isAsync: bool, identifier: nat, params: seq<Argument>, outs: seq<Argument>)

  datatype Interface = Interface(name: Text, methods: seq<Method>, numCustomTypes: nat)

  datatype ArgContext = NoContext | Parameter | Return

  datatype State = State(current: Option<Interface>, done: seq<Interface>, building: Option<Method>,
                         argContext: ArgContext,
                         argName: Text, argTypename: Text, decoratorKey: Text, decoratorValue: Text,
                         decorators: map<Text, Text>, includes: seq<Text>)

  function Fresh(): State {
    State(None, [], None, NoContext, [], [], [], [], map[], [])
  }

  // ----- builtin types -----

  function Lower(s: Text): Text {
    seq(|s|, i requires 0 <= i < |s| => if 65 <= s[i] <= 90 then s[i] + 32 else s[i])
  }

  const BOOL: Text := [98, 111, 111, 108]
  const INT: Text := [105, 110, 116]
  const UINT: Text := [117] + INT
  const FLOAT: Text := [102, 108, 111, 97, 116]
  const W8: Text := [56]
  const W16: Text := [49, 54]
  const W32: Text := [51, 50]
  const W64: Text := [54, 52]
  const STRING: Text := [115, 116, 114, 105, 110, 103]
  const BLOB: Text := [98, 108, 111, 98]
  const IDENTIFIER: Text := [105, 100, 101, 110, 116, 105, 102, 105, 101, 114]

  // The size of a builtin type's slot, if it is one of the scalars.
  function ScalarSize(lower: Text): Option<nat> {
    if lower == BOOL || lower == INT + W8 || lower == UINT + W8 then Some(1)
    else if lower == INT + W16 || lower == UINT + W16 then Some(2)
    else if lower == INT + W32 || lower == UINT + W32 || lower == FLOAT + W32 then Some(4)
    else if lower == INT + W64 || lower == UINT + W64 || lower == FLOAT + W64 then Some(8)
    else None
  }

  predicate IsBuiltin(typeName: Text) {
    var lower := Lower(typeName);
    ScalarSize(lower).Some? || lower == STRING || lower == BLOB
  }

  // How an argument is encoded: builtins by the table of wire sizes, everything else as a custom blob.
  function WireType(a: Argument): WireFormat.ArgType {
    var lower := Lower(a.typeName);
    match ScalarSize(lower)
    case Some(n) => WireFormat.Scalar(n)
    case None => if lower == STRING || lower == BLOB then WireFormat.Bytes else WireFormat.Custom(FromLe(a.typeName))
  }

  function WireTypes(args: seq<Argument>): seq<WireFormat.ArgType> {
    seq(|args|, i requires 0 <= i < |args| => WireType(args[i]))
  }

  // Void has an entry in the table of wire sizes but is no builtin type, so no argument is encoded as void.
  lemma NeverVoid(args: seq<Argument>)
    ensures WireFormat.NoVoid(WireTypes(args))
  {
  }

  function Customs(args: seq<Argument>): nat {
    if args == [] then 0 else Customs(args[..|args| - 1]) + if IsBuiltin(args[|args| - 1].typeName) then 0 else 1
  }

  function MethodCustoms(m: Method): nat { Customs(m.params) + Customs(m.outs) }

  function AllCustoms(ms: seq<Method>): nat {
    if ms == [] then 0 else AllCustoms(ms[..|ms| - 1]) + MethodCustoms(ms[|ms| - 1])
  }

  // ----- the builder's calls -----

  // Tripped: an assert failed. Thrown: an exception left the parse.
  datatype Outcome = Tripped | Thrown | Built(s: State)

  function HashId(name: Text): nat { MurmurHash.Hash(name, MurmurHash.METHOD_SEED) }

  // stoull(value, nullptr, 0)
  function ParseId(value: Text): Option<nat>
  {
    var s: Text := value + [0];
    var p := StringToLong.Prefix(s, 0);
    var end := StringToLong.DigitsEnd(s, p.at, p.base);
    var v := StringToLong.Value(s, p.at, end, p.base);
    if end == p.at || v >= WORD_LIMIT then None else Some(v)
  }

  predicate HasMethod(ms: seq<Method>, name: Text) {
    exists i :: 0 <= i < |ms| && ms[i].name == name
  }

  function EndMethod(s: State): Outcome
    requires s.current.Some? && s.building.Some?
  {
    var m := s.building.value;
    var add := (id: nat) =>
      Built(s.(decorators := map[], building := None,
               current := Some(s.current.value.(methods := s.current.value.methods + [m.(identifier := id)]))));
    if IDENTIFIER in s.decorators then
      match ParseId(s.decorators[IDENTIFIER])
      case None => Thrown
      case Some(id) => add(id)
    else add(m.identifier)
  }

  function PushArg(s: State): Outcome
    requires s.current.Some? && s.building.Some? && s.argContext != NoContext
  {
    var arg := Argument(s.argName, s.argTypename);
    var m := s.building.value;
    var m' := if s.argContext == Parameter then m.(params := m.params + [arg]) else m.(outs := m.outs + [arg]);
    var i := s.current.value;
    Built(s.(current := Some(if IsBuiltin(arg.typeName) then i else i.(numCustomTypes := i.numCustomTypes + 1)),
             building := Some(m'), argName := [], argTypename := []))
  }

  function Apply(s: State, e: Event): Outcome {
    match e
    case InterfaceName(name) =>
      if s.current.Some? then Tripped else Built(s.(current := Some(Interface(name, [], 0))))
    case InterfaceEnd =>
      if s.current.None? then Tripped else Built(s.(done := s.done + [s.current.value], current := None))
    case MethodName(name) =>
      if s.current.None? || s.building.Some? then Tripped
      else if (name != [] && name[0] == 95) || HasMethod(s.current.value.methods, name) then Thrown
      else Built(s.(building := Some(Method(name, false, HashId(name), [], []))))
    case AsyncMarker =>
      if s.building.None? then Tripped else Built(s.(building := Some(s.building.value.(isAsync := true))))
    case SyncMarker =>
      if s.building.None? then Tripped else Built(s.(building := Some(s.building.value.(isAsync := false))))
    case MethodEnd => if s.current.None? || s.building.None? then Tripped else EndMethod(s)
    case ArgsOpen =>
      if s.current.None? || s.building.None? || s.argContext != NoContext then Tripped
      else Built(s.(argContext := Parameter))
    case ArgsClose =>
      if s.current.None? || s.building.None? || s.argContext != Parameter then Tripped
      else Built(s.(argContext := NoContext))
    case ReturnOpen =>
      if s.current.None? || s.building.None? || s.argContext != NoContext then Tripped
      else Built(s.(argContext := Return))
    case ReturnClose =>
      if s.current.None? || s.building.None? || s.argContext != Return then Tripped
      else Built(s.(argContext := NoContext))
    case ArgName(name) => Built(s.(argName := name))
    case ArgType(name) => Built(s.(argTypename := name))
    case ArgEnd =>
      if s.current.None? || s.building.None? || s.argContext == NoContext || s.argName == [] || s.argTypename == []
      then Tripped
      else PushArg(s)
    case DecoratorKey(key) => Built(s.(decoratorKey := key))
    case DecoratorValue(value) => Built(s.(decoratorValue := value))
    case DecoratorClose =>
      if s.decoratorKey == [] || s.decoratorValue == [] then Tripped
      else if s.decoratorKey in s.decorators then Thrown
      else Built(s.(decorators := s.decorators[s.decoratorKey := s.decoratorValue], decoratorKey := [],
        decoratorValue := []))
    case IncludePath(path) => Built(s.(includes := s.includes + [path]))
  }

  // All actions in order; an exception ends the parse.
  function Run(s: State, events: seq<Event>): Outcome
    decreases |events|
  {
    if events == [] then Built(s)
    else
      match Apply(s, events[0])
      case Built(t) => Run(t, events[1..])
      case other => other
  }

  lemma RunOne(s: State, e: Event)
    ensures Run(s, [e]) == Apply(s, e)
  {
  }

  // More actions after an outcome.
  function Then(o: Outcome, events: seq<Event>): Outcome {
    if o.Built? then Run(o.s, events) else o
  }

  lemma {:induction false} RunConcat(s: State, a: seq<Event>, b: seq<Event>)
    ensures Run(s, a + b) == Then(Run(s, a), b)
    decreases |a|
  {
    if a == [] {
      assert a + b == b;
    } else {
      assert (a + b)[0] == a[0] && (a + b)[1..] == a[1..] + b;
      match Apply(s, a[0]) {
        case Built(t) => RunConcat(t, a[1..], b);
        case _ =>
      }
    }
  }

  lemma RunTwo(s: State, a: seq<Event>, b: seq<Event>, t: State)
    requires Run(s, a) == Built(t)
    ensures Run(s, a + b) == Run(t, b)
  {
    hide Run;
    RunConcat(s, a, b);
  }

  lemma RunFirst(s: State, e: Event, rest: seq<Event>, t: State)
    requires Apply(s, e) == Built(t)
    ensures Run(s, [e] + rest) == Run(t, rest)
  {
    hide Run, Apply;
    RunOne(s, e);
    RunTwo(s, [e], rest, t);
  }

  lemma RunNothing(s: State)
    ensures Run(s, []) == Built(s)
  {
  }

  // ----- what the description keeps -----

  predicate StartsPlainly(name: Text) { name == [] || name[0] != '_' as int }

  // Every interface counts its custom arguments, and its methods have different names, none behind an underscore.
  ghost predicate Described(i: Interface, pending: nat) {
    && i.numCustomTypes == AllCustoms(i.methods) + pending
    && (forall j, k :: 0 <= j < k < |i.methods| ==> i.methods[j].name != i.methods[k].name)
    && forall j :: 0 <= j < |i.methods| ==> StartsPlainly(i.methods[j].name)
  }

  ghost predicate Good(s: State) {
    && (forall k :: 0 <= k < |s.done| ==> Described(s.done[k], 0))
    && (s.building.Some? ==>
          && s.current.Some? && !HasMethod(s.current.value.methods, s.building.value.name)
          && StartsPlainly(s.building.value.name))
    && (s.current.Some? ==> Described(s.current.value, if s.building.Some? then MethodCustoms(s.building.value) else 0))
  }

  lemma MethodsSnoc(ms: seq<Method>, m: Method)
    ensures AllCustoms(ms + [m]) == AllCustoms(ms) + MethodCustoms(m)
  {
  }

  // An action keeps that, unless the interface ends in the middle of a method.
  lemma ApplyGood(s: State, e: Event)
    requires Good(s) && (e.InterfaceEnd? ==> s.building.None?)
    ensures Apply(s, e).Built? ==> Good(Apply(s, e).s)
  {
    hide IsBuiltin, HashId, ParseId;
    if Apply(s, e).Built? {
      match e {
        case MethodEnd => EndGood(s);
        case ArgEnd => PushGood(s);
        case _ =>
      }
    }
  }

  lemma EndGood(s: State)
    requires Good(s) && s.current.Some? && s.building.Some?
    ensures EndMethod(s).Built? ==> Good(EndMethod(s).s)
  {
    hide IsBuiltin, HashId, ParseId, AllCustoms, Customs;
    if EndMethod(s).Built? {
      var i, m := s.current.value, s.building.value;
      var t := EndMethod(s).s;
      var m' := t.current.value.methods[|i.methods|];
      assert t.current.value.methods == i.methods + [m'] && m'.name == m.name && MethodCustoms(m') == MethodCustoms(m);
      MethodsSnoc(i.methods, m');
    }
  }

  lemma PushGood(s: State)
    requires Good(s) && s.current.Some? && s.building.Some? && s.argContext != NoContext
    ensures Good(PushArg(s).s)
  {
  }

  // ----- decorators -----

  // Until the method ends no action takes a decorator away.
  lemma KeepsDecorator(s: State, e: Event, key: Text)
    requires key in s.decorators && !e.MethodEnd?
    ensures Apply(s, e).Built? ==> key in Apply(s, e).s.decorators
  {
    hide IsBuiltin, HashId;
  }

  lemma {:induction false} KeepsDecorators(s: State, events: seq<Event>, key: Text)
    requires key in s.decorators && MethodEnd !in events
    ensures Run(s, events).Built? ==> key in Run(s, events).s.decorators
    decreases |events|
  {
    hide Apply;
    if events == [] {
    } else {
      KeepsDecorator(s, events[0], key);
      match Apply(s, events[0]) {
        case Built(t) => KeepsDecorators(t, events[1..], key);
        case _ =>
      }
    }
  }

  function Decorates(key: Text, value: Text): seq<Event> {
    [DecoratorKey(key), DecoratorValue(value), DecoratorClose]
  }

  // The actions of one decorator: it is added if it is complete and new, and an exception if its key is there.
  lemma RunDecorates(s: State, key: Text, value: Text)
    requires key != [] && value != []
    ensures Run(s, Decorates(key, value)) ==
            if key in s.decorators then Thrown
            else Built(s.(decorators := s.decorators[key := value], decoratorKey := [], decoratorValue := []))
  {
    hide Run;
    var s1 := s.(decoratorKey := key);
    var s2 := s1.(decoratorValue := value);
    assert Decorates(key, value) == [DecoratorKey(key)] + [DecoratorValue(value), DecoratorClose];
    assert [DecoratorValue(value), DecoratorClose] == [DecoratorValue(value)] + [DecoratorClose];
    RunFirst(s, DecoratorKey(key), [DecoratorValue(value), DecoratorClose], s1);
    RunFirst(s1, DecoratorValue(value), [DecoratorClose], s2);
    RunOne(s2, DecoratorClose);
  }

  // No method has two decorators with one key: the second one ends the parse, whatever comes in between.
  lemma SecondKeyThrows(s: State, key: Text, value: Text, between: seq<Event>, value': Text)
    requires key != [] && value != [] && value' != [] && MethodEnd !in between
    ensures !Run(s, Decorates(key, value) + between + Decorates(key, value')).Built?
    ensures key !in s.decorators && between == [] ==>
              Run(s, Decorates(key, value) + between + Decorates(key, value')) == Thrown
  {
    hide Apply, Run, Decorates;
    var a := Decorates(key, value);
    RunConcat(s, a + between, Decorates(key, value'));
    RunConcat(s, a, between);
    RunDecorates(s, key, value);
    if key !in s.decorators {
      var t := Run(s, a).s;
      KeepsDecorators(t, between, key);
      RunNothing(t);
      if Run(t, between).Built? {
        RunDecorates(Run(t, between).s, key, value');
      }
    }
  }
}

// Reading a written interface description back: the parser accepts it and the builder makes exactly the description
// it stands for.
module IdlReadBack {
  import opened IdlBuilder
  import IdlGrammar
  import opened IdlSyntax
  import opened IdlReading
  import StringToLong
  import WireFormat
  import WrittenNumbers

  // ----- builtin types -----

  predicate Plain(name: string) {
    forall i :: 0 <= i < |name| ==> 'a' <= name[i] <= 'z' || '0' <= name[i] <= '9'
  }

  predicate Spelled(t: Text, name: string) {
    |t| == |name| && forall i :: 0 <= i < |t| ==> t[i] == name[i] as int
  }

  lemma LowerIs(t: Text, name: string)
    requires Plain(name)
    ensures SameLetters(t, name) <==> Spelled(Lower(t), name)
  {
    if Spelled(Lower(t), name) {
      forall i | 0 <= i < |t|
        ensures t[i] == name[i] as int || (name[i] >= 'a' && t[i] == name[i] as int - 32)
      {
        assert Lower(t)[i] == name[i] as int;
      }
    }
    if SameLetters(t, name) {
      forall i | 0 <= i < |t|
        ensures Lower(t)[i] == name[i] as int
      {
      }
    }
  }

  lemma SpelledIs(t: Text, u: Text, name: string)
    requires Spelled(u, name)
    ensures Spelled(t, name) <==> t == u
  {
  }

  // The builder's table of types holds the thirteen names, and is asked in lower case.
  lemma BuiltinIs(t: Text)
    ensures IsBuiltin(t) <==> Builtin(t)
  {
    hide Spelled, SameLetters, Lower;
    LowerSpelled(Lower(t));
    ByName(t);
    NamedIs(Lower(t));
  }

  lemma NamedIs(u: Text)
    ensures (exists k :: 0 <= k < |BUILTINS| && Spelled(u, BUILTINS[k])) <==>
              || Spelled(u, "bool") || Spelled(u, "int8") || Spelled(u, "int16") || Spelled(u, "int32")
              || Spelled(u, "int64") || Spelled(u, "uint8") || Spelled(u, "uint16") || Spelled(u, "uint32")
              || Spelled(u, "uint64") || Spelled(u, "float32") || Spelled(u, "float64") || Spelled(u, "string")
              || Spelled(u, "blob")
  {
    hide Spelled;
    assert BUILTINS[0] == "bool" && BUILTINS[1] == "int8" && BUILTINS[2] == "int16" && BUILTINS[3] == "int32";
    assert BUILTINS[4] == "int64" && BUILTINS[5] == "uint8" && BUILTINS[6] == "uint16" && BUILTINS[7] == "uint32";
    assert BUILTINS[8] == "uint64" && BUILTINS[9] == "float32" && BUILTINS[10] == "float64";
    assert BUILTINS[11] == "string" && BUILTINS[12] == "blob";
  }

  // How each type goes over the wire: scalars in their C++ sizes, strings and blobs as bytes, all others by their own
  // serializers.
  lemma WireTypeIs(a: Argument)
    ensures var t, w := a.typeName, WireType(a);
            && (SameLetters(t, "bool") || SameLetters(t, "int8") || SameLetters(t, "uint8") ==>
                  w == WireFormat.Scalar(1))
            && (SameLetters(t, "int16") || SameLetters(t, "uint16") ==> w == WireFormat.Scalar(2))
            && (SameLetters(t, "int32") || SameLetters(t, "uint32") || SameLetters(t, "float32") ==>
                  w == WireFormat.Scalar(4))
            && (SameLetters(t, "int64") || SameLetters(t, "uint64") || SameLetters(t, "float64") ==>
                  w == WireFormat.Scalar(8))
            && (SameLetters(t, "string") || SameLetters(t, "blob") ==> w == WireFormat.Bytes)
            && (!Builtin(t) ==> w.Custom?)
  {
    var u := Lower(a.typeName);
    LowerSpelled(u);
    ByName(a.typeName);
    BuiltinIs(a.typeName);
    hide Spelled, SameLetters, Lower, Builtin;
    NamesDiffer();
  }

  // Names of one length differ in their first letter or in the first digit of their width.
  lemma NamesDiffer()
    ensures |BOOL| == |INT + W8| == 4 && BOOL[0] == 98 && (INT + W8)[0] == 105
    ensures |INT + W16| == |INT + W32| == |INT + W64| == |UINT + W8| == 5 && (UINT + W8)[0] == 117
    ensures (INT + W16)[0] == (INT + W32)[0] == (INT + W64)[0] == 105
    ensures (INT + W16)[3] == 49 && (INT + W32)[3] == 51 && (INT + W64)[3] == 54
    ensures |UINT + W16| == |UINT + W32| == |UINT + W64| == 6
    ensures (UINT + W16)[4] == 49 && (UINT + W32)[4] == 51 && (UINT + W64)[4] == 54
    ensures |FLOAT + W32| == |FLOAT + W64| == 7 && (FLOAT + W32)[5] == 51 && (FLOAT + W64)[5] == 54
    ensures |STRING| == 6 && STRING[0] == 115 && |BLOB| == 4 && BLOB[0] == 98 && BLOB[1] == 108 && BOOL[1] == 111
    ensures (UINT + W16)[0] == (UINT + W32)[0] == (UINT + W64)[0] == 117
  {
  }

  // The builder's constants are the names they stand for.
  lemma LowerSpelled(u: Text)
    ensures (Spelled(u, "bool") <==> u == BOOL) && (Spelled(u, "string") <==> u == STRING)
    ensures (Spelled(u, "int8") <==> u == INT + W8) && (Spelled(u, "int16") <==> u == INT + W16)
    ensures (Spelled(u, "int32") <==> u == INT + W32) && (Spelled(u, "int64") <==> u == INT + W64)
    ensures (Spelled(u, "uint8") <==> u == UINT + W8) && (Spelled(u, "uint16") <==> u == UINT + W16)
    ensures (Spelled(u, "uint32") <==> u == UINT + W32) && (Spelled(u, "uint64") <==> u == UINT + W64)
    ensures (Spelled(u, "float32") <==> u == FLOAT + W32) && (Spelled(u, "float64") <==> u == FLOAT + W64)
    ensures Spelled(u, "blob") <==> u == BLOB
  {
    SpelledIs(u, BOOL, "bool");
    SpelledIs(u, INT + W8, "int8");
    SpelledIs(u, INT + W16, "int16");
    SpelledIs(u, INT + W32, "int32");
    SpelledIs(u, INT + W64, "int64");
    SpelledIs(u, UINT + W8, "uint8");
    SpelledIs(u, UINT + W16, "uint16");
    SpelledIs(u, UINT + W32, "uint32");
    SpelledIs(u, UINT + W64, "uint64");
    SpelledIs(u, FLOAT + W32, "float32");
    SpelledIs(u, FLOAT + W64, "float64");
    SpelledIs(u, STRING, "string");
    SpelledIs(u, BLOB, "blob");
  }

  lemma ByName(t: Text)
    ensures forall k :: 0 <= k < |BUILTINS| ==> (SameLetters(t, BUILTINS[k]) <==> Spelled(Lower(t), BUILTINS[k]))
    ensures (SameLetters(t, "bool") <==> Spelled(Lower(t), "bool"))
    ensures (SameLetters(t, "int8") <==> Spelled(Lower(t), "int8"))
    ensures (SameLetters(t, "int16") <==> Spelled(Lower(t), "int16"))
    ensures (SameLetters(t, "int32") <==> Spelled(Lower(t), "int32"))
    ensures (SameLetters(t, "int64") <==> Spelled(Lower(t), "int64"))
    ensures (SameLetters(t, "uint8") <==> Spelled(Lower(t), "uint8"))
    ensures (SameLetters(t, "uint16") <==> Spelled(Lower(t), "uint16"))
    ensures (SameLetters(t, "uint32") <==> Spelled(Lower(t), "uint32"))
    ensures (SameLetters(t, "uint64") <==> Spelled(Lower(t), "uint64"))
    ensures (SameLetters(t, "float32") <==> Spelled(Lower(t), "float32"))
    ensures (SameLetters(t, "float64") <==> Spelled(Lower(t), "float64"))
    ensures (SameLetters(t, "string") <==> Spelled(Lower(t), "string"))
    ensures (SameLetters(t, "blob") <==> Spelled(Lower(t), "blob"))
  {
    hide SameLetters, Spelled, Lower;
    forall name: string | Plain(name)
      ensures SameLetters(t, name) <==> Spelled(Lower(t), name)
    {
      LowerIs(t, name);
    }
    assert Plain("bool") && Plain("int8") && Plain("int16") && Plain("int32") && Plain("int64") && Plain("uint8");
    assert Plain("uint16") && Plain("uint32") && Plain("uint64") && Plain("float32") && Plain("float64");
    assert Plain("string") && Plain("blob");
    forall k | 0 <= k < |BUILTINS|
      ensures Plain(BUILTINS[k])
    {
    }
  }

  // ----- the builder between and inside methods -----

  function Idle(current: Option<Interface>, done: seq<Interface>, includes: seq<Text>): State {
    State(current, done, None, NoContext, [], [], [], [], map[], includes)
  }

  function InMethod(i: Interface, done: seq<Interface>, m: Method, context: ArgContext, tags: map<Text, Text>,
                    includes: seq<Text>): State
  {
    State(Some(i), done, Some(m), context, [], [], [], [], tags, includes)
  }

  // ----- arguments -----

  // Parameters go to the parameters, results to the results.
  function WithArgs(m: Method, context: ArgContext, args: seq<Argument>): Method {
    if context == Return then Method(m.name, m.isAsync, m.identifier, m.params, m.outs + args)
    else Method(m.name, m.isAsync, m.identifier, m.params + args, m.outs)
  }

  function Counting(i: Interface, n: nat): Interface { Interface(i.name, i.methods, i.numCustomTypes + n) }

  lemma RunArg(i: Interface, done: seq<Interface>, m: Method, context: ArgContext, tags: map<Text, Text>,
               includes: seq<Text>, a: ArgSyntax)
    requires context != NoContext && a.name != [] && a.typeName != []
    ensures var arg := Argument(a.name, a.typeName);
            Run(InMethod(i, done, m, context, tags, includes), ArgEvents(a)) ==
            Built(InMethod(Counting(i, if Builtin(a.typeName) then 0 else 1), done, WithArgs(m, context, [arg]),
                           context, tags, includes))
  {
    hide IsBuiltin, Builtin;
    BuiltinIs(a.typeName);
    var s := InMethod(i, done, m, context, tags, includes);
    var s1 := s.(argName := a.name);
    var s2 := s1.(argTypename := a.typeName);
    RunFirst(s, ArgName(a.name), [ArgType(a.typeName), ArgEnd], s1);
    RunFirst(s1, ArgType(a.typeName), [ArgEnd], s2);
    RunOne(s2, ArgEnd);
  }

  lemma {:induction false} RunArgs(i: Interface, done: seq<Interface>, m: Method, context: ArgContext,
                                   tags: map<Text, Text>, includes: seq<Text>, args: seq<ArgSyntax>)
    requires context != NoContext && ValidArgs(args)
    ensures Run(InMethod(i, done, m, context, tags, includes), ArgsEvents(args)) ==
            Built(InMethod(Counting(i, CustomArgs(Arguments(args))), done, WithArgs(m, context, Arguments(args)),
                           context, tags, includes))
    decreases |args|
  {
    hide Run, Builtin, ArgEvents, ValidArg, ValidArgs, WithArgs, Counting, CustomArgs, InMethod;
    var s := InMethod(i, done, m, context, tags, includes);
    if args == [] {
      RunNothing(s);
      NoArgs(i, m, context);
      assert Arguments(args) == [];
    } else {
      var a := args[0];
      ArgsValid(args);
      ArgFacts(a);
      var i1 := Counting(i, if Builtin(a.typeName) then 0 else 1);
      var m1 := WithArgs(m, context, [Argument(a.name, a.typeName)]);
      RunArg(i, done, m, context, tags, includes, a);
      RunTwo(s, ArgEvents(a), ArgsEvents(args[1..]), InMethod(i1, done, m1, context, tags, includes));
      RunArgs(i1, done, m1, context, tags, includes, args[1..]);
      MoreArgs(i, m, context, args);
    }
  }

  lemma NoArgs(i: Interface, m: Method, context: ArgContext)
    ensures WithArgs(m, context, []) == m && Counting(i, CustomArgs([])) == i
  {
    assert m.params + [] == m.params && m.outs + [] == m.outs;
  }

  lemma MoreArgs(i: Interface, m: Method, context: ArgContext, args: seq<ArgSyntax>)
    requires args != []
    ensures var a, all, rest := args[0], Arguments(args), Arguments(args[1..]);
            var n := if Builtin(a.typeName) then 0 else 1;
            && WithArgs(WithArgs(m, context, [Argument(a.name, a.typeName)]), context, rest) ==
                 WithArgs(m, context, all)
            && Counting(Counting(i, n), CustomArgs(rest)) == Counting(i, CustomArgs(all))
  {
    hide Builtin, CustomArgs;
    var all, rest := Arguments(args), Arguments(args[1..]);
    assert all[1..] == rest && all == [all[0]] + rest;
    Regroup(m.params, [all[0]], rest);
    Regroup(m.outs, [all[0]], rest);
    CustomsCons(all);
  }

  lemma CustomsCons(args: seq<Argument>)
    requires args != []
    ensures CustomArgs(args) == (if Builtin(args[0].typeName) then 0 else 1) + CustomArgs(args[1..])
  {
    hide Builtin;
  }

  lemma Regroup<T>(a: seq<T>, b: seq<T>, c: seq<T>)
    ensures a + b + c == a + (b + c)
  {
  }

  // ----- decorators -----

  lemma RunDecorator(i: Interface, done: seq<Interface>, m: Method, tags: map<Text, Text>, includes: seq<Text>,
                     d: Decorator)
    requires d.key != [] && d.value != [] && d.key !in tags
    ensures Run(InMethod(i, done, m, NoContext, tags, includes), DecoratorEvents(d)) ==
            Built(InMethod(i, done, m, NoContext, tags[d.key := d.value], includes))
  {
    var s := InMethod(i, done, m, NoContext, tags, includes);
    var s1 := s.(decoratorKey := d.key);
    var s2 := s1.(decoratorValue := d.value);
    RunFirst(s, DecoratorKey(d.key), [DecoratorValue(d.value), DecoratorClose], s1);
    RunFirst(s1, DecoratorValue(d.value), [DecoratorClose], s2);
    RunOne(s2, DecoratorClose);
  }

  lemma {:induction false} RunDecorators(i: Interface, done: seq<Interface>, m: Method, tags: map<Text, Text>,
                                         includes: seq<Text>, ds: seq<Decorator>)
    requires SoundDecorators(ds) && forall k :: 0 <= k < |ds| ==> ds[k].key != [] && ds[k].key !in tags
    ensures Run(InMethod(i, done, m, NoContext, tags, includes), DecoratorsEvents(ds)) ==
            Built(InMethod(i, done, m, NoContext, Tagged(tags, ds), includes))
    decreases |ds|
  {
    hide Run, DecoratorEvents;
    var s := InMethod(i, done, m, NoContext, tags, includes);
    if ds == [] {
      RunNothing(s);
    } else {
      var d := ds[0];
      var next := tags[d.key := d.value];
      RunDecorator(i, done, m, tags, includes, d);
      RunTwo(s, DecoratorEvents(d), DecoratorsEvents(ds[1..]), InMethod(i, done, m, NoContext, next, includes));
      RunDecorators(i, done, m, next, includes, ds[1..]);
    }
  }

  // What ends up in the map.
  lemma {:induction false} TaggedIs(tags: map<Text, Text>, ds: seq<Decorator>, key: Text)
    requires forall i, j :: 0 <= i < j < |ds| ==> ds[i].key != ds[j].key
    ensures forall k :: 0 <= k < |ds| && ds[k].key == key ==>
              key in Tagged(tags, ds) && Tagged(tags, ds)[key] == ds[k].value
    ensures (forall k :: 0 <= k < |ds| ==> ds[k].key != key) ==>
              (key in Tagged(tags, ds) <==> key in tags) && (key in tags ==> Tagged(tags, ds)[key] == tags[key])
    decreases |ds|
  {
    if ds == [] {
    } else {
      var next := tags[ds[0].key := ds[0].value];
      TaggedIs(next, ds[1..], key);
      if ds[0].key == key {
        assert forall k :: 0 <= k < |ds[1..]| ==> ds[1..][k] == ds[k + 1];
      }
      forall k | 0 <= k < |ds| && ds[k].key == key
        ensures key in Tagged(tags, ds) && Tagged(tags, ds)[key] == ds[k].value
      {
        if k > 0 {
          assert ds[1..][k - 1] == ds[k];
        }
      }
    }
  }

  // What stoull makes of a value.
  lemma ParseIdIs(value: Text, w: WrittenNumbers.Written)
    requires WrittenNumbers.IsWritten(w, 0) && WrittenNumbers.Text(w) == value + [0]
    ensures var n := WrittenNumbers.Number(w.digits, w.base);
            ParseId(value) == if w.digits == [] || n >= 0x1_0000_0000_0000_0000 then None else Some(n)
  {
    hide WrittenNumbers.IsWritten, WrittenNumbers.Text, WrittenNumbers.Number, StringToLong.Prefix,
      StringToLong.DigitsEnd, StringToLong.Value;
    WrittenNumbers.PrefixOfWritten(w, 0);
    WrittenNumbers.DigitsOfWritten(w, 0);
    SameLength(w);
  }

  lemma SameLength(w: WrittenNumbers.Written)
    requires WrittenNumbers.IsWritten(w, 0)
    ensures |w.digits| == |w.chars|
  {
  }

  lemma ParsesNumeral(value: Text, n: nat)
    requires Numeral(value, n)
    ensures ParseId(value) == Some(n)
  {
    hide ParseId, WrittenNumbers.IsWritten, WrittenNumbers.Text, WrittenNumbers.Number;
    var w :| NumeralAs(value, n, w);
    ParseIdIs(value, w);
  }

  // Only numerals below 2^64 are parsed.
  lemma OnlyNumerals(value: Text)
    requires ParseId(value).Some?
    ensures Numeral(value, ParseId(value).value)
  {
    hide ParseId, WrittenNumbers.IsWritten, WrittenNumbers.Text, WrittenNumbers.Number, WrittenNumbers.Reading;
    var s: Text := value + [0];
    WrittenNumbers.EveryStringIsWritten(s, 0);
    var w := WrittenNumbers.Reading(s, 0);
    ParseIdIs(value, w);
    assert NumeralAs(value, ParseId(value).value, w);
  }

  // A method whose identifier decorator is no such numeral ends the parse with an exception, and no other does.
  lemma BadIdentifierThrows(s: State)
    requires s.current.Some? && s.building.Some?
    ensures Apply(s, MethodEnd) == Thrown <==>
              && IDENTIFIER_KEY in s.decorators
              && forall n :: !Numeral(s.decorators[IDENTIFIER_KEY], n)
  {
    hide ParseId, Numeral;
    assert IDENTIFIER == IDENTIFIER_KEY;
    if IDENTIFIER_KEY in s.decorators {
      var value := s.decorators[IDENTIFIER_KEY];
      if ParseId(value).Some? {
        OnlyNumerals(value);
      }
      forall n | Numeral(value, n)
        ensures ParseId(value).Some?
      {
        ParsesNumeral(value, n);
      }
    }
  }

  // ----- methods -----

  // The identifier a finished method gets.
  lemma Identified(s: State, m: MethodSyntax, building: Method)
    requires SoundMethod(m) && s.current.Some? && s.building == Some(building)
    requires s.decorators == Tagged(map[], m.decorators)
    requires building == MethodOf(m).(identifier := HashId(m.name))
    ensures var i := s.current.value;
            EndMethod(s) == Built(s.(decorators := map[], building := None,
                                     current := Some(i.(methods := i.methods + [MethodOf(m)]))))
  {
    hide ParseId, Numeral, HashId, MethodOf;
    var ds := m.decorators;
    TaggedIs(map[], ds, IDENTIFIER);
    assert IDENTIFIER == IDENTIFIER_KEY;
    if k :| 0 <= k < |ds| && ds[k].key == IDENTIFIER_KEY {
      ParsesNumeral(ds[k].value, m.id);
      MethodNamed(m);
    } else {
      HashNamed(m);
    }
  }

  lemma MethodNamed(m: MethodSyntax)
    ensures MethodOf(m).(identifier := HashId(m.name)).(identifier := m.id) == MethodOf(m)
  {
    hide HashId;
  }

  lemma HashNamed(m: MethodSyntax)
    requires SoundMethod(m) && forall k :: 0 <= k < |m.decorators| ==> m.decorators[k].key != IDENTIFIER_KEY
    ensures MethodOf(m).(identifier := HashId(m.name)) == MethodOf(m)
  {
  }

  lemma RunReply(i: Interface, done: seq<Interface>, m: Method, tags: map<Text, Text>, includes: seq<Text>, r: Reply)
    requires ValidReply(r) && !m.isAsync && m.outs == []
    ensures var outs := if r.Answer? then Arguments(r.outs) else [];
            Run(InMethod(i, done, m, NoContext, tags, includes), ReplyEvents(r)) ==
            Built(InMethod(Counting(i, CustomArgs(outs)), done, m.(isAsync := r.NoReply?, outs := outs), NoContext,
                           tags, includes))
  {
    hide ValidArgs, CustomArgs;
    var s := InMethod(i, done, m, NoContext, tags, includes);
    match r {
      case NoReply =>
        RunOne(s, AsyncMarker);
        NoArgs(i, m, Return);
      case Answer(_, outs) =>
        var inner := [ReturnOpen] + ArgsEvents(outs) + [ReturnClose];
        assert m.(isAsync := false) == m && m.outs + Arguments(outs) == Arguments(outs);
        RunFirst(s, SyncMarker, inner, s);
        RunGroup(i, done, m, Return, tags, includes, outs, ReturnOpen, ReturnClose);
        assert WithArgs(m, Return, Arguments(outs)) == m.(isAsync := false, outs := Arguments(outs));
    }
  }

  // An opened list, its arguments, and its end.
  lemma RunGroup(i: Interface, done: seq<Interface>, m: Method, context: ArgContext, tags: map<Text, Text>,
                 includes: seq<Text>, args: seq<ArgSyntax>, open: Event, close: Event)
    requires ValidArgs(args)
    requires (context == Parameter && open == ArgsOpen && close == ArgsClose)
             || (context == Return && open == ReturnOpen && close == ReturnClose)
    ensures Run(InMethod(i, done, m, NoContext, tags, includes), [open] + ArgsEvents(args) + [close]) ==
            Built(InMethod(Counting(i, CustomArgs(Arguments(args))), done, WithArgs(m, context, Arguments(args)),
                           NoContext, tags, includes))
  {
    hide ValidArgs, CustomArgs, Run, ArgsEvents, WithArgs, Counting;
    var s := InMethod(i, done, m, NoContext, tags, includes);
    var inside := InMethod(i, done, m, context, tags, includes);
    var i1, m1 := Counting(i, CustomArgs(Arguments(args))), WithArgs(m, context, Arguments(args));
    assert [open] + ArgsEvents(args) + [close] == [open] + (ArgsEvents(args) + [close]);
    RunFirst(s, open, ArgsEvents(args) + [close], inside);
    RunArgs(i, done, m, context, tags, includes, args);
    RunTwo(inside, ArgsEvents(args), [close], InMethod(i1, done, m1, context, tags, includes));
    RunOne(InMethod(i1, done, m1, context, tags, includes), close);
  }

  // A method being built, with its arguments but not yet its identifier.
  function Unfinished(m: MethodSyntax): Method { MethodOf(m).(identifier := HashId(m.name)) }

  lemma StartsMethod(i: Interface, done: seq<Interface>, includes: seq<Text>, m: MethodSyntax)
    requires m.name != []
    ensures Apply(Idle(Some(i), done, includes), MethodName(m.name)) ==
            if m.name[0] == '_' as int || HasMethod(i.methods, m.name) then Thrown
            else Built(InMethod(i, done, Method(m.name, false, HashId(m.name), [], []), NoContext, map[], includes))
  {
    hide HasMethod, HashId;
  }

  lemma EndsMethod(i: Interface, done: seq<Interface>, includes: seq<Text>, m: MethodSyntax)
    requires SoundMethod(m)
    ensures Apply(InMethod(i, done, Unfinished(m), NoContext, Tagged(map[], m.decorators), includes), MethodEnd) ==
            Built(Idle(Some(i.(methods := i.methods + [MethodOf(m)])), done, includes))
  {
    hide SoundMethod, HashId, MethodOf, Tagged, EndMethod;
    var s := InMethod(i, done, Unfinished(m), NoContext, Tagged(map[], m.decorators), includes);
    Identified(s, m, s.building.value);
  }

  // The arguments a method's description has.
  function CustomsIn(m: MethodSyntax): nat {
    CustomArgs(MethodOf(m).params) + CustomArgs(MethodOf(m).outs)
  }

  lemma BodyOf(i: Interface, m: MethodSyntax)
    ensures var start := Method(m.name, false, HashId(m.name), [], []);
            var params, outs := Arguments(m.params), if m.reply.Answer? then Arguments(m.reply.outs) else [];
            var mid := WithArgs(start, Parameter, params);
            && mid.outs == [] && !mid.isAsync
            && mid.(isAsync := m.reply.NoReply?, outs := outs) == Unfinished(m)
            && Counting(Counting(i, CustomArgs(params)), CustomArgs(outs)) == Counting(i, CustomsIn(m))
  {
    hide HashId, CustomArgs;
    assert [] + Arguments(m.params) == Arguments(m.params);
  }

  // The actions of a method's parameters and reply, and its end.
  function AfterTags(m: MethodSyntax): seq<Event> {
    [ArgsOpen] + ArgsEvents(m.params) + [ArgsClose] + (ReplyEvents(m.reply) + [MethodEnd])
  }

  lemma RunArguments(i: Interface, done: seq<Interface>, includes: seq<Text>, m: MethodSyntax, tags: map<Text, Text>)
    requires ValidArgs(m.params) && ValidReply(m.reply)
    ensures var start := Method(m.name, false, HashId(m.name), [], []);
            Run(InMethod(i, done, start, NoContext, tags, includes), AfterTags(m)) ==
            Apply(InMethod(Counting(i, CustomsIn(m)), done, Unfinished(m), NoContext, tags, includes), MethodEnd)
  {
    hide ValidArgs, ValidReply, HashId, CustomArgs, CustomsIn, Run, Apply, Unfinished, Arguments, ArgsEvents,
      ReplyEvents, WithArgs;
    var start := Method(m.name, false, HashId(m.name), [], []);
    var params, outs := Arguments(m.params), if m.reply.Answer? then Arguments(m.reply.outs) else [];
    BodyOf(i, m);
    var s2 := InMethod(i, done, start, NoContext, tags, includes);
    RunGroup(i, done, start, Parameter, tags, includes, m.params, ArgsOpen, ArgsClose);
    var i3, m3 := Counting(i, CustomArgs(params)), WithArgs(start, Parameter, params);
    var s3 := InMethod(i3, done, m3, NoContext, tags, includes);
    RunTwo(s2, [ArgsOpen] + ArgsEvents(m.params) + [ArgsClose], ReplyEvents(m.reply) + [MethodEnd], s3);
    RunReply(i3, done, m3, tags, includes, m.reply);
    var s4 := InMethod(Counting(i3, CustomArgs(outs)), done, Unfinished(m), NoContext, tags, includes);
    RunTwo(s3, ReplyEvents(m.reply), [MethodEnd], s4);
    RunOne(s4, MethodEnd);
  }

  lemma MethodEventsAre(m: MethodSyntax)
    ensures MethodEvents(m) == [MethodName(m.name)] + (DecoratorsEvents(m.decorators) + AfterTags(m))
  {
    hide DecoratorsEvents, ArgsEvents, ReplyEvents;
  }

  // The actions of a whole method add it to the interface.
  lemma RunMethod(i: Interface, done: seq<Interface>, includes: seq<Text>, m: MethodSyntax)
    requires WellFormedMethod(m) && SoundMethod(m) && !HasMethod(i.methods, m.name)
    ensures Run(Idle(Some(i), done, includes), MethodEvents(m)) ==
            Built(Idle(Some(Counting(i, CustomsIn(m)).(methods := i.methods + [MethodOf(m)])), done, includes))
  {
    hide WellFormedMethod, SoundMethod, SoundDecorators, ValidArgs, ValidReply, HashId, HasMethod, CustomsIn, Run,
      Apply, Tagged, MethodOf, Unfinished, DecoratorsEvents, AfterTags, MethodEvents;
    MethodParts(m);
    MethodEventsAre(m);
    StartsMethod(i, done, includes, m);
    var tags, start := Tagged(map[], m.decorators), Method(m.name, false, HashId(m.name), [], []);
    var s0, s1 := Idle(Some(i), done, includes), InMethod(i, done, start, NoContext, map[], includes);
    RunFirst(s0, MethodName(m.name), DecoratorsEvents(m.decorators) + AfterTags(m), s1);
    RunDecorators(i, done, start, map[], includes, m.decorators);
    RunTwo(s1, DecoratorsEvents(m.decorators), AfterTags(m), InMethod(i, done, start, NoContext, tags, includes));
    RunArguments(i, done, includes, m, tags);
    EndsMethod(Counting(i, CustomsIn(m)), done, includes, m);
  }

  lemma MethodParts(m: MethodSyntax)
    requires WellFormedMethod(m)
    ensures ValidArgs(m.params) && ValidReply(m.reply) && m.name != []
    ensures forall k :: 0 <= k < |m.decorators| ==> m.decorators[k].key != []
    ensures SoundMethod(m) ==> SoundDecorators(m.decorators) && m.name[0] != '_' as int
  {
    hide ValidArgs, ValidReply, Identifies;
  }

  // ----- interfaces and files -----

  function Extended(i: Interface, ms: seq<Method>): Interface {
    Interface(i.name, i.methods + ms, i.numCustomTypes + CustomsOf(ms))
  }

  lemma ExtendOne(i: Interface, m: MethodSyntax, rest: seq<Method>)
    ensures Extended(Counting(i, CustomsIn(m)).(methods := i.methods + [MethodOf(m)]), rest) ==
            Extended(i, [MethodOf(m)] + rest)
  {
    hide MethodOf, CustomArgs;
    var all := [MethodOf(m)] + rest;
    assert all[1..] == rest && i.methods + [MethodOf(m)] + rest == i.methods + all;
  }

  lemma DistinctRest(done: seq<Method>, m: Method, rest: seq<Method>)
    requires Distinct(done + ([m] + rest))
    ensures Distinct((done + [m]) + rest) && !HasMethod(done, m.name)
  {
    var all := done + ([m] + rest);
    assert done + [m] + rest == all && all[|done|] == m;
    forall k | 0 <= k < |done|
      ensures done[k].name != m.name
    {
      assert all[k] == done[k];
    }
  }

  lemma {:induction false} RunParts(i: Interface, done: seq<Interface>, includes: seq<Text>, parts: seq<Part>,
                                    rest: Text)
    requires WellFormedParts(parts, rest) && SoundParts(parts) && Distinct(i.methods + MethodsOf(parts))
    ensures Run(Idle(Some(i), done, includes), PartsEvents(parts)) ==
            Built(Idle(Some(Extended(i, MethodsOf(parts))), done, includes))
    decreases |parts|
  {
    hide WellFormedParts, WellFormedMethod, WellFormedFiller, SoundMethod, Run, Extended, Distinct, MethodEvents,
      MethodOf, CustomsIn, PartsText;
    var s := Idle(Some(i), done, includes);
    if parts == [] {
      RunNothing(s);
      NoMethods(i);
    } else {
      PartsFacts(parts, rest);
      var more := PartsEvents(parts[1..]);
      match parts[0] {
        case Filling(_) =>
          assert PartsEvents(parts) == more && MethodsOf(parts) == MethodsOf(parts[1..]);
          RunParts(i, done, includes, parts[1..], rest);
        case Declares(_, m) =>
          DistinctRest(i.methods, MethodOf(m), MethodsOf(parts[1..]));
          var i1 := Counting(i, CustomsIn(m)).(methods := i.methods + [MethodOf(m)]);
          MethodNameIs(m);
          RunMethod(i, done, includes, m);
          RunTwo(s, MethodEvents(m), more, Idle(Some(i1), done, includes));
          RunParts(i1, done, includes, parts[1..], rest);
          ExtendOne(i, m, MethodsOf(parts[1..]));
      }
    }
  }

  lemma MethodNameIs(m: MethodSyntax)
    ensures MethodOf(m).name == m.name
  {
  }

  lemma NoMethods(i: Interface)
    ensures Extended(i, []) == i
  {
    assert i.methods + [] == i.methods;
  }

  lemma RunInterface(done: seq<Interface>, includes: seq<Text>, x: InterfaceSyntax)
    requires WellFormedInterface(x) && SoundInterface(x)
    ensures Run(Idle(None, done, includes), InterfaceEvents(x)) == Built(Idle(None, done + [InterfaceOf(x)], includes))
  {
    hide WellFormedParts, SoundParts, Run, PartsEvents, MethodsOf, CustomsOf;
    var s, start := Idle(None, done, includes), Interface(x.name, [], 0);
    var ms := MethodsOf(x.parts);
    assert [] + ms == ms;
    var s1, s2 := Idle(Some(start), done, includes), Idle(Some(Extended(start, ms)), done, includes);
    assert InterfaceEvents(x) == [InterfaceName(x.name)] + (PartsEvents(x.parts) + [InterfaceEnd]);
    RunFirst(s, InterfaceName(x.name), PartsEvents(x.parts) + [InterfaceEnd], s1);
    RunParts(start, done, includes, x.parts, ClosingText(x));
    RunTwo(s1, PartsEvents(x.parts), [InterfaceEnd], s2);
    RunOne(s2, InterfaceEnd);
  }

  // What one item adds.
  function Adds(t: Item): (r: (seq<Interface>, seq<Text>)) {
    (if t.Interfaces? then [InterfaceOf(t.i)] else [], if t.Includes? then [t.path] else [])
  }

  lemma RunItem(done: seq<Interface>, includes: seq<Text>, t: Item)
    requires t.Interfaces? ==> WellFormedInterface(t.i) && SoundInterface(t.i)
    ensures Run(Idle(None, done, includes), ItemEvents(t)) == Built(Idle(None, done + Adds(t).0, includes + Adds(t).1))
  {
    hide WellFormedInterface, SoundInterface, Run, InterfaceEvents, InterfaceOf;
    var s := Idle(None, done, includes);
    assert done + [] == done && includes + [] == includes;
    match t {
      case Between(_) => RunNothing(s);
      case Includes(_, path, _, _) => RunOne(s, IncludePath(path));
      case Interfaces(x) => RunInterface(done, includes, x);
    }
  }

  lemma DescriptionCons(done: seq<Interface>, includes: seq<Text>, items: seq<Item>)
    requires items != []
    ensures done + Description(items) == done + Adds(items[0]).0 + Description(items[1..])
    ensures includes + Paths(items) == includes + Adds(items[0]).1 + Paths(items[1..])
  {
    hide InterfaceOf;
    var t := items[0];
    assert Description(items) == Adds(t).0 + Description(items[1..]);
    assert Paths(items) == Adds(t).1 + Paths(items[1..]);
    Regroup(done, Adds(t).0, Description(items[1..]));
    Regroup(includes, Adds(t).1, Paths(items[1..]));
  }

  lemma {:induction false} RunFile(done: seq<Interface>, includes: seq<Text>, items: seq<Item>)
    requires WellFormedFile(items) && SoundFile(items)
    ensures Run(Idle(None, done, includes), FileEvents(items)) ==
            Built(Idle(None, done + Description(items), includes + Paths(items)))
    decreases |items|
  {
    hide WellFormedFile, WellFormedInterface, SoundInterface, WellFormedFiller, Run, ItemEvents, ItemText, Adds;
    var s := Idle(None, done, includes);
    if items == [] {
      RunNothing(s);
      assert done + [] == done && includes + [] == includes;
    } else {
      hide Description, Paths;
      FileFacts(items);
      var t := items[0];
      RunItem(done, includes, t);
      RunTwo(s, ItemEvents(t), FileEvents(items[1..]), Idle(None, done + Adds(t).0, includes + Adds(t).1));
      RunFile(done + Adds(t).0, includes + Adds(t).1, items[1..]);
      DescriptionCons(done, includes, items);
    }
  }

  // The main result: every well-formed file is accepted, and the builder ends with exactly the interfaces and include
  // paths that stand in it.
  lemma ReadsBack(items: seq<Item>)
    requires WellFormedFile(items) && SoundFile(items)
    ensures var r := IdlGrammar.Parse(FileText(items));
            && r.Match?
            && var o := Run(Fresh(), r.fired);
               o.Built? && o.s.done == Description(items) && o.s.includes == Paths(items) && o.s.current == None
  {
    hide IdlGrammar.Parse, FileText, FileEvents, Run, WellFormedFile, SoundFile, Description, Paths;
    AcceptsWritten(items);
    RunFile([], [], items);
    assert [] + Description(items) == Description(items) && [] + Paths(items) == Paths(items);
    assert Fresh() == Idle(None, [], []);
  }
}

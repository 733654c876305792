// For every input: it is accepted and built exactly if it is a well-formed file whose methods the builder does not
// refuse, and then the description is what stands in it.
module IdlExact {
  import opened IdlBuilder
  import opened IdlGrammar
  import opened IdlSyntax
  import opened IdlReading
  import opened IdlAccepting
  import MurmurHash
  import opened IdlReadBack

  // ----- runs that were not cut short -----

  lemma BuiltPrefix(s: State, a: seq<Event>, b: seq<Event>)
    requires Run(s, a + b).Built?
    ensures Run(s, a).Built? && Run(s, a + b) == Run(Run(s, a).s, b)
  {
    hide Run;
    RunConcat(s, a, b);
  }

  lemma BuiltFirst(s: State, e: Event, rest: seq<Event>)
    requires Run(s, [e] + rest).Built?
    ensures Apply(s, e).Built? && Run(s, [e] + rest) == Run(Apply(s, e).s, rest)
  {
    hide Run, Apply;
    BuiltPrefix(s, [e], rest);
    RunOne(s, e);
  }

  // ----- decorators -----

  lemma DecoratorSound(i: Interface, done: seq<Interface>, m: Method, tags: map<Text, Text>, includes: seq<Text>,
                       d: Decorator)
    requires Run(InMethod(i, done, m, NoContext, tags, includes), DecoratorEvents(d)).Built?
    ensures d.value != [] && d.key !in tags
  {
    hide Run;
    var s := InMethod(i, done, m, NoContext, tags, includes);
    var s1 := s.(decoratorKey := d.key);
    var s2 := s1.(decoratorValue := d.value);
    assert DecoratorEvents(d) == [DecoratorKey(d.key)] + [DecoratorValue(d.value), DecoratorClose];
    assert [DecoratorValue(d.value), DecoratorClose] == [DecoratorValue(d.value)] + [DecoratorClose];
    BuiltFirst(s, DecoratorKey(d.key), [DecoratorValue(d.value), DecoratorClose]);
    BuiltFirst(s1, DecoratorValue(d.value), [DecoratorClose]);
    RunOne(s2, DecoratorClose);
  }

  lemma {:induction false} DecoratorsSound(i: Interface, done: seq<Interface>, m: Method, tags: map<Text, Text>,
                                           includes: seq<Text>, ds: seq<Decorator>)
    requires forall k :: 0 <= k < |ds| ==> ds[k].key != []
    requires Run(InMethod(i, done, m, NoContext, tags, includes), DecoratorsEvents(ds)).Built?
    ensures SoundDecorators(ds) && forall k :: 0 <= k < |ds| ==> ds[k].key !in tags
    decreases |ds|
  {
    hide Run, DecoratorEvents;
    if ds == [] {
    } else {
      var s, d := InMethod(i, done, m, NoContext, tags, includes), ds[0];
      var next := tags[d.key := d.value];
      BuiltPrefix(s, DecoratorEvents(d), DecoratorsEvents(ds[1..]));
      DecoratorSound(i, done, m, tags, includes, d);
      RunDecorator(i, done, m, tags, includes, d);
      DecoratorsSound(i, done, m, next, includes, ds[1..]);
      ConsSound(tags, ds);
    }
  }

  lemma ConsSound(tags: map<Text, Text>, ds: seq<Decorator>)
    requires ds != [] && ds[0].value != [] && ds[0].key !in tags && SoundDecorators(ds[1..])
    requires forall k :: 0 <= k < |ds[1..]| ==> ds[1..][k].key !in tags[ds[0].key := ds[0].value]
    ensures SoundDecorators(ds) && forall k :: 0 <= k < |ds| ==> ds[k].key !in tags
  {
    forall k | 1 <= k < |ds|
      ensures ds[k].value != [] && ds[k].key !in tags && ds[k].key != ds[0].key
    {
      assert ds[k] == ds[1..][k - 1];
    }
    forall j, k | 1 <= j < k < |ds|
      ensures ds[j].key != ds[k].key
    {
      assert ds[j] == ds[1..][j - 1] && ds[k] == ds[1..][k - 1];
    }
  }

  // ----- methods -----

  // The end of a method that was built gives it the identifier its decorators stand for.
  lemma EndSound(s: State, m: MethodSyntax)
    requires s.current.Some? && s.building.Some? && s.decorators == Tagged(map[], m.decorators)
    requires SoundDecorators(m.decorators) && m.id == IdFor(m.decorators, m.name) && Apply(s, MethodEnd).Built?
    ensures Identifies(m.decorators, m.name, m.id)
  {
    hide ParseId, Numeral, HashId;
    TaggedIs(map[], m.decorators, IDENTIFIER);
    assert IDENTIFIER == IDENTIFIER_KEY;
    if IDENTIFIER in s.decorators {
      OnlyNumerals(s.decorators[IDENTIFIER]);
    } else {
      HashIs(m.name);
    }
  }

  lemma HashIs(name: Text)
    ensures HashId(name) == MurmurHash.Hash(name, 0xB64C_6EF1_0B0E_96F9)
  {
  }

  lemma MethodSound(i: Interface, done: seq<Interface>, includes: seq<Text>, m: MethodSyntax)
    requires WellFormedMethod(m) && m.id == IdFor(m.decorators, m.name)
    requires Run(Idle(Some(i), done, includes), MethodEvents(m)).Built?
    ensures SoundMethod(m) && !HasMethod(i.methods, m.name)
  {
    hide WellFormedMethod, SoundDecorators, ValidArgs, ValidReply, HashId, HasMethod, CustomsIn, Run, Apply, Tagged,
      IdFor, Unfinished, DecoratorsEvents, AfterTags, MethodEvents, Identifies;
    MethodParts(m);
    MethodEventsAre(m);
    var tags, start := Tagged(map[], m.decorators), Method(m.name, false, HashId(m.name), [], []);
    var s0, s1 := Idle(Some(i), done, includes), InMethod(i, done, start, NoContext, map[], includes);
    StartsMethod(i, done, includes, m);
    BuiltFirst(s0, MethodName(m.name), DecoratorsEvents(m.decorators) + AfterTags(m));
    BuiltPrefix(s1, DecoratorsEvents(m.decorators), AfterTags(m));
    DecoratorsSound(i, done, start, map[], includes, m.decorators);
    RunDecorators(i, done, start, map[], includes, m.decorators);
    RunArguments(i, done, includes, m, tags);
    EndSound(InMethod(Counting(i, CustomsIn(m)), done, Unfinished(m), NoContext, tags, includes), m);
  }

  // ----- interfaces and files -----

  lemma DistinctSnoc(ms: seq<Method>, m: Method)
    requires Distinct(ms) && !HasMethod(ms, m.name)
    ensures Distinct(ms + [m])
  {
  }

  lemma {:induction false} PartsSound(i: Interface, done: seq<Interface>, includes: seq<Text>, parts: seq<Part>,
                                      rest: Text)
    requires WellFormedParts(parts, rest) && Numbered(parts) && Distinct(i.methods)
    requires Run(Idle(Some(i), done, includes), PartsEvents(parts)).Built?
    ensures SoundParts(parts) && Distinct(i.methods + MethodsOf(parts))
    decreases |parts|
  {
    hide WellFormedParts, WellFormedMethod, WellFormedFiller, SoundMethod, Run, Distinct, MethodEvents, MethodOf,
      CustomsIn, PartsText, IdFor;
    if parts == [] {
      assert i.methods + [] == i.methods;
    } else {
      PartsFacts(parts, rest);
      var s, more := Idle(Some(i), done, includes), PartsEvents(parts[1..]);
      assert Numbered(parts[1..]);
      match parts[0] {
        case Filling(_) =>
          assert PartsEvents(parts) == more && MethodsOf(parts) == MethodsOf(parts[1..]);
          PartsSound(i, done, includes, parts[1..], rest);
          SoundCons(parts);
        case Declares(_, m) =>
          BuiltPrefix(s, MethodEvents(m), more);
          MethodSound(i, done, includes, m);
          RunMethod(i, done, includes, m);
          MethodNameIs(m);
          DistinctSnoc(i.methods, MethodOf(m));
          var i1 := Counting(i, CustomsIn(m)).(methods := i.methods + [MethodOf(m)]);
          PartsSound(i1, done, includes, parts[1..], rest);
          SoundCons(parts);
          Regroup(i.methods, [MethodOf(m)], MethodsOf(parts[1..]));
      }
    }
  }

  lemma SoundCons(parts: seq<Part>)
    requires parts != [] && SoundParts(parts[1..]) && (parts[0].Declares? ==> SoundMethod(parts[0].m))
    ensures SoundParts(parts)
  {
    hide SoundMethod;
    forall k | 0 <= k < |parts| && parts[k].Declares?
      ensures SoundMethod(parts[k].m)
    {
      if k > 0 {
        assert parts[k] == parts[1..][k - 1];
      }
    }
  }

  lemma InterfaceSound(done: seq<Interface>, includes: seq<Text>, x: InterfaceSyntax)
    requires WellFormedInterface(x) && Numbered(x.parts)
    requires Run(Idle(None, done, includes), InterfaceEvents(x)).Built?
    ensures SoundInterface(x)
  {
    hide WellFormedParts, SoundParts, Numbered, Run, PartsEvents, MethodsOf;
    var s, start := Idle(None, done, includes), Interface(x.name, [], 0);
    var s1 := Idle(Some(start), done, includes);
    assert InterfaceEvents(x) == [InterfaceName(x.name)] + (PartsEvents(x.parts) + [InterfaceEnd]);
    BuiltFirst(s, InterfaceName(x.name), PartsEvents(x.parts) + [InterfaceEnd]);
    BuiltPrefix(s1, PartsEvents(x.parts), [InterfaceEnd]);
    PartsSound(start, done, includes, x.parts, ClosingText(x));
    assert [] + MethodsOf(x.parts) == MethodsOf(x.parts);
  }

  lemma {:induction false} FileSound(done: seq<Interface>, includes: seq<Text>, items: seq<Item>)
    requires WellFormedFile(items) && AllNumbered(items)
    requires Run(Idle(None, done, includes), FileEvents(items)).Built?
    ensures SoundFile(items)
    decreases |items|
  {
    hide WellFormedFile, WellFormedInterface, WellFormedFiller, SoundInterface, Run, ItemEvents, ItemText, Adds,
      Numbered;
    if items == [] {
    } else {
      FileFacts(items);
      var s, t := Idle(None, done, includes), items[0];
      BuiltPrefix(s, ItemEvents(t), FileEvents(items[1..]));
      ItemSound(done, includes, t);
      RunItem(done, includes, t);
      FileSound(done + Adds(t).0, includes + Adds(t).1, items[1..]);
      forall k | 0 <= k < |items| && items[k].Interfaces?
        ensures SoundInterface(items[k].i)
      {
        if k > 0 {
          assert items[k] == items[1..][k - 1];
        }
      }
    }
  }

  lemma ItemSound(done: seq<Interface>, includes: seq<Text>, t: Item)
    requires t.Interfaces? ==> WellFormedInterface(t.i) && Numbered(t.i.parts)
    requires Run(Idle(None, done, includes), ItemEvents(t)).Built?
    ensures t.Interfaces? ==> SoundInterface(t.i)
  {
    hide WellFormedInterface, SoundInterface, Run, InterfaceEvents, Numbered;
    if t.Interfaces? {
      InterfaceSound(done, includes, t.i);
    }
  }

  // A text and what it builds.
  ghost predicate Describes(items: seq<Item>, text: Text, done: seq<Interface>, includes: seq<Text>) {
    && WellFormedFile(items) && SoundFile(items) && FileText(items) == text
    && done == Description(items) && includes == Paths(items)
  }

  // The main result: an input is parsed and built without exception or failed assert if and only if it is a well-formed
  // file whose methods are sound, and what comes out is what stands in it.
  lemma BuiltExactly(text: Text)
    ensures Parse(text).Match? && Run(Fresh(), Parse(text).fired).Built? <==>
              exists items :: WellFormedFile(items) && SoundFile(items) && FileText(items) == text
    ensures Parse(text).Match? && Run(Fresh(), Parse(text).fired).Built? ==>
              var s := Run(Fresh(), Parse(text).fired).s;
              exists items :: Describes(items, text, s.done, s.includes)
  {
    hide Parse, Run, WellFormedFile, SoundFile, FileText, FileEvents, Description, Paths, AllNumbered;
    assert Fresh() == Idle(None, [], []);
    if Parse(text).Match? && Run(Fresh(), Parse(text).fired).Built? {
      var items := WasWritten(text);
      FileSound([], [], items);
      ReadsBack(items);
      assert Describes(items, text, Description(items), Paths(items));
    }
    forall items | WellFormedFile(items) && SoundFile(items) && FileText(items) == text
      ensures Parse(text).Match? && Run(Fresh(), Parse(text).fired).Built?
    {
      ReadsBack(items);
    }
  }
}

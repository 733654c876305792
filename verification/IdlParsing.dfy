// The actions the grammar fires, those before a rewind included, against the asserts of the builder.
module IdlParsing {
  import opened IdlBuilder
  import opened IdlGrammar

  // Action k closes a decorator group whose value is empty, and everything before it went through.
  ghost predicate EmptyClose(s: State, fired: seq<Event>, k: nat) {
    0 < k < |fired| && fired[k] == DecoratorClose && fired[k - 1] == DecoratorValue([]) && Run(s, fired[..k]).Built?
  }

  // An assert fails only for an empty decorator value.
  ghost predicate Harmless(s: State, fired: seq<Event>) {
    Run(s, fired) == Tripped ==> exists k :: EmptyClose(s, fired, k)
  }

  lemma HarmlessConcat(s: State, a: seq<Event>, b: seq<Event>)
    requires Harmless(s, a) && (Run(s, a).Built? ==> Harmless(Run(s, a).s, b))
    ensures Harmless(s, a + b)
  {
    hide Apply;
    RunConcat(s, a, b);
    if Run(s, a + b) == Tripped {
      if Run(s, a) == Tripped {
        var k: nat :| EmptyClose(s, a, k);
        assert (a + b)[..k] == a[..k];
        assert EmptyClose(s, a + b, k);
      } else {
        var t := Run(s, a).s;
        var k: nat :| EmptyClose(t, b, k);
        assert (a + b)[..|a| + k] == a + b[..k];
        RunConcat(s, a, b[..k]);
        assert EmptyClose(s, a + b, |a| + k);
      }
    }
  }

  // Between interfaces, between methods of one, and inside a method.
  ghost predicate AtTop(s: State) { Good(s) && s.current.None? && s.building.None? && s.argContext == NoContext }

  ghost predicate InBody(s: State) { Good(s) && s.current.Some? && s.building.None? && s.argContext == NoContext }

  ghost predicate InMethod(s: State, c: ArgContext) {
    Good(s) && s.current.Some? && s.building.Some? && s.argContext == c
  }

  // One action that does not trip and leads into a method state.
  lemma OneInMethod(s: State, e: Event, c: ArgContext, d: ArgContext)
    requires InMethod(s, c)
    requires match e
             case ArgName(_) => d == c
             case ArgType(_) => d == c
             case DecoratorKey(_) => d == c
             case DecoratorValue(_) => d == c
             case AsyncMarker => d == c
             case SyncMarker => d == c
             case ArgsOpen => c == NoContext && d == Parameter
             case ArgsClose => c == Parameter && d == NoContext
             case ReturnOpen => c == NoContext && d == Return
             case ReturnClose => c == Return && d == NoContext
             case ArgEnd => c != NoContext && d == c && s.argName != [] && s.argTypename != []
             case DecoratorClose => d == c && s.decoratorKey != [] && s.decoratorValue != []
             case _ => false
    ensures Run(s, [e]) == Apply(s, e) != Tripped
    ensures Apply(s, e).Built? ==> InMethod(Apply(s, e).s, d)
  {
    hide Good, IsBuiltin;
    RunOne(s, e);
    ApplyGood(s, e);
  }

  lemma RunPair(s: State, e: Event, rest: seq<Event>)
    ensures Run(s, [e] + rest) == Then(Apply(s, e), rest)
  {
  }

  ghost predicate SafeInMethod(s: State, fired: seq<Event>, c: ArgContext) {
    Harmless(s, fired) && (Run(s, fired).Built? ==> InMethod(Run(s, fired).s, c))
  }

  lemma SafeConcat(s: State, a: seq<Event>, b: seq<Event>, c: ArgContext, d: ArgContext)
    requires SafeInMethod(s, a, c)
    requires forall t :: InMethod(t, c) && Run(s, a) == Built(t) ==> SafeInMethod(t, b, d)
    ensures SafeInMethod(s, a + b, d)
  {
    hide InMethod, Harmless;
    RunConcat(s, a, b);
    HarmlessConcat(s, a, b);
  }

  // ----- arguments -----

  lemma ArgSafe(text: Text, i: nat, s: State, c: ArgContext)
    requires i <= |text| && InMethod(s, c) && c != NoContext
    ensures SafeInMethod(s, Arg(text, i).fired, c)
  {
    hide Good, InMethod, Apply;
    var fired := Arg(text, i).fired;
    if fired != [] {
      OneArgName(s, fired[0], c);
      var t := Apply(s, fired[0]).s;
      if |fired| == 1 {
        assert fired == [fired[0]];
      } else {
        assert fired == [fired[0]] + [fired[1], fired[2]];
        RunPair(s, fired[0], [fired[1], fired[2]]);
        OneArgType(t, fired[1], c);
        var u := Apply(t, fired[1]).s;
        assert [fired[1], fired[2]] == [fired[1]] + [fired[2]];
        RunPair(t, fired[1], [fired[2]]);
        OneInMethod(u, ArgEnd, c, c);
      }
    } else {
      assert Run(s, fired) == Built(s);
    }
  }

  lemma OneArgName(s: State, e: Event, c: ArgContext)
    requires InMethod(s, c) && e.ArgName?
    ensures Run(s, [e]) == Apply(s, e) && Apply(s, e).Built?
    ensures InMethod(Apply(s, e).s, c) && Apply(s, e).s.argName == e.text
  {
  }

  lemma OneArgType(s: State, e: Event, c: ArgContext)
    requires InMethod(s, c) && e.ArgType?
    ensures Apply(s, e).Built? && InMethod(Apply(s, e).s, c)
    ensures Apply(s, e).s.argName == s.argName && Apply(s, e).s.argTypename == e.text
  {
  }

  lemma {:induction false} NextArgsSafe(text: Text, i: nat, s: State, c: ArgContext)
    requires i <= |text| && InMethod(s, c) && c != NoContext
    ensures SafeInMethod(s, NextArgs(text, i).fired, c)
    decreases |text| - i
  {
    hide InMethod, Arg, Apply, SafeInMethod;
    if !Is(text, i, 44) {
      SafeNothing(s, c);
    } else {
      var r := Arg(text, Spaces(text, i + 1));
      ArgSafe(text, Spaces(text, i + 1), s, c);
      if r.Match? {
        forall t | InMethod(t, c) && Run(s, r.fired) == Built(t)
          ensures SafeInMethod(t, NextArgs(text, r.at).fired, c)
        {
          NextArgsSafe(text, r.at, t, c);
        }
        SafeConcat(s, r.fired, NextArgs(text, r.at).fired, c, c);
      }
    }
  }

  lemma SafeNothing(s: State, c: ArgContext)
    requires InMethod(s, c)
    ensures SafeInMethod(s, [], c)
  {
  }

  lemma ArgsSafe(text: Text, i: nat, s: State, c: ArgContext)
    requires i <= |text| && InMethod(s, c) && c != NoContext
    ensures SafeInMethod(s, Args(text, i).fired, c)
  {
    hide InMethod, Arg, Apply, SafeInMethod, NextArgs;
    var r := Arg(text, i);
    ArgSafe(text, i, s, c);
    if r.Match? {
      forall t | InMethod(t, c) && Run(s, r.fired) == Built(t)
        ensures SafeInMethod(t, NextArgs(text, r.at).fired, c)
      {
        NextArgsSafe(text, r.at, t, c);
      }
      SafeConcat(s, r.fired, NextArgs(text, r.at).fired, c, c);
    }
  }

  lemma OneSafe(s: State, e: Event, c: ArgContext, d: ArgContext)
    requires InMethod(s, c)
    requires || (e == ArgsOpen && c == NoContext && d == Parameter)
             || (e == ArgsClose && c == Parameter && d == NoContext)
             || (e == ReturnOpen && c == NoContext && d == Return)
             || (e == ReturnClose && c == Return && d == NoContext)
             || ((e == AsyncMarker || e == SyncMarker) && d == c)
    ensures SafeInMethod(s, [e], d)
  {
    OneInMethod(s, e, c, d);
  }

  // A parenthesised list: if it matches, its context is closed again; if it fails the parse, nothing tripped.
  lemma ArgsGroupSafe(text: Text, i: nat, s: State, open: Event, close: Event, c: ArgContext)
    requires i <= |text| && InMethod(s, NoContext)
    requires (open == ArgsOpen && close == ArgsClose && c == Parameter)
               || (open == ReturnOpen && close == ReturnClose && c == Return)
    ensures var r := ArgsGroup(text, i, open, close);
            Harmless(s, r.fired) && (r.Match? ==> SafeInMethod(s, r.fired, NoContext))
  {
    hide InMethod, Apply, SafeInMethod, Args;
    if !Is(text, i, 40) {
      assert Run(s, []) == Built(s);
    } else {
      var args := Args(text, i + 1);
      var fired := [open] + args.fired;
      OneSafe(s, open, NoContext, c);
      forall t | InMethod(t, c) && Run(s, [open]) == Built(t)
        ensures SafeInMethod(t, args.fired, c)
      {
        ArgsSafe(text, i + 1, t, c);
      }
      SafeConcat(s, [open], args.fired, c, c);
      forall t | InMethod(t, c) && Run(s, fired) == Built(t)
        ensures SafeInMethod(t, [close], NoContext)
      {
        OneSafe(t, close, c, NoContext);
      }
      SafeConcat(s, fired, [close], c, NoContext);
      SafeHarmless(s, fired, c);
      if Is(text, args.at, 41) {
        SafeHarmless(s, fired + [close], NoContext);
      }
    }
  }

  lemma SafeHarmless(s: State, fired: seq<Event>, c: ArgContext)
    requires SafeInMethod(s, fired, c)
    ensures Harmless(s, fired)
  {
  }

  // ----- decorators -----

  lemma DecoratorGroupSafe(text: Text, i: nat, s: State)
    requires i <= |text| && InMethod(s, NoContext)
    ensures SafeInMethod(s, DecoratorGroup(text, i).fired, NoContext)
  {
    hide Good, InMethod, Apply;
    var fired := DecoratorGroup(text, i).fired;
    if fired == [] {
      assert Run(s, fired) == Built(s);
    } else {
      OneKey(s, fired[0]);
      var t := Apply(s, fired[0]).s;
      if |fired| == 1 {
        assert fired == [fired[0]];
      } else {
        var rest := fired[1..];
        assert fired == [fired[0]] + rest;
        RunPair(s, fired[0], rest);
        OneValue(t, fired[1]);
        var u := Apply(t, fired[1]).s;
        if |fired| == 2 {
          assert rest == [fired[1]];
        } else {
          assert rest == [fired[1]] + [DecoratorClose];
          RunPair(t, fired[1], [DecoratorClose]);
          CloseSafe(s, fired, u);
        }
      }
    }
  }

  // The close of a group: fine with a value, the only failing assert without one.
  lemma CloseSafe(s: State, fired: seq<Event>, u: State)
    requires |fired| == 3 && fired[0].DecoratorKey? && fired[1].DecoratorValue? && fired[2] == DecoratorClose
    requires InMethod(u, NoContext) && u.decoratorKey != [] && u.decoratorValue == fired[1].text
    requires Apply(s, fired[0]).Built? && Apply(Apply(s, fired[0]).s, fired[1]) == Built(u)
    requires Run(s, fired) == Run(u, [DecoratorClose])
    ensures SafeInMethod(s, fired, NoContext)
  {
    hide Good, InMethod, Apply;
    assert fired[..2] == [fired[0]] + [fired[1]];
    RunPair(s, fired[0], [fired[1]]);
    RunOne(Apply(s, fired[0]).s, fired[1]);
    assert Run(s, fired[..2]) == Built(u);
    if fired[1].text == [] {
      EmptyTrips(u);
      assert EmptyClose(s, fired, 2);
    } else {
      OneInMethod(u, DecoratorClose, NoContext, NoContext);
    }
  }

  lemma EmptyTrips(u: State)
    requires u.decoratorValue == []
    ensures Run(u, [DecoratorClose]) == Tripped
  {
  }

  lemma OneKey(s: State, e: Event)
    requires InMethod(s, NoContext) && e.DecoratorKey?
    ensures Run(s, [e]) == Apply(s, e) && Apply(s, e).Built?
    ensures InMethod(Apply(s, e).s, NoContext) && Apply(s, e).s.decoratorKey == e.text
  {
  }

  lemma OneValue(s: State, e: Event)
    requires InMethod(s, NoContext) && e.DecoratorValue?
    ensures Run(s, [e]) == Apply(s, e) && Apply(s, e).Built? && InMethod(Apply(s, e).s, NoContext)
    ensures Apply(s, e).s.decoratorKey == s.decoratorKey && Apply(s, e).s.decoratorValue == e.text
  {
  }

  lemma {:induction false} DecoratorsSafe(text: Text, i: nat, s: State)
    requires i <= |text| && InMethod(s, NoContext)
    ensures SafeInMethod(s, Decorators(text, i).fired, NoContext)
    decreases |text| - i
  {
    hide InMethod, Apply, SafeInMethod, DecoratorGroup;
    var r := DecoratorGroup(text, i);
    if r.Match? {
      var rest := Decorators(text, r.at).fired;
      DecoratorGroupSafe(text, i, s);
      forall t | InMethod(t, NoContext) && Run(s, r.fired) == Built(t)
        ensures SafeInMethod(t, rest, NoContext)
      {
        DecoratorsSafe(text, r.at, t);
      }
      SafeConcat(s, r.fired, rest, NoContext, NoContext);
    } else {
      DecoratorGroupSafe(text, i, s);
    }
  }

  // ----- methods and interfaces -----

  lemma ReturnTypeSafe(text: Text, i: nat, s: State)
    requires i <= |text| && InMethod(s, NoContext)
    ensures var r := ReturnType(text, i);
            Harmless(s, r.fired) && (r.Match? ==> SafeInMethod(s, r.fired, NoContext))
  {
    hide InMethod, Apply, SafeInMethod, ArgsGroup;
    if At(text, i, [61, 124]) {
      OneSafe(s, AsyncMarker, NoContext, NoContext);
      SafeHarmless(s, [AsyncMarker], NoContext);
    } else if !At(text, i, [61, 62]) {
      assert Run(s, []) == Built(s);
    } else {
      OneSafe(s, SyncMarker, NoContext, NoContext);
      var g := ArgsGroup(text, Blanks(text, i + 2), ReturnOpen, ReturnClose);
      RunConcat(s, [SyncMarker], g.fired);
      SafeHarmless(s, [SyncMarker], NoContext);
      forall t | InMethod(t, NoContext) && Run(s, [SyncMarker]) == Built(t)
        ensures Harmless(t, g.fired) && (g.Match? ==> SafeInMethod(t, g.fired, NoContext))
      {
        ArgsGroupSafe(text, Blanks(text, i + 2), t, ReturnOpen, ReturnClose, Return);
      }
      SafeThen(s, [SyncMarker], g.fired, NoContext, NoContext, g.Match?);
    }
  }

  // Safe actions followed by actions that do not trip, and are safe if they matched.
  lemma SafeThen(s: State, a: seq<Event>, b: seq<Event>, c: ArgContext, d: ArgContext, matched: bool)
    requires SafeInMethod(s, a, c)
    requires forall t :: InMethod(t, c) && Run(s, a) == Built(t) ==>
               Harmless(t, b) && (matched ==> SafeInMethod(t, b, d))
    ensures Harmless(s, a + b) && (matched ==> SafeInMethod(s, a + b, d))
  {
    hide InMethod, Harmless;
    RunConcat(s, a, b);
    HarmlessConcat(s, a, b);
  }

  ghost predicate SafeInBody(s: State, fired: seq<Event>) {
    Harmless(s, fired) && (Run(s, fired).Built? ==> InBody(Run(s, fired).s))
  }

  lemma BeginMethodSafe(s: State, name: Text)
    requires InBody(s)
    ensures SafeInMethod(s, [MethodName(name)], NoContext)
  {
    hide Good, HashId;
    var e := MethodName(name);
    RunOne(s, e);
    ApplyGood(s, e);
  }

  lemma EndMethodSafe(s: State)
    requires InMethod(s, NoContext)
    ensures SafeInBody(s, [MethodEnd])
  {
    hide Good, ParseId;
    RunOne(s, MethodEnd);
    ApplyGood(s, MethodEnd);
  }

  // From the name up to the decorators, then the parameters, then the results.
  lemma MethodSafe(text: Text, i: nat, s: State)
    requires i <= |text| && InBody(s)
    ensures var r := MethodRule(text, i);
            Harmless(s, r.fired) && (r.Match? ==> SafeInBody(s, r.fired))
  {
    hide InMethod, InBody, Apply, SafeInMethod, SafeInBody, ArgsGroup, ReturnType, Decorators;
    var k := Identifier(text, i);
    if k == i {
      assert Run(s, []) == Built(s);
    } else {
      var name := [MethodName(text[i..k])];
      var d := Decorators(text, Blanks(text, k));
      var head := name + d.fired;
      var args := ArgsGroup(text, Blanks(text, d.at), ArgsOpen, ArgsClose);
      BeginMethodSafe(s, text[i..k]);
      forall t | InMethod(t, NoContext) && Run(s, name) == Built(t)
        ensures SafeInMethod(t, d.fired, NoContext)
      {
        DecoratorsSafe(text, Blanks(text, k), t);
      }
      SafeConcat(s, name, d.fired, NoContext, NoContext);
      forall t | InMethod(t, NoContext) && Run(s, head) == Built(t)
        ensures Harmless(t, args.fired) && (args.Match? ==> SafeInMethod(t, args.fired, NoContext))
      {
        ArgsGroupSafe(text, Blanks(text, d.at), t, ArgsOpen, ArgsClose, Parameter);
      }
      SafeThen(s, head, args.fired, NoContext, NoContext, args.Match?);
      if args.Match? {
        ResultsSafe(text, args.at, s, head + args.fired);
      }
    }
  }

  lemma ResultsSafe(text: Text, at: nat, s: State, before: seq<Event>)
    requires at <= |text| && SafeInMethod(s, before, NoContext)
    ensures var ret := ReturnType(text, Blanks(text, at));
            && Harmless(s, before + ret.fired)
            && (ret.Match? ==>
                 SafeInBody(s, before + ret.fired + [MethodEnd]) && Harmless(s, before + ret.fired + [MethodEnd]))
  {
    hide InMethod, InBody, Apply, SafeInMethod, ReturnType;
    var ret := ReturnType(text, Blanks(text, at));
    forall t | InMethod(t, NoContext) && Run(s, before) == Built(t)
      ensures Harmless(t, ret.fired) && (ret.Match? ==> SafeInMethod(t, ret.fired, NoContext))
    {
      ReturnTypeSafe(text, Blanks(text, at), t);
    }
    SafeThen(s, before, ret.fired, NoContext, NoContext, ret.Match?);
    if ret.Match? {
      BodyAfter(s, before + ret.fired);
    }
  }

  lemma BodyAfter(s: State, before: seq<Event>)
    requires SafeInMethod(s, before, NoContext)
    ensures SafeInBody(s, before + [MethodEnd])
  {
    hide InMethod, InBody, Apply, Harmless;
    RunConcat(s, before, [MethodEnd]);
    if Run(s, before).Built? {
      EndMethodSafe(Run(s, before).s);
    }
    HarmlessConcat(s, before, [MethodEnd]);
  }

  lemma MemberSafe(text: Text, i: nat, s: State)
    requires i <= |text| && InBody(s)
    ensures var r := Member(text, i);
            Harmless(s, r.fired) && (r.Match? ==> SafeInBody(s, r.fired))
  {
    hide InBody, MethodRule;
    assert Run(s, []) == Built(s);
    if !(EmptyLine(text, i) > i) && !(Comment(text, i) > i) {
      MethodSafe(text, Spaces(text, i), s);
    }
  }

  lemma {:induction false} ContentSafe(text: Text, i: nat, s: State)
    requires i <= |text| && InBody(s)
    ensures var r := Content(text, i);
            Harmless(s, r.fired) && (r.Match? ==> SafeInBody(s, r.fired))
    decreases |text| - i
  {
    hide InBody, Member, Harmless;
    var m := Member(text, i);
    if m.Match? {
      var rest := Content(text, m.at);
      MemberSafe(text, i, s);
      RunConcat(s, m.fired, rest.fired);
      if Run(s, m.fired).Built? {
        ContentSafe(text, m.at, Run(s, m.fired).s);
      }
      HarmlessConcat(s, m.fired, rest.fired);
    } else {
      MemberSafe(text, i, s);
    }
  }

  ghost predicate SafeAtTop(s: State, fired: seq<Event>) {
    Harmless(s, fired) && (Run(s, fired).Built? ==> AtTop(Run(s, fired).s))
  }

  lemma BeginInterfaceSafe(s: State, name: Text)
    requires AtTop(s)
    ensures SafeInBody(s, [InterfaceName(name)])
  {
  }

  lemma EndInterfaceSafe(s: State)
    requires InBody(s)
    ensures SafeAtTop(s, [InterfaceEnd])
  {
  }

  lemma InterfaceSafe(text: Text, i: nat, s: State)
    requires i <= |text| && AtTop(s)
    ensures var r := InterfaceRule(text, i);
            Harmless(s, r.fired) && (r.Match? ==> SafeAtTop(s, r.fired))
  {
    hide InBody, AtTop, Content;
    var fired := InterfaceRule(text, i).fired;
    if fired == [] {
      assert Run(s, []) == Built(s);
    } else {
      var name := fired[0].text;
      BeginInterfaceSafe(s, name);
      if fired != [InterfaceName(name)] {
        BodySafe(text, i, s);
      }
    }
  }

  // An interface whose opening brace was there.
  lemma BodySafe(text: Text, i: nat, s: State)
    requires i <= |text| && AtTop(s)
    requires InterfaceRule(text, i).fired != [] && |InterfaceRule(text, i).fired| > 1
    ensures var r := InterfaceRule(text, i);
            Harmless(s, r.fired) && (r.Match? ==> SafeAtTop(s, r.fired))
  {
    hide InBody, AtTop, Content, Harmless;
    var r := InterfaceRule(text, i);
    var n := Spaces(text, Spaces(text, i) + |KEYWORD|);
    var m := Identifier(text, n);
    var b := Spaces(text, m);
    var name := [InterfaceName(text[n..m])];
    var members := Content(text, b + 1);
    assert r.fired == name + members.fired + (if r.Match? then [InterfaceEnd] else []);
    BeginInterfaceSafe(s, text[n..m]);
    RunConcat(s, name, members.fired);
    if Run(s, name).Built? {
      ContentSafe(text, b + 1, Run(s, name).s);
    }
    HarmlessConcat(s, name, members.fired);
    if r.Match? {
      var before := name + members.fired;
      RunConcat(s, before, [InterfaceEnd]);
      if Run(s, before).Built? {
        EndInterfaceSafe(Run(s, before).s);
      }
      HarmlessConcat(s, before, [InterfaceEnd]);
    } else {
      assert r.fired == name + members.fired;
    }
  }

  lemma IncludeSafe(text: Text, i: nat, s: State)
    requires i <= |text| && AtTop(s)
    ensures Run(s, Include(text, i).fired).Built? && AtTop(Run(s, Include(text, i).fired).s)
  {
    hide Good;
    var fired := Include(text, i).fired;
    if fired == [] {
      assert Run(s, fired) == Built(s);
    } else {
      assert fired == [fired[0]] && fired[1..] == [];
      ApplyGood(s, fired[0]);
    }
  }

  lemma {:induction false} GrammarSafe(text: Text, i: nat, s: State)
    requires i <= |text| && AtTop(s)
    ensures var r := Grammar(text, i);
            Harmless(s, r.fired) && (r.Match? ==> SafeAtTop(s, r.fired))
    decreases |text| - i
  {
    hide AtTop, Include, InterfaceRule, Harmless;
    if EmptyLine(text, i) > i {
      GrammarSafe(text, EmptyLine(text, i), s);
    } else {
      var inc := Include(text, i);
      IncludeSafe(text, i, s);
      var t := Run(s, inc.fired).s;
      HarmlessBuilt(s, inc.fired);
      if inc.Match? {
        GrammarSafe(text, inc.at, t);
        TopConcat(s, inc.fired, Grammar(text, inc.at));
      } else if Comment(text, i) > i {
        GrammarSafe(text, Comment(text, i), t);
        TopConcat(s, inc.fired, Grammar(text, Comment(text, i)));
      } else {
        var r := InterfaceRule(text, i);
        var fired := inc.fired + r.fired;
        InterfaceSafe(text, i, t);
        TopConcat(s, inc.fired, r);
        if r.Match? {
          if Run(s, fired).Built? {
            GrammarSafe(text, r.at, Run(s, fired).s);
          }
          TopConcat(s, fired, Grammar(text, r.at));
        } else {
          assert i == |text| ==> r.fired == [] && fired == [];
          NothingAtTop(s);
        }
      }
    }
  }

  lemma HarmlessBuilt(s: State, fired: seq<Event>)
    requires Run(s, fired).Built?
    ensures Harmless(s, fired)
  {
  }

  lemma NothingAtTop(s: State)
    requires AtTop(s)
    ensures SafeAtTop(s, [])
  {
  }

  lemma TopConcat(s: State, before: seq<Event>, r: Result)
    requires Harmless(s, before)
    requires Run(s, before).Built? ==>
               var t := Run(s, before).s; Harmless(t, r.fired) && (r.Match? ==> SafeAtTop(t, r.fired))
    ensures Harmless(s, before + r.fired) && (r.Match? ==> SafeAtTop(s, before + r.fired))
  {
    hide AtTop, Harmless;
    RunConcat(s, before, r.fired);
    HarmlessConcat(s, before, r.fired);
  }

  lemma FreshAtTop()
    ensures AtTop(Fresh())
  {
  }

  // For every input, whatever the parse comes to: an assert of the builder fails if and only if a decorator
  // group with an empty value is closed before any exception.
  lemma TripsExactly(text: Text)
    ensures Run(Fresh(), Parse(text).fired) == Tripped <==> exists k :: EmptyClose(Fresh(), Parse(text).fired, k)
  {
    hide Grammar, Fresh;
    var fired := Parse(text).fired;
    FreshAtTop();
    GrammarSafe(text, 0, Fresh());
    if k :| EmptyClose(Fresh(), fired, k) {
      CloseTrips(Fresh(), fired, k);
    }
  }

  lemma CloseTrips(s: State, fired: seq<Event>, k: nat)
    requires EmptyClose(s, fired, k)
    ensures Run(s, fired) == Tripped
  {
    assert fired[..k] == fired[..k - 1] + [fired[k - 1]];
    RunConcat(s, fired[..k - 1], [fired[k - 1]]);
    RunOne(Run(s, fired[..k - 1]).s, fired[k - 1]);
    assert fired == fired[..k] + fired[k..];
    RunConcat(s, fired[..k], fired[k..]);
    assert fired[k..][0] == DecoratorClose;
  }

  // An accepted input that threw no exception leaves no interface, method or argument list open; every
  // interface counts exactly its arguments of custom types, and its methods have different names.
  lemma AcceptedIsClosed(text: Text)
    requires Parse(text).Match? && Run(Fresh(), Parse(text).fired).Built?
    ensures var s := Run(Fresh(), Parse(text).fired).s;
            && s.current == None && s.building == None && s.argContext == NoContext
            && forall k :: 0 <= k < |s.done| ==> Described(s.done[k], 0)
  {
    hide Grammar;
    FreshAtTop();
    GrammarSafe(text, 0, Fresh());
  }
}

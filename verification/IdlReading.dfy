// The grammar accepts every written interface description, and fires exactly the actions its pieces call for.
module IdlReading {
  import opened ByteOrder
  import opened IdlBuilder
  import opened IdlGrammar
  import opened IdlSyntax

  // ----- where a text stands -----

  lemma AtSplit(s: Text, i: nat, a: Text, b: Text)
    requires At(s, i, a + b)
    ensures At(s, i, a) && At(s, i + |a|, b)
  {
    var t := s[i..i + |a| + |b|];
    assert t[..|a|] == s[i..i + |a|] && (a + b)[..|a|] == a;
    assert t[|a|..] == s[i + |a|..i + |a| + |b|] && (a + b)[|a|..] == b;
  }

  lemma AtByte(s: Text, i: nat, b: Byte, rest: Text)
    requires At(s, i, [b] + rest)
    ensures Is(s, i, b) && At(s, i + 1, rest)
  {
    AtSplit(s, i, [b], rest);
    assert s[i..i + 1][0] == b;
  }

  lemma SliceAt(s: Text, i: nat, t: Text)
    requires At(s, i, t)
    ensures i + |t| <= |s| && s[i..i + |t|] == t
  {
  }

  lemma AtFirst(s: Text, i: nat, t: Text)
    requires At(s, i, t) && t != []
    ensures i < |s| && s[i] == t[0]
  {
    assert s[i..i + |t|][0] == t[0];
  }

  lemma {:induction false} BlanksOver(s: Text, i: nat, w: Text)
    requires At(s, i, w) && AllBlank(w) && (i + |w| < |s| ==> !BlankByte(s[i + |w|]))
    ensures Blanks(s, i) == i + |w|
    decreases |w|
  {
    if w == [] {
    } else {
      assert w == [w[0]] + w[1..];
      AtByte(s, i, w[0], w[1..]);
      BlanksOver(s, i + 1, w[1..]);
    }
  }

  lemma {:induction false} SpacesOver(s: Text, i: nat, w: Text)
    requires At(s, i, w) && AllWhite(w) && (i + |w| < |s| ==> !WhiteByte(s[i + |w|]))
    ensures Spaces(s, i) == i + |w|
    decreases |w|
  {
    if w == [] {
    } else {
      assert w == [w[0]] + w[1..];
      AtByte(s, i, w[0], w[1..]);
      SpacesOver(s, i + 1, w[1..]);
    }
  }

  lemma {:induction false} WordsOver(s: Text, i: nat, w: Text)
    requires At(s, i, w) && AllWord(w) && (i + |w| < |s| ==> !WordByte(s[i + |w|]))
    ensures Others(s, i) == i + |w| && Values(s, i) == i + |w|
    decreases |w|
  {
    if w == [] {
    } else {
      assert w == [w[0]] + w[1..];
      AtByte(s, i, w[0], w[1..]);
      WordsOver(s, i + 1, w[1..]);
    }
  }

  lemma NameOver(s: Text, i: nat, w: Text)
    requires At(s, i, w) && IsName(w) && (i + |w| < |s| ==> !WordByte(s[i + |w|]))
    ensures Identifier(s, i) == i + |w| && s[i..i + |w|] == w
  {
    assert w == [w[0]] + w[1..];
    AtByte(s, i, w[0], w[1..]);
    WordsOver(s, i + 1, w[1..]);
  }

  lemma {:induction false} TypeOver(s: Text, i: nat, w: Text)
    requires At(s, i, w) && TypeTail(w)
    requires i + |w| < |s| ==> !WordByte(s[i + |w|]) && s[i + |w|] != ':' as int
    ensures TypeRest(s, i) == i + |w|
    decreases |w|
  {
    hide At;
    if w == [] {
      NoColons(s, i);
    } else if WordByte(w[0]) {
      assert w == [w[0]] + w[1..];
      AtByte(s, i, w[0], w[1..]);
      TypeOver(s, i + 1, w[1..]);
    } else {
      assert w == [58, 58] + w[2..];
      AtSplit(s, i, [58, 58], w[2..]);
      AtFirst(s, i, [58, 58]);
      TypeOver(s, i + 2, w[2..]);
    }
  }

  lemma NoColons(s: Text, i: nat)
    requires i < |s| ==> s[i] != ':' as int
    ensures !At(s, i, [58, 58])
  {
    if At(s, i, [58, 58]) {
      AtFirst(s, i, [58, 58]);
      assert false;
    }
  }

  // White space and the mark behind it do not go on with a word.
  lemma WordEnds(w: Text, mark: Byte, rest: Text)
    requires AllWhite(w) && !WordByte(mark)
    ensures !WordByte((w + ([mark] + rest))[0])
  {
  }

  // ----- arguments -----

  function ArgEvents(a: ArgSyntax): seq<Event> { [ArgName(a.name), ArgType(a.typeName), ArgEnd] }

  function ArgsEvents(args: seq<ArgSyntax>): seq<Event> {
    if args == [] then [] else ArgEvents(args[0]) + ArgsEvents(args[1..])
  }

  lemma ArgFacts(a: ArgSyntax)
    requires ValidArg(a)
    ensures IsName(a.name) && AllWhite(a.before) && AllWhite(a.after) && IsTypeName(a.typeName)
    ensures a.name != [] && a.typeName != [] && Letter(a.typeName[0]) && Letter(a.name[0])
  {
  }

  // Behind the colon.
  function ArgRest(a: ArgSyntax): Text { a.after + a.typeName }

  lemma ArgTextIs(a: ArgSyntax)
    ensures ArgText(a) == a.name + (a.before + ([':' as int] + ArgRest(a)))
  {
  }

  // Where the pieces of an argument stand, and what stands behind its name and its white space.
  lemma ArgPieces(s: Text, i: nat, a: ArgSyntax)
    requires ValidArg(a) && At(s, i, ArgText(a))
    ensures var k, c := i + |a.name|, i + |a.name| + |a.before|;
            && At(s, i, a.name) && At(s, k, a.before) && Is(s, c, ':' as int) && At(s, c + 1, ArgRest(a))
            && k < |s| && !WordByte(s[k]) && i + |ArgText(a)| == c + 1 + |ArgRest(a)|
  {
    hide At, ValidArg, ArgRest, ArgText;
    ArgFacts(a);
    ArgTextIs(a);
    var rest := [':' as int] + ArgRest(a);
    AtSplit(s, i, a.name, a.before + rest);
    var k := i + |a.name|;
    AtFirst(s, k, a.before + rest);
    WordEnds(a.before, ':' as int, ArgRest(a));
    AtSplit(s, k, a.before, rest);
    AtByte(s, k + |a.before|, ':' as int, ArgRest(a));
  }

  lemma TypePieces(s: Text, i: nat, a: ArgSyntax)
    requires ValidArg(a) && At(s, i, ArgRest(a))
    ensures var t := i + |a.after|;
            && At(s, i, a.after) && At(s, t, a.typeName) && t < |s| && Letter(s[t])
            && i + |ArgRest(a)| == t + |a.typeName|
  {
    hide At, ValidArg;
    ArgFacts(a);
    AtSplit(s, i, a.after, a.typeName);
    AtFirst(s, i + |a.after|, a.typeName);
  }

  lemma TypeNameOver(s: Text, t: nat, w: Text)
    requires At(s, t, w) && IsTypeName(w)
    requires t + |w| < |s| ==> !WordByte(s[t + |w|]) && s[t + |w|] != ':' as int
    ensures t < |s| && IsIdentFirst(s[t]) && TypeRest(s, t + 1) == t + |w| && s[t..t + |w|] == w
  {
    hide TypeRest, TypeTail;
    assert w == [w[0]] + w[1..];
    AtByte(s, t, w[0], w[1..]);
    TypeOver(s, t + 1, w[1..]);
  }

  lemma ArgByParts(s: Text, i: nat, k: nat, c: nat, t: nat, e: nat, name: Text, typeName: Text)
    requires i < k <= c < t <= |s| && Identifier(s, i) == k && s[i..k] == name
    requires Spaces(s, k) == c && Is(s, c, ':' as int) && Spaces(s, c + 1) == t
    requires t < |s| && IsIdentFirst(s[t]) && TypeRest(s, t + 1) == e && s[t..e] == typeName
    ensures Arg(s, i) == Match(e, [ArgName(name), ArgType(typeName), ArgEnd])
  {
    hide Identifier, Spaces, TypeRest, IsIdentFirst;
  }

  lemma ReadsArg(s: Text, i: nat, a: ArgSyntax)
    requires ValidArg(a) && At(s, i, ArgText(a))
    requires var j := i + |ArgText(a)|; j < |s| ==> !WordByte(s[j]) && s[j] != ':' as int
    ensures Arg(s, i) == Match(i + |ArgText(a)|, ArgEvents(a))
  {
    hide At, AllWord, AllWhite, TypeTail, IsTypeName, IsName, Identifier, Spaces, TypeRest, Arg, ArgText, ArgRest,
      ValidArg;
    ArgFacts(a);
    ArgPieces(s, i, a);
    var k, c := i + |a.name|, i + |a.name| + |a.before|;
    TypePieces(s, c + 1, a);
    var t := c + 1 + |a.after|;
    var e := t + |a.typeName|;
    NameOver(s, i, a.name);
    SpacesOver(s, k, a.before);
    SpacesOver(s, c + 1, a.after);
    TypeNameOver(s, t, a.typeName);
    ArgByParts(s, i, k, c, t, e, a.name, a.typeName);
  }

  // What may stand behind an argument: the next one, or the end of the list.
  predicate ListGoesOn(s: Text, i: nat) { Is(s, i, ',' as int) || Is(s, i, ')' as int) }

  lemma NextUnfold(args: seq<ArgSyntax>)
    requires args != [] && ValidArgs(args)
    ensures var a := args[0];
            && NextArgsText(args) == [',' as int] + (a.lead + (ArgText(a) + NextArgsText(args[1..])))
            && ValidArg(a) && AllWhite(a.lead) && ValidArgs(args[1..])
  {
    hide ArgText, AllWhite, AllWord, TypeTail, IsName, IsTypeName;
  }

  lemma NextArgsPieces(s: Text, i: nat, args: seq<ArgSyntax>)
    requires args != [] && ValidArgs(args) && At(s, i, NextArgsText(args))
    ensures var a := args[0];
            var p := i + 1 + |a.lead|;
            && Is(s, i, ',' as int) && At(s, i + 1, a.lead) && At(s, p, ArgText(a))
            && At(s, p + |ArgText(a)|, NextArgsText(args[1..])) && p < |s| && Letter(s[p])
            && |NextArgsText(args)| == 1 + |a.lead| + |ArgText(a)| + |NextArgsText(args[1..])|
            && ValidArg(a) && AllWhite(a.lead) && ValidArgs(args[1..])
  {
    hide At, ArgText, NextArgsText, ValidArg, ValidArgs, AllWhite;
    NextUnfold(args);
    var a, more := args[0], NextArgsText(args[1..]);
    AtByte(s, i, ',' as int, a.lead + (ArgText(a) + more));
    AtSplit(s, i + 1, a.lead, ArgText(a) + more);
    AtSplit(s, i + 1 + |a.lead|, ArgText(a), more);
    ArgStarts(a);
    AtFirst(s, i + 1 + |a.lead|, ArgText(a));
  }

  lemma ArgStarts(a: ArgSyntax)
    requires ValidArg(a)
    ensures ArgText(a) != [] && Letter(ArgText(a)[0])
  {
    hide ValidArg;
    ArgFacts(a);
  }

  // A list goes on with a comma, or stops where it ends.
  lemma NextArgsFollow(s: Text, i: nat, args: seq<ArgSyntax>)
    requires At(s, i, NextArgsText(args)) && Is(s, i + |NextArgsText(args)|, ')' as int)
    ensures ListGoesOn(s, i)
  {
    hide At;
    if args != [] {
      AtByte(s, i, ',' as int, args[0].lead + (ArgText(args[0]) + NextArgsText(args[1..])));
    }
  }

  lemma {:induction false} ReadsNextArgs(s: Text, i: nat, args: seq<ArgSyntax>)
    requires i <= |s| && ValidArgs(args) && At(s, i, NextArgsText(args))
    requires Is(s, i + |NextArgsText(args)|, ')' as int)
    ensures NextArgs(s, i) == Match(i + |NextArgsText(args)|, ArgsEvents(args))
    decreases |args|
  {
    hide At, ArgText, Arg, Spaces, ValidArg, AllWhite, ValidArgs;
    if args == [] {
    } else {
      var a := args[0];
      NextArgsPieces(s, i, args);
      var p := i + 1 + |a.lead|;
      SpacesOver(s, i + 1, a.lead);
      var q := p + |ArgText(a)|;
      NextArgsFollow(s, q, args[1..]);
      ReadsArg(s, p, a);
      ReadsNextArgs(s, q, args[1..]);
    }
  }

  lemma ReadsArgs(s: Text, i: nat, args: seq<ArgSyntax>)
    requires i <= |s| && ValidArgs(args) && At(s, i, ArgsText(args))
    requires Is(s, i + |ArgsText(args)|, ')' as int)
    ensures Args(s, i) == Match(i + |ArgsText(args)|, ArgsEvents(args))
  {
    hide At, ArgText, Arg, ValidArg, ValidArgs, NextArgs, NextArgsText;
    if args == [] {
      NoArgument(s, i);
    } else {
      ArgsValid(args);
      AtSplit(s, i, ArgText(args[0]), NextArgsText(args[1..]));
      var q := i + |ArgText(args[0])|;
      NextArgsFollow(s, q, args[1..]);
      ReadsArg(s, i, args[0]);
      ReadsNextArgs(s, q, args[1..]);
    }
  }

  lemma ArgsValid(args: seq<ArgSyntax>)
    requires args != [] && ValidArgs(args)
    ensures ValidArg(args[0]) && ValidArgs(args[1..])
  {
    hide ValidArg;
  }

  lemma NoArgument(s: Text, i: nat)
    requires Is(s, i, ')' as int)
    ensures Arg(s, i) == NoMatch([])
  {
  }

  lemma GroupPieces(s: Text, i: nat, args: seq<ArgSyntax>)
    requires At(s, i, GroupText(args))
    ensures Is(s, i, '(' as int) && At(s, i + 1, ArgsText(args)) && Is(s, i + 1 + |ArgsText(args)|, ')' as int)
    ensures |GroupText(args)| == |ArgsText(args)| + 2
  {
    hide At, ArgsText;
    AtByte(s, i, '(' as int, ArgsText(args) + [')' as int]);
    AtSplit(s, i + 1, ArgsText(args), [')' as int]);
    AtFirst(s, i + 1 + |ArgsText(args)|, [')' as int]);
  }

  lemma ReadsGroup(s: Text, i: nat, args: seq<ArgSyntax>, open: Event, close: Event)
    requires i <= |s| && ValidArgs(args) && At(s, i, GroupText(args))
    ensures ArgsGroup(s, i, open, close) == Match(i + |GroupText(args)|, [open] + ArgsEvents(args) + [close])
  {
    hide At, ArgsText, GroupText, Args, ValidArgs;
    GroupPieces(s, i, args);
    ReadsArgs(s, i + 1, args);
  }

  // ----- decorators -----

  function DecoratorEvents(d: Decorator): seq<Event> {
    [DecoratorKey(d.key), DecoratorValue(d.value), DecoratorClose]
  }

  function DecoratorsEvents(ds: seq<Decorator>): seq<Event> {
    if ds == [] then [] else DecoratorEvents(ds[0]) + DecoratorsEvents(ds[1..])
  }

  lemma DecoratorFacts(d: Decorator)
    requires WellFormedDecorator(d)
    ensures d.key != [] && IsName(d.key) && AllWhite(d.before) && AllWhite(d.after) && AllWord(d.value)
    ensures AllBlank(d.trail) && (d.value != [] ==> WordByte(d.value[0]))
  {
  }

  // Behind the equals sign.
  function DecoratorRest(d: Decorator): Text { d.after + (d.value + ([']' as int] + d.trail)) }

  lemma DecoratorFront(s: Text, i: nat, d: Decorator)
    requires WellFormedDecorator(d) && At(s, i, DecoratorText(d))
    ensures var k := i + 1 + |d.key|;
            var e := k + |d.before|;
            && Is(s, i, '[' as int) && At(s, i + 1, d.key) && At(s, k, d.before) && Is(s, e, '=' as int)
            && At(s, e + 1, DecoratorRest(d)) && k < |s| && !WordByte(s[k])
            && i + |DecoratorText(d)| == e + 1 + |DecoratorRest(d)|
  {
    hide At, AllWord, AllWhite, AllBlank, IsName, WellFormedDecorator, DecoratorRest, DecoratorText;
    DecoratorFacts(d);
    var rest := ['=' as int] + DecoratorRest(d);
    DecoratorTextIs(d);
    AtByte(s, i, '[' as int, d.key + (d.before + rest));
    AtSplit(s, i + 1, d.key, d.before + rest);
    var k := i + 1 + |d.key|;
    AtFirst(s, k, d.before + rest);
    WordEnds(d.before, '=' as int, DecoratorRest(d));
    AtSplit(s, k, d.before, rest);
    AtByte(s, k + |d.before|, '=' as int, DecoratorRest(d));
  }

  lemma DecoratorTextIs(d: Decorator)
    ensures DecoratorText(d) == ['[' as int] + (d.key + (d.before + (['=' as int] + DecoratorRest(d))))
  {
  }

  lemma DecoratorBack(s: Text, i: nat, d: Decorator)
    requires WellFormedDecorator(d) && At(s, i, DecoratorRest(d))
    ensures var v := i + |d.after|;
            var w := v + |d.value|;
            && At(s, i, d.after) && At(s, v, d.value) && Is(s, w, ']' as int) && At(s, w + 1, d.trail)
            && v < |s| && !WhiteByte(s[v]) && i + |DecoratorRest(d)| == w + 1 + |d.trail|
  {
    hide At, AllWord, AllWhite, AllBlank, IsName, WellFormedDecorator;
    DecoratorFacts(d);
    AtSplit(s, i, d.after, d.value + ([']' as int] + d.trail));
    var v := i + |d.after|;
    AtSplit(s, v, d.value, [']' as int] + d.trail);
    AtFirst(s, v, d.value + ([']' as int] + d.trail));
    AtByte(s, v + |d.value|, ']' as int, d.trail);
  }

  lemma DecoratorByParts(s: Text, i: nat, k: nat, e: nat, v: nat, w: nat, key: Text, value: Text)
    requires i + 1 < k <= e < v <= w < |s| && Is(s, i, '[' as int) && Identifier(s, i + 1) == k && s[i + 1..k] == key
    requires Spaces(s, k) == e && Is(s, e, '=' as int) && Spaces(s, e + 1) == v && Values(s, v) == w
    requires s[v..w] == value && Is(s, w, ']' as int)
    ensures DecoratorGroup(s, i) == Match(Blanks(s, w + 1), [DecoratorKey(key), DecoratorValue(value), DecoratorClose])
  {
    hide Identifier, Spaces, Values, Blanks;
  }

  lemma ReadsDecorator(s: Text, i: nat, d: Decorator)
    requires WellFormedDecorator(d) && At(s, i, DecoratorText(d))
    requires var j := i + |DecoratorText(d)|; j < |s| ==> !BlankByte(s[j])
    ensures DecoratorGroup(s, i) == Match(i + |DecoratorText(d)|, DecoratorEvents(d))
  {
    hide At, AllWord, AllWhite, AllBlank, IsName, Identifier, Spaces, Values, Blanks, DecoratorText,
      WellFormedDecorator, DecoratorGroup, DecoratorRest;
    DecoratorFacts(d);
    DecoratorFront(s, i, d);
    var k := i + 1 + |d.key|;
    var e := k + |d.before|;
    DecoratorBack(s, e + 1, d);
    var v := e + 1 + |d.after|;
    var w := v + |d.value|;
    NameOver(s, i + 1, d.key);
    SpacesOver(s, k, d.before);
    SpacesOver(s, e + 1, d.after);
    ValueOver(s, v, d.value);
    BlanksOver(s, w + 1, d.trail);
    DecoratorByParts(s, i, k, e, v, w, d.key, d.value);
  }

  lemma ValueOver(s: Text, v: nat, w: Text)
    requires At(s, v, w) && AllWord(w) && Is(s, v + |w|, ']' as int)
    ensures Values(s, v) == v + |w| && s[v..v + |w|] == w
  {
    hide AllWord, Values;
    WordsOver(s, v, w);
  }

  // The next decorator, or else the parameters.
  lemma DecoratorsFollow(s: Text, i: nat, ds: seq<Decorator>)
    requires At(s, i, DecoratorsText(ds)) && Is(s, i + |DecoratorsText(ds)|, '(' as int)
    ensures Is(s, i, '[' as int) || Is(s, i, '(' as int)
  {
    hide At;
    if ds != [] {
      AtFirst(s, i, DecoratorsText(ds));
    }
  }

  lemma {:induction false} ReadsDecorators(s: Text, i: nat, ds: seq<Decorator>)
    requires i <= |s| && (forall k :: 0 <= k < |ds| ==> WellFormedDecorator(ds[k])) && At(s, i, DecoratorsText(ds))
    requires Is(s, i + |DecoratorsText(ds)|, '(' as int)
    ensures Decorators(s, i) == Match(i + |DecoratorsText(ds)|, DecoratorsEvents(ds))
    decreases |ds|
  {
    hide At, DecoratorText, WellFormedDecorator, DecoratorGroup;
    if ds == [] {
      NoDecorator(s, i);
    } else {
      AtSplit(s, i, DecoratorText(ds[0]), DecoratorsText(ds[1..]));
      var q := i + |DecoratorText(ds[0])|;
      DecoratorsFollow(s, q, ds[1..]);
      ReadsDecorator(s, i, ds[0]);
      ReadsDecorators(s, q, ds[1..]);
    }
  }

  lemma NoDecorator(s: Text, i: nat)
    requires Is(s, i, '(' as int)
    ensures DecoratorGroup(s, i) == NoMatch([])
  {
  }

  // The map the builder collects from decorators.
  function Tagged(tags: map<Text, Text>, ds: seq<Decorator>): map<Text, Text>
    decreases |ds|
  {
    if ds == [] then tags else Tagged(tags[ds[0].key := ds[0].value], ds[1..])
  }

  // The identifier the builder gives a method: by its decorator, if that is a number, else by its name.
  function IdFor(ds: seq<Decorator>, name: Text): nat {
    var tags := Tagged(map[], ds);
    if IDENTIFIER !in tags then HashId(name)
    else
      match ParseId(tags[IDENTIFIER])
      case Some(n) => n
      case None => 0
  }

  // ----- methods -----

  function ReplyEvents(r: Reply): seq<Event> {
    match r
    case NoReply => [AsyncMarker]
    case Answer(_, outs) => [SyncMarker] + ([ReturnOpen] + ArgsEvents(outs) + [ReturnClose])
  }

  lemma ReadsReply(s: Text, i: nat, r: Reply)
    requires i <= |s| && ValidReply(r) && At(s, i, ReplyText(r))
    ensures ReturnType(s, i) == Match(i + |ReplyText(r)|, ReplyEvents(r))
  {
    hide At, ArgsGroup, GroupText, ValidArgs, Blanks, AllBlank, ArgsEvents;
    match r {
      case NoReply =>
      case Answer(gap, outs) =>
        AtSplit(s, i, ['=' as int, '>' as int], gap + GroupText(outs));
        AtSplit(s, i + 2, gap, GroupText(outs));
        var p := i + 2 + |gap|;
        GroupPieces(s, p, outs);
        BlanksOver(s, i + 2, gap);
        ReadsGroup(s, p, outs, ReturnOpen, ReturnClose);
        NotAsync(s, i);
    }
  }

  lemma NotAsync(s: Text, i: nat)
    requires At(s, i, ['=' as int, '>' as int])
    ensures !At(s, i, ['=' as int, '|' as int])
  {
    assert s[i..i + 2][1] == '>' as int;
  }

  function MethodEvents(m: MethodSyntax): seq<Event> {
    [MethodName(m.name)] + DecoratorsEvents(m.decorators) + ([ArgsOpen] + ArgsEvents(m.params) + [ArgsClose])
    + ReplyEvents(m.reply) + [MethodEnd]
  }

  // From the parameters on.
  function MethodRest(m: MethodSyntax): Text {
    GroupText(m.params) + (m.between + (ReplyText(m.reply) + m.trail))
  }

  lemma MethodFacts(m: MethodSyntax)
    requires WellFormedMethod(m)
    ensures IsName(m.name) && m.name != [] && AllBlank(m.gap) && ValidArgs(m.params) && AllBlank(m.between)
    ensures ValidReply(m.reply) && AllBlank(m.trail)
    ensures forall k :: 0 <= k < |m.decorators| ==> WellFormedDecorator(m.decorators[k])
    ensures Letter(MethodText(m)[0])
  {
    hide ValidArgs, ValidReply, WellFormedDecorator, Identifies;
  }

  lemma RestStarts(m: MethodSyntax)
    ensures MethodRest(m) != [] && MethodRest(m)[0] == '(' as int
  {
  }

  lemma MethodTextIs(m: MethodSyntax)
    ensures MethodText(m) == m.name + (m.gap + (DecoratorsText(m.decorators) + MethodRest(m)))
  {
    hide DecoratorsText, GroupText, ReplyText;
  }

  lemma MethodFront(s: Text, i: nat, m: MethodSyntax)
    requires WellFormedMethod(m) && At(s, i, MethodText(m))
    ensures var k, d := i + |m.name|, i + |m.name| + |m.gap|;
            var a := d + |DecoratorsText(m.decorators)|;
            && At(s, i, m.name) && At(s, k, m.gap) && At(s, d, DecoratorsText(m.decorators)) && At(s, a, MethodRest(m))
            && k < |s| && !WordByte(s[k]) && d < |s| && !BlankByte(s[d]) && Is(s, a, '(' as int)
            && i + |MethodText(m)| == a + |MethodRest(m)|
  {
    hide At, WellFormedMethod, MethodText, MethodRest, DecoratorsText, IsName, ValidArgs, ValidReply,
      WellFormedDecorator;
    MethodFacts(m);
    MethodTextIs(m);
    var decorators := DecoratorsText(m.decorators);
    AtSplit(s, i, m.name, m.gap + (decorators + MethodRest(m)));
    var k := i + |m.name|;
    AtSplit(s, k, m.gap, decorators + MethodRest(m));
    var d := k + |m.gap|;
    AtSplit(s, d, decorators, MethodRest(m));
    var a := d + |decorators|;
    RestStarts(m);
    AtFirst(s, a, MethodRest(m));
    DecoratorsFollow(s, d, m.decorators);
    if m.gap != [] {
      AtFirst(s, k, m.gap);
    }
  }

  lemma MethodBack(s: Text, a: nat, m: MethodSyntax)
    requires WellFormedMethod(m) && At(s, a, MethodRest(m))
    ensures var g := a + |GroupText(m.params)|;
            var r := g + |m.between|;
            var e := r + |ReplyText(m.reply)|;
            && At(s, a, GroupText(m.params)) && At(s, g, m.between) && At(s, r, ReplyText(m.reply))
            && At(s, e, m.trail) && Is(s, r, '=' as int) && a + |MethodRest(m)| == e + |m.trail|
  {
    hide At, WellFormedMethod, GroupText;
    AtSplit(s, a, GroupText(m.params), m.between + (ReplyText(m.reply) + m.trail));
    var g := a + |GroupText(m.params)|;
    AtSplit(s, g, m.between, ReplyText(m.reply) + m.trail);
    var r := g + |m.between|;
    AtSplit(s, r, ReplyText(m.reply), m.trail);
    AtFirst(s, r, ReplyText(m.reply));
  }

  lemma MethodByParts(s: Text, i: nat, k: nat, d: nat, a: nat, g: nat, r: nat, e: nat, end: nat, name: Text,
                      tags: seq<Event>, args: seq<Event>, reply: seq<Event>)
    requires i < k <= d <= a <= g <= r <= e <= |s|
    requires Identifier(s, i) == k && s[i..k] == name && Blanks(s, k) == d
    requires Decorators(s, d) == Match(a, tags) && Blanks(s, a) == a
    requires ArgsGroup(s, a, ArgsOpen, ArgsClose) == Match(g, args) && Blanks(s, g) == r
    requires ReturnType(s, r) == Match(e, reply) && Blanks(s, e) == end
    ensures MethodRule(s, i) == Match(end, [MethodName(name)] + tags + args + reply + [MethodEnd])
  {
    hide Identifier, Blanks, Decorators, ArgsGroup, ReturnType;
  }

  lemma ReadsMethod(s: Text, i: nat, m: MethodSyntax)
    requires WellFormedMethod(m) && At(s, i, MethodText(m))
    requires var j := i + |MethodText(m)|; j < |s| ==> !BlankByte(s[j])
    ensures MethodRule(s, i) == Match(i + |MethodText(m)|, MethodEvents(m))
  {
    hide At, WellFormedMethod, MethodText, MethodRest, GroupText, ReplyText, DecoratorsText, AllBlank, AllWord, IsName,
      Blanks, Identifier, Decorators, ArgsGroup, ReturnType, MethodRule, ValidArgs, ValidReply, WellFormedDecorator;
    MethodFacts(m);
    MethodFront(s, i, m);
    var k, d := i + |m.name|, i + |m.name| + |m.gap|;
    var a := d + |DecoratorsText(m.decorators)|;
    MethodBack(s, a, m);
    var g := a + |GroupText(m.params)|;
    var r := g + |m.between|;
    var e := r + |ReplyText(m.reply)|;
    NameOver(s, i, m.name);
    BlanksOver(s, k, m.gap);
    ReadsDecorators(s, d, m.decorators);
    NoBlanks(s, a);
    ReadsGroup(s, a, m.params, ArgsOpen, ArgsClose);
    BlanksOver(s, g, m.between);
    ReadsReply(s, r, m.reply);
    BlanksOver(s, e, m.trail);
    MethodByParts(s, i, k, d, a, g, r, e, e + |m.trail|, m.name, DecoratorsEvents(m.decorators),
                  [ArgsOpen] + ArgsEvents(m.params) + [ArgsClose], ReplyEvents(m.reply));
  }

  lemma NoBlanks(s: Text, i: nat)
    requires i < |s| && !BlankByte(s[i])
    ensures Blanks(s, i) == i
  {
  }

  // ----- lines without methods -----

  lemma ReadsBlankLine(s: Text, i: nat, f: Filler)
    requires f.BlankLine? && WellFormedFiller(f) && At(s, i, FillerText(f))
    ensures IdlGrammar.EmptyLine(s, i) == i + |FillerText(f)|
  {
    hide At, Blanks, AllBlank;
    var end: Text := if f.cr then ['\r' as int, '\n' as int] else ['\n' as int];
    AtSplit(s, i, f.blanks, end);
    var k := i + |f.blanks|;
    AtFirst(s, k, end);
    BlanksOver(s, i, f.blanks);
    if f.cr {
      assert end == ['\r' as int] + ['\n' as int];
      AtByte(s, k, '\r' as int, ['\n' as int]);
      AtFirst(s, k + 1, ['\n' as int]);
    }
  }

  // The blanks a piece of white space starts with, and what comes behind them.
  lemma LeadBlanks(s: Text, i: nat, lead: Text)
    requires At(s, i, lead) && AllWhite(lead) && i + |lead| < |s| && !WhiteByte(s[i + |lead|])
    ensures var k := LeadingBlanks(lead);
            && Blanks(s, i) == i + k
            && (k < |lead| ==> s[i + k] == lead[k]) && (k == |lead| ==> !WhiteByte(s[i + k]))
            && (k + 1 < |lead| ==> s[i + k + 1] == lead[k + 1]) && (k + 1 == |lead| ==> !WhiteByte(s[i + k + 1]))
  {
    hide At, LeadingBlanks;
    var k := LeadingBlanks(lead);
    assert lead == lead[..k] + lead[k..];
    AtSplit(s, i, lead[..k], lead[k..]);
    if k < |lead| {
      ByteIn(s, i, lead, k);
    }
    if k + 1 < |lead| {
      ByteIn(s, i, lead, k + 1);
    }
    BlanksOver(s, i, lead[..k]);
  }

  lemma ByteIn(s: Text, i: nat, t: Text, k: nat)
    requires At(s, i, t) && k < |t|
    ensures i + k < |s| && s[i + k] == t[k]
  {
    assert s[i..i + |t|][k] == t[k];
  }

  // A line that goes on with a visible byte is not empty, and no comment if that is no slash.
  lemma NotEmptyLine(s: Text, i: nat, lead: Text)
    requires At(s, i, lead) && Lead(lead) && i + |lead| < |s| && !WhiteByte(s[i + |lead|])
    ensures IdlGrammar.EmptyLine(s, i) == i && Spaces(s, i) == i + |lead|
    ensures s[i + |lead|] != '/' as int ==> Comment(s, i) == i
  {
    hide At, Blanks, Spaces, LeadingBlanks;
    LeadBlanks(s, i, lead);
    SpacesOver(s, i, lead);
    if s[i + |lead|] != '/' as int {
      NoSlash(s, i + |lead|);
    }
  }

  lemma NoSlash(s: Text, k: nat)
    requires k < |s| && s[k] != '/' as int
    ensures !At(s, k, [47, 47]) && !At(s, k, [47, 42])
  {
    if At(s, k, [47, 47]) {
      AtFirst(s, k, [47, 47]);
      assert false;
    }
    if At(s, k, [47, 42]) {
      AtFirst(s, k, [47, 42]);
      assert false;
    }
  }

  lemma {:induction false} LineEndOver(s: Text, i: nat, text: Text, closed: bool)
    requires At(s, i, text + LineBreak(closed)) && '\n' as int !in text && (closed || i + |text| == |s|)
    ensures LineEnd(s, i) == i + |text| + |LineBreak(closed)|
    decreases |text|
  {
    hide At;
    var line := text + LineBreak(closed);
    if text == [] {
      assert line == LineBreak(closed);
      if closed {
        AtFirst(s, i, ['\n' as int]);
      }
    } else {
      assert line == [text[0]] + (text[1..] + LineBreak(closed));
      AtByte(s, i, text[0], text[1..] + LineBreak(closed));
      LineEndOver(s, i + 1, text[1..], closed);
      LineEndNext(s, i);
    }
  }

  // A carriage return right before the line feed is part of the end.
  lemma LineEndNext(s: Text, i: nat)
    requires i < |s| && s[i] != '\n' as int
    ensures LineEnd(s, i) == LineEnd(s, i + 1)
  {
  }

  lemma {:induction false} CommentEndOver(s: Text, i: nat, text: Text)
    requires At(s, i, text + ['*' as int, '/' as int]) && Unclosed(text)
    ensures CommentEnd(s, i) == i + |text| + 2
    decreases |text|
  {
    hide At;
    var mark: Text := ['*' as int, '/' as int];
    if text == [] {
      assert text + mark == mark;
    } else {
      assert text + mark == [text[0]] + (text[1..] + mark);
      AtByte(s, i, text[0], text[1..] + mark);
      AtFirst(s, i + 1, text[1..] + mark);
      UnclosedRest(text);
      CommentEndOver(s, i + 1, text[1..]);
      if At(s, i, [42, 47]) {
        AtFirst(s, i, [42, 47]);
        SecondByte(s, i, 42, 47);
        assert false;
      }
    }
  }

  lemma SecondByte(s: Text, i: nat, a: Byte, b: Byte)
    requires At(s, i, [a, b])
    ensures i + 1 < |s| && s[i] == a && s[i + 1] == b
  {
    assert s[i..i + 2][0] == a && s[i..i + 2][1] == b;
  }

  lemma UnclosedRest(text: Text)
    requires text != [] && Unclosed(text)
    ensures Unclosed(text[1..])
    ensures !(text[0] == 42 && (text[1..] + ['*' as int, '/' as int])[0] == 47)
  {
    var all, rest := text + ['*' as int, '/' as int], text[1..] + ['*' as int, '/' as int];
    assert forall k :: 0 <= k < |rest| ==> rest[k] == all[k + 1];
  }

  lemma ReadsComment(s: Text, i: nat, f: Filler)
    requires !f.BlankLine? && WellFormedFiller(f) && At(s, i, FillerText(f))
    requires Dangling(f) ==> i + |FillerText(f)| == |s|
    ensures IdlGrammar.EmptyLine(s, i) == i && Comment(s, i) == i + |FillerText(f)|
  {
    hide At, Lead, Unclosed, Blanks, Spaces, LineEnd, CommentEnd, IdlGrammar.EmptyLine;
    var k := i + |f.lead|;
    match f {
      case LineComment(lead, text, closed) =>
        var mark: Text := ['/' as int, '/' as int];
        AtSplit(s, i, lead, mark + (text + LineBreak(closed)));
        AtSplit(s, k, mark, text + LineBreak(closed));
        SecondByte(s, k, 47, 47);
        NotEmptyLine(s, i, lead);
        LineEndOver(s, k + 2, text, closed);
      case BlockComment(lead, text) =>
        var mark: Text := ['/' as int, '*' as int];
        AtSplit(s, i, lead, mark + (text + ['*' as int, '/' as int]));
        AtSplit(s, k, mark, text + ['*' as int, '/' as int]);
        SecondByte(s, k, 47, 42);
        NotEmptyLine(s, i, lead);
        CommentEndOver(s, k + 2, text);
        if At(s, k, [47, 47]) {
          SecondByte(s, k, 47, 47);
          assert false;
        }
    }
  }

  // ----- interfaces -----

  function PartEvents(p: Part): seq<Event> { if p.Declares? then MethodEvents(p.m) else [] }

  function PartsEvents(parts: seq<Part>): seq<Event> {
    if parts == [] then [] else PartEvents(parts[0]) + PartsEvents(parts[1..])
  }

  lemma ReadsFiller(s: Text, i: nat, f: Filler)
    requires i <= |s| && WellFormedFiller(f) && !Dangling(f) && At(s, i, FillerText(f))
    ensures Member(s, i) == Match(i + |FillerText(f)|, [])
  {
    hide At, WellFormedFiller, IdlGrammar.EmptyLine, Comment;
    if f.BlankLine? {
      ReadsBlankLine(s, i, f);
    } else {
      ReadsComment(s, i, f);
    }
  }

  lemma ReadsDeclaration(s: Text, i: nat, lead: Text, m: MethodSyntax)
    requires i <= |s| && Lead(lead) && WellFormedMethod(m) && At(s, i, lead + MethodText(m))
    requires var j := i + |lead| + |MethodText(m)|; j < |s| ==> !BlankByte(s[j])
    ensures Member(s, i) == Match(i + |lead| + |MethodText(m)|, MethodEvents(m))
  {
    hide At, WellFormedMethod, MethodText, Lead, IdlGrammar.EmptyLine, Comment, MethodRule, Spaces, MethodEvents;
    AtSplit(s, i, lead, MethodText(m));
    MethodStarts(m);
    AtFirst(s, i + |lead|, MethodText(m));
    NotEmptyLine(s, i, lead);
    ReadsMethod(s, i + |lead|, m);
  }

  lemma MethodStarts(m: MethodSyntax)
    requires WellFormedMethod(m)
    ensures MethodText(m) != [] && Letter(MethodText(m)[0])
  {
    hide WellFormedMethod;
    MethodFacts(m);
  }

  // The end of the members: white space on its line and the closing brace.
  predicate CloseAt(s: Text, i: nat, last: Text) {
    At(s, i, last) && Is(s, i + |last|, '}' as int) && Lead(last)
  }

  lemma NoMember(s: Text, i: nat, last: Text)
    requires i <= |s| && CloseAt(s, i, last)
    ensures Member(s, i) == NoMatch([]) && Spaces(s, i) == i + |last|
  {
    hide At, Lead, IdlGrammar.EmptyLine, Comment, Spaces;
    NotEmptyLine(s, i, last);
  }

  // The first byte of what follows.
  lemma NextByte(s: Text, i: nat, t: Text, last: Text)
    requires At(s, i, t) && CloseAt(s, i + |t|, last)
    ensures i < |s| && s[i] == (t + (last + ['}' as int]))[0]
  {
    hide At;
    if t != [] {
      AtFirst(s, i, t);
    } else if last != [] {
      AtFirst(s, i, last);
    }
  }

  lemma ContentStep(s: Text, i: nat, at: nat, fired: seq<Event>, end: nat, more: seq<Event>)
    requires i < at <= end <= |s| && Member(s, i) == Match(at, fired) && Content(s, at) == Match(end, more)
    ensures Content(s, i) == Match(end, fired + more)
  {
    hide Member;
  }

  lemma ContentEnds(s: Text, i: nat)
    requires i <= |s| && Member(s, i) == NoMatch([])
    ensures Content(s, i) == Match(i, [])
  {
    hide Member;
  }

  lemma PartsFacts(parts: seq<Part>, rest: Text)
    requires parts != [] && WellFormedParts(parts, rest)
    ensures WellFormedParts(parts[1..], rest) && PartText(parts[0]) != []
    ensures match parts[0]
            case Filling(f) => WellFormedFiller(f) && !Dangling(f)
            case Declares(lead, m) =>
              && Lead(lead) && WellFormedMethod(m)
              && var next := PartsText(parts[1..]) + rest; next != [] ==> !BlankByte(next[0])
  {
    hide WellFormedMethod, MethodText, FillerText;
    if parts[0].Declares? {
      MethodStarts(parts[0].m);
    }
  }

  lemma ReadsPart(s: Text, i: nat, parts: seq<Part>, last: Text)
    requires i <= |s| && parts != [] && WellFormedParts(parts, last + ['}' as int])
    requires At(s, i, PartText(parts[0])) && At(s, i + |PartText(parts[0])|, PartsText(parts[1..]))
    requires CloseAt(s, i + |PartText(parts[0])| + |PartsText(parts[1..])|, last)
    ensures Member(s, i) == Match(i + |PartText(parts[0])|, PartEvents(parts[0])) && PartText(parts[0]) != []
  {
    hide At, Member, WellFormedParts, PartsText, WellFormedMethod, MethodText, FillerText, CloseAt, WellFormedFiller,
      MethodEvents, Lead;
    PartsFacts(parts, last + ['}' as int]);
    NextByte(s, i + |PartText(parts[0])|, PartsText(parts[1..]), last);
    match parts[0] {
      case Filling(f) => ReadsFiller(s, i, f);
      case Declares(lead, m) => ReadsDeclaration(s, i, lead, m);
    }
  }

  lemma {:induction false} ReadsParts(s: Text, i: nat, parts: seq<Part>, last: Text)
    requires i <= |s| && WellFormedParts(parts, last + ['}' as int]) && At(s, i, PartsText(parts))
    requires CloseAt(s, i + |PartsText(parts)|, last)
    ensures Content(s, i) == Match(i + |PartsText(parts)|, PartsEvents(parts))
    decreases |parts|
  {
    hide At, Member, Content, WellFormedParts, PartText, CloseAt, PartEvents;
    if parts == [] {
      NoMember(s, i, last);
      ContentEnds(s, i);
    } else {
      var p, more := parts[0], PartsText(parts[1..]);
      PartsFacts(parts, last + ['}' as int]);
      AtSplit(s, i, PartText(p), more);
      var q := i + |PartText(p)|;
      SliceAt(s, q, more);
      ReadsPart(s, i, parts, last);
      ReadsParts(s, q, parts[1..], last);
      ContentStep(s, i, q, PartEvents(p), q + |more|, PartsEvents(parts[1..]));
    }
  }

  function InterfaceEvents(x: InterfaceSyntax): seq<Event> {
    [InterfaceName(x.name)] + PartsEvents(x.parts) + [InterfaceEnd]
  }

  // From the name on, and from the opening brace on.
  function BodyText(x: InterfaceSyntax): Text {
    ['{' as int] + (PartsText(x.parts) + (x.last + (['}' as int] + x.trail)))
  }

  function NameText(x: InterfaceSyntax): Text { x.name + (x.before + BodyText(x)) }

  lemma InterfaceTextIs(x: InterfaceSyntax)
    ensures InterfaceText(x) == x.lead + (KEYWORD_TEXT + (x.gap + NameText(x)))
  {
    hide PartsText;
  }

  lemma InterfaceFacts(x: InterfaceSyntax)
    requires WellFormedInterface(x)
    ensures Lead(x.lead) && AllWhite(x.gap) && x.gap != [] && WhiteByte(x.gap[0]) && IsName(x.name) && x.name != []
    ensures Letter(x.name[0]) && AllWhite(x.before) && Lead(x.last) && AllWhite(x.trail)
    ensures WellFormedParts(x.parts, x.last + ['}' as int])
  {
    hide WellFormedParts, MethodsOf;
  }

  lemma KeywordIs()
    ensures KEYWORD_TEXT == KEYWORD && |KEYWORD_TEXT| == 9 && KEYWORD_TEXT[0] == 'i' as int
    ensures INCLUDE_TEXT == INCLUDE && |INCLUDE_TEXT| == 8 && INCLUDE_TEXT[0] == '#' as int
  {
  }

  lemma InterfaceFront(s: Text, i: nat, x: InterfaceSyntax)
    requires WellFormedInterface(x) && At(s, i, InterfaceText(x))
    ensures var k := i + |x.lead|;
            var n := k + 9 + |x.gap|;
            && At(s, i, x.lead) && At(s, k, KEYWORD_TEXT) && At(s, k + 9, x.gap) && At(s, n, NameText(x))
            && Is(s, k, 'i' as int) && Is(s, k + 9, x.gap[0]) && n < |s| && Letter(s[n])
            && i + |InterfaceText(x)| == n + |NameText(x)|
  {
    hide At, WellFormedInterface, InterfaceText, BodyText, AllWhite, Lead, IsName, WellFormedParts, KEYWORD_TEXT;
    KeywordIs();
    InterfaceFacts(x);
    InterfaceTextIs(x);
    AtSplit(s, i, x.lead, KEYWORD_TEXT + (x.gap + NameText(x)));
    var k := i + |x.lead|;
    AtSplit(s, k, KEYWORD_TEXT, x.gap + NameText(x));
    AtFirst(s, k, KEYWORD_TEXT);
    AtSplit(s, k + 9, x.gap, NameText(x));
    AtFirst(s, k + 9, x.gap);
    AtFirst(s, k + 9 + |x.gap|, NameText(x));
  }

  lemma InterfaceMiddle(s: Text, n: nat, x: InterfaceSyntax)
    requires WellFormedInterface(x) && At(s, n, NameText(x))
    ensures var m, b := n + |x.name|, n + |x.name| + |x.before|;
            && At(s, n, x.name) && At(s, m, x.before) && At(s, b, BodyText(x)) && m < |s| && !WordByte(s[m])
            && n + |NameText(x)| == b + |BodyText(x)|
  {
    hide At, WellFormedInterface, PartsText;
    InterfaceFacts(x);
    AtSplit(s, n, x.name, x.before + BodyText(x));
    var m := n + |x.name|;
    AtFirst(s, m, x.before + BodyText(x));
    WordEnds(x.before, '{' as int, PartsText(x.parts) + (x.last + (['}' as int] + x.trail)));
    AtSplit(s, m, x.before, BodyText(x));
  }

  lemma InterfaceBack(s: Text, b: nat, x: InterfaceSyntax)
    requires WellFormedInterface(x) && At(s, b, BodyText(x))
    ensures var p := b + 1 + |PartsText(x.parts)|;
            && Is(s, b, '{' as int) && At(s, b + 1, PartsText(x.parts)) && CloseAt(s, p, x.last)
            && At(s, p + |x.last| + 1, x.trail) && b + |BodyText(x)| == p + |x.last| + 1 + |x.trail|
  {
    hide At, WellFormedInterface, PartsText;
    InterfaceFacts(x);
    var close := ['}' as int] + x.trail;
    AtByte(s, b, '{' as int, PartsText(x.parts) + (x.last + close));
    AtSplit(s, b + 1, PartsText(x.parts), x.last + close);
    var p := b + 1 + |PartsText(x.parts)|;
    AtSplit(s, p, x.last, close);
    AtByte(s, p + |x.last|, '}' as int, x.trail);
  }

  lemma InterfaceByParts(s: Text, i: nat, k: nat, n: nat, m: nat, b: nat, p: nat, c: nat, end: nat, name: Text,
                         members: seq<Event>)
    requires i <= k < n < m <= b < p <= c < |s| && k + 9 < n && Spaces(s, i) == k && At(s, k, KEYWORD)
    requires !IsIdentOther(s[k + 9]) && Spaces(s, k + 9) == n && Identifier(s, n) == m && s[n..m] == name
    requires Spaces(s, m) == b && Is(s, b, '{' as int) && Content(s, b + 1) == Match(p, members)
    requires Spaces(s, p) == c && Is(s, c, '}' as int) && Spaces(s, c + 1) == end
    ensures InterfaceRule(s, i) == Match(end, [InterfaceName(name)] + members + [InterfaceEnd])
  {
    hide At, Spaces, Identifier, Content;
  }

  // The head of an interface: nothing else the grammar tries before.
  lemma InterfaceStarts(s: Text, i: nat, x: InterfaceSyntax)
    requires i <= |s| && WellFormedInterface(x) && At(s, i, InterfaceText(x))
    ensures var k := i + |x.lead|; Spaces(s, i) == k && At(s, k, KEYWORD)
    ensures IdlGrammar.EmptyLine(s, i) == i && Comment(s, i) == i && Include(s, i) == NoMatch([])
  {
    hide At, WellFormedInterface, InterfaceText, AllWhite, AllBlank, IsName, Spaces, IdlGrammar.EmptyLine, Comment,
      Include, NameText;
    InterfaceFacts(x);
    InterfaceFront(s, i, x);
    NotEmptyLine(s, i, x.lead);
    NoInclude(s, i, x.lead);
  }

  lemma ReadsKeyword(s: Text, i: nat, x: InterfaceSyntax)
    requires i <= |s| && WellFormedInterface(x) && At(s, i, InterfaceText(x))
    ensures var k := i + |x.lead|;
            var n := k + 9 + |x.gap|;
            && k + 9 < n && k + 9 < |s| && !IsIdentOther(s[k + 9]) && Spaces(s, k + 9) == n
            && At(s, n, NameText(x)) && i + |InterfaceText(x)| == n + |NameText(x)|
  {
    hide At, WellFormedInterface, InterfaceText, NameText, AllWhite, AllBlank, IsName, Spaces;
    InterfaceFacts(x);
    InterfaceFront(s, i, x);
    SpacesOver(s, i + |x.lead| + 9, x.gap);
  }

  lemma ReadsName(s: Text, n: nat, x: InterfaceSyntax)
    requires WellFormedInterface(x) && At(s, n, NameText(x))
    ensures var m, b := n + |x.name|, n + |x.name| + |x.before|;
            && n < m <= b && Identifier(s, n) == m && m < |s| && s[n..m] == x.name && Spaces(s, m) == b
            && At(s, b, BodyText(x)) && n + |NameText(x)| == b + |BodyText(x)|
  {
    hide At, WellFormedInterface, NameText, AllWhite, AllBlank, IsName, Spaces, Identifier;
    InterfaceFacts(x);
    InterfaceMiddle(s, n, x);
    var m, b := n + |x.name|, n + |x.name| + |x.before|;
    AtFirst(s, b, BodyText(x));
    NameOver(s, n, x.name);
    SpacesOver(s, m, x.before);
  }

  lemma InsideBraces(x: InterfaceSyntax)
    requires WellFormedInterface(x)
    ensures WellFormedParts(x.parts, x.last + ['}' as int]) && AllWhite(x.trail)
  {
    hide WellFormedParts, MethodsOf;
  }

  lemma ReadsBody(s: Text, b: nat, x: InterfaceSyntax)
    requires WellFormedInterface(x) && At(s, b, BodyText(x))
    requires var j := b + |BodyText(x)|; j < |s| ==> !WhiteByte(s[j])
    ensures var p := b + 1 + |PartsText(x.parts)|;
            var c := p + |x.last|;
            && p <= c < |s| && Is(s, b, '{' as int) && Content(s, b + 1) == Match(p, PartsEvents(x.parts))
            && Spaces(s, p) == c && Is(s, c, '}' as int) && Spaces(s, c + 1) == b + |BodyText(x)|
  {
    hide At, WellFormedInterface, BodyText, PartsText, WellFormedParts, AllWhite, AllBlank, Spaces, Content, CloseAt,
      WhiteByte, PartsEvents;
    InsideBraces(x);
    InterfaceBack(s, b, x);
    var p := b + 1 + |PartsText(x.parts)|;
    SliceAt(s, b + 1, PartsText(x.parts));
    ReadsParts(s, b + 1, x.parts, x.last);
    Closing(s, p, x.last, x.trail);
  }

  lemma ReadsInterface(s: Text, i: nat, x: InterfaceSyntax)
    requires i <= |s| && WellFormedInterface(x) && At(s, i, InterfaceText(x))
    requires var j := i + |InterfaceText(x)|; j < |s| ==> !WhiteByte(s[j])
    ensures InterfaceRule(s, i) == Match(i + |InterfaceText(x)|, InterfaceEvents(x))
  {
    hide At, WellFormedInterface, InterfaceText, BodyText, NameText, PartsText, IsIdentOther, Spaces, Identifier,
      Content, InterfaceRule, PartsEvents;
    InterfaceStarts(s, i, x);
    ReadsKeyword(s, i, x);
    var k := i + |x.lead|;
    var n := k + 9 + |x.gap|;
    ReadsName(s, n, x);
    var m, b := n + |x.name|, n + |x.name| + |x.before|;
    ReadsBody(s, b, x);
    var p := b + 1 + |PartsText(x.parts)|;
    InterfaceByParts(s, i, k, n, m, b, p, p + |x.last|, b + |BodyText(x)|, x.name, PartsEvents(x.parts));
  }

  lemma Closing(s: Text, p: nat, last: Text, trail: Text)
    requires p <= |s| && CloseAt(s, p, last) && AllWhite(trail) && At(s, p + |last| + 1, trail)
    requires var j := p + |last| + 1 + |trail|; j < |s| ==> !WhiteByte(s[j])
    ensures var c := p + |last|;
            Spaces(s, p) == c && Is(s, c, '}' as int) && Spaces(s, c + 1) == c + 1 + |trail|
  {
    hide At, Spaces, AllWhite;
    NoMember(s, p, last);
    SpacesOver(s, p + |last| + 1, trail);
  }

  // Neither blanks nor a keyword start an include.
  lemma NoInclude(s: Text, i: nat, lead: Text)
    requires At(s, i, lead) && AllWhite(lead) && Is(s, i + |lead|, 'i' as int)
    ensures Include(s, i) == NoMatch([])
  {
    hide At;
    if lead != [] {
      AtFirst(s, i, lead);
    }
    if At(s, i, INCLUDE) {
      AtFirst(s, i, INCLUDE);
      assert false;
    }
  }

  // ----- files -----

  function ItemEvents(t: Item): seq<Event> {
    match t
    case Between(_) => []
    case Includes(_, path, _, _) => [IncludePath(path)]
    case Interfaces(x) => InterfaceEvents(x)
  }

  function FileEvents(items: seq<Item>): seq<Event> {
    if items == [] then [] else ItemEvents(items[0]) + FileEvents(items[1..])
  }

  lemma {:induction false} PathOver(s: Text, i: nat, path: Text)
    requires At(s, i, path) && (forall k :: 0 <= k < |path| ==> PathByte(path[k])) && Is(s, i + |path|, '>' as int)
    ensures PathEnd(s, i) == i + |path|
    decreases |path|
  {
    hide At;
    if path == [] {
    } else {
      assert path == [path[0]] + path[1..];
      AtByte(s, i, path[0], path[1..]);
      PathOver(s, i + 1, path[1..]);
    }
  }

  // From the opening bracket on.
  function PathText(path: Text, rest: Text, closed: bool): Text {
    ['<' as int] + (path + (['>' as int] + (rest + LineBreak(closed))))
  }

  lemma IncludeTextIs(gap: Text, path: Text, rest: Text, closed: bool)
    ensures ItemText(Includes(gap, path, rest, closed)) == INCLUDE_TEXT + (gap + PathText(path, rest, closed))
  {
  }

  lemma PathPieces(s: Text, b: nat, path: Text, rest: Text, closed: bool)
    requires At(s, b, PathText(path, rest, closed))
    ensures var p := b + 1 + |path|;
            && Is(s, b, '<' as int) && At(s, b + 1, path) && Is(s, p, '>' as int)
            && At(s, p + 1, rest + LineBreak(closed))
            && b + |PathText(path, rest, closed)| == p + 1 + |rest| + |LineBreak(closed)|
  {
    hide At, LineBreak;
    var line := rest + LineBreak(closed);
    AtByte(s, b, '<' as int, path + (['>' as int] + line));
    AtSplit(s, b + 1, path, ['>' as int] + line);
    AtByte(s, b + 1 + |path|, '>' as int, line);
  }

  lemma IncludePieces(s: Text, i: nat, gap: Text, path: Text, rest: Text, closed: bool)
    requires At(s, i, ItemText(Includes(gap, path, rest, closed)))
    ensures At(s, i, INCLUDE) && Is(s, i, '#' as int) && At(s, i + 8, gap)
    ensures At(s, i + 8 + |gap|, PathText(path, rest, closed))
    ensures i + |ItemText(Includes(gap, path, rest, closed))| == i + 8 + |gap| + |PathText(path, rest, closed)|
  {
    hide At, INCLUDE_TEXT, INCLUDE, PathText, ItemText;
    KeywordIs();
    IncludeTextIs(gap, path, rest, closed);
    AtSplit(s, i, INCLUDE_TEXT, gap + PathText(path, rest, closed));
    AtFirst(s, i, INCLUDE_TEXT);
    AtSplit(s, i + 8, gap, PathText(path, rest, closed));
  }

  lemma ReadsInclude(s: Text, i: nat, gap: Text, path: Text, rest: Text, closed: bool)
    requires i <= |s| && WellFormedInclude(gap, path, rest) && At(s, i, ItemText(Includes(gap, path, rest, closed)))
    requires closed || i + |ItemText(Includes(gap, path, rest, closed))| == |s|
    ensures Include(s, i) == Match(i + |ItemText(Includes(gap, path, rest, closed))|, [IncludePath(path)])
    ensures IdlGrammar.EmptyLine(s, i) == i
  {
    hide At, Blanks, AllBlank, PathEnd, LineEnd, ItemText, PathText;
    IncludePieces(s, i, gap, path, rest, closed);
    var b := i + 8 + |gap|;
    PathPieces(s, b, path, rest, closed);
    var p := b + 1 + |path|;
    BlanksOver(s, i + 8, gap);
    PathOver(s, b + 1, path);
    SliceAt(s, b + 1, path);
    LineEndOver(s, p + 1, rest, closed);
    NoBlanks(s, i);
  }

  // What fills the space between interfaces is no include.
  lemma FillerNoInclude(s: Text, i: nat, f: Filler)
    requires i <= |s| && !f.BlankLine? && WellFormedFiller(f) && At(s, i, FillerText(f))
    ensures Include(s, i) == NoMatch([])
  {
    hide At;
    AtFirst(s, i, FillerText(f));
    if At(s, i, INCLUDE) {
      AtFirst(s, i, INCLUDE);
      assert false;
    }
  }

  lemma NothingLeft(s: Text)
    ensures Grammar(s, |s|) == Match(|s|, [])
  {
  }

  // One item and the rest of the file.
  lemma GrammarStep(s: Text, i: nat, at: nat, fired: seq<Event>, more: seq<Event>)
    requires i < at <= |s| && Grammar(s, at) == Match(|s|, more)
    requires || (IdlGrammar.EmptyLine(s, i) == at && fired == [])
             || (IdlGrammar.EmptyLine(s, i) == i && Include(s, i) == Match(at, fired))
             || (IdlGrammar.EmptyLine(s, i) == i && Include(s, i) == NoMatch([]) && Comment(s, i) == at && fired == [])
             || (IdlGrammar.EmptyLine(s, i) == i && Include(s, i) == NoMatch([]) && Comment(s, i) == i
                 && InterfaceRule(s, i) == Match(at, fired))
    ensures Grammar(s, i) == Match(|s|, fired + more)
  {
    hide IdlGrammar.EmptyLine, Include, Comment, InterfaceRule;
  }

  lemma FileFacts(items: seq<Item>)
    requires items != [] && WellFormedFile(items)
    ensures WellFormedFile(items[1..]) && ItemText(items[0]) != []
    ensures match items[0]
            case Between(f) => WellFormedFiller(f) && (Dangling(f) ==> FileText(items[1..]) == [])
            case Includes(gap, path, rest, closed) =>
              WellFormedInclude(gap, path, rest) && (closed || FileText(items[1..]) == [])
            case Interfaces(x) =>
              WellFormedInterface(x) && (FileText(items[1..]) != [] ==> !WhiteByte(FileText(items[1..])[0]))
  {
    hide WellFormedInterface, FillerText, WellFormedFiller;
    if items[0].Interfaces? {
      InterfaceTextIs(items[0].i);
    }
  }

  lemma ReadsItem(s: Text, i: nat, items: seq<Item>)
    requires i <= |s| && items != [] && WellFormedFile(items)
    requires At(s, i, ItemText(items[0])) && At(s, i + |ItemText(items[0])|, FileText(items[1..]))
    requires i + |ItemText(items[0])| + |FileText(items[1..])| == |s|
    requires Grammar(s, i + |ItemText(items[0])|) == Match(|s|, FileEvents(items[1..]))
    ensures Grammar(s, i) == Match(|s|, ItemEvents(items[0]) + FileEvents(items[1..]))
  {
    hide At, WellFormedFile, WellFormedInterface, FillerText, WellFormedFiller, InterfaceText, FileText,
      IdlGrammar.EmptyLine, Include, Comment, InterfaceRule, Grammar, InterfaceEvents, FileEvents, WellFormedInclude;
    FileFacts(items);
    var t := items[0];
    var at := i + |ItemText(t)|;
    match t {
      case Between(f) =>
        if f.BlankLine? {
          ReadsBlankLine(s, i, f);
        } else {
          ReadsComment(s, i, f);
          FillerNoInclude(s, i, f);
        }
      case Includes(gap, path, rest, closed) =>
        ReadsInclude(s, i, gap, path, rest, closed);
      case Interfaces(x) =>
        if FileText(items[1..]) != [] {
          AtFirst(s, at, FileText(items[1..]));
        }
        ReadsInterface(s, i, x);
        InterfaceStarts(s, i, x);
    }
    GrammarStep(s, i, at, ItemEvents(t), FileEvents(items[1..]));
  }

  lemma {:induction false} ReadsFile(s: Text, i: nat, items: seq<Item>)
    requires WellFormedFile(items) && i <= |s| && At(s, i, FileText(items)) && i + |FileText(items)| == |s|
    ensures Grammar(s, i) == Match(|s|, FileEvents(items))
    decreases |items|
  {
    hide At, WellFormedFile, ItemText, ItemEvents, Grammar;
    if items == [] {
      NothingLeft(s);
    } else {
      FileFacts(items);
      var at := i + |ItemText(items[0])|;
      AtSplit(s, i, ItemText(items[0]), FileText(items[1..]));
      ReadsFile(s, at, items[1..]);
      ReadsItem(s, i, items);
    }
  }

  // Every well-formed file is accepted, and the actions are those of its pieces, in order.
  lemma AcceptsWritten(items: seq<Item>)
    requires WellFormedFile(items)
    ensures Parse(FileText(items)) == Match(|FileText(items)|, FileEvents(items))
  {
    hide Grammar, FileText;
    var s := FileText(items);
    assert s[0..|s|] == s;
    ReadsFile(s, 0, items);
  }

  // Only an include starts with a number sign: what looks like a comment in that style fails the parse.
  lemma NoHashComments(s: Text, i: nat)
    requires i < |s| && s[i] == '#' as int && !At(s, i, INCLUDE)
    ensures Grammar(s, i) == Abort([])
  {
    NoBlanks(s, i);
    NoSlash(s, i);
    if At(s, i, KEYWORD) {
      AtFirst(s, i, KEYWORD);
      assert false;
    }
  }
}

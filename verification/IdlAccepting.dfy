// The other way round: whatever the grammar accepts is a written file, so that what the builder makes of any input it
// does not refuse is the description that stands there.
module IdlAccepting {
  import opened ByteOrder
  import opened IdlBuilder
  import opened IdlGrammar
  import opened IdlSyntax
  import opened IdlReading

  // ----- pieces of a text -----

  lemma AtSlice(s: Text, i: nat, j: nat)
    requires i <= j <= |s|
    ensures At(s, i, s[i..j])
  {
  }

  lemma AtJoin(s: Text, i: nat, a: Text, b: Text)
    requires At(s, i, a) && At(s, i + |a|, b)
    ensures At(s, i, a + b)
  {
    assert s[i..i + |a| + |b|] == s[i..i + |a|] + s[i + |a|..i + |a| + |b|];
  }

  lemma AtCons(s: Text, i: nat, b: Byte, rest: Text)
    requires Is(s, i, b) && At(s, i + 1, rest)
    ensures At(s, i, [b] + rest)
  {
    assert s[i..i + 1] == [b];
    AtJoin(s, i, [b], rest);
  }

  lemma AtOne(s: Text, i: nat, b: Byte)
    requires Is(s, i, b)
    ensures At(s, i, [b])
  {
  }

  lemma AtEmpty(s: Text, i: nat)
    requires i <= |s|
    ensures At(s, i, [])
  {
  }

  lemma {:induction false} BlanksIs(s: Text, i: nat)
    requires i <= |s|
    ensures var j := Blanks(s, i); AllBlank(s[i..j]) && (j < |s| ==> !BlankByte(s[j]))
    decreases |s| - i
  {
    if i < |s| && IsBlank(s[i]) {
      BlanksIs(s, i + 1);
      assert s[i..Blanks(s, i)] == [s[i]] + s[i + 1..Blanks(s, i)];
    }
  }

  lemma {:induction false} SpacesIs(s: Text, i: nat)
    requires i <= |s|
    ensures var j := Spaces(s, i); AllWhite(s[i..j]) && (j < |s| ==> !WhiteByte(s[j]))
    decreases |s| - i
  {
    if i < |s| && IsWs(s[i]) {
      SpacesIs(s, i + 1);
      assert s[i..Spaces(s, i)] == [s[i]] + s[i + 1..Spaces(s, i)];
    }
  }

  lemma {:induction false} WordsIs(s: Text, i: nat)
    requires i <= |s|
    ensures Values(s, i) == Others(s, i)
    ensures var j := Others(s, i); AllWord(s[i..j]) && (j < |s| ==> !WordByte(s[j]))
    decreases |s| - i
  {
    if i < |s| && IsIdentOther(s[i]) {
      WordsIs(s, i + 1);
      assert s[i..Others(s, i)] == [s[i]] + s[i + 1..Others(s, i)];
    }
  }

  lemma NameIs(s: Text, i: nat)
    requires i <= |s| && Identifier(s, i) > i
    ensures IsName(s[i..Identifier(s, i)])
  {
    WordsIs(s, i + 1);
    var k := Identifier(s, i);
    assert s[i..k] == [s[i]] + s[i + 1..k];
  }

  lemma {:induction false} TypeTailIs(s: Text, i: nat)
    requires i <= |s|
    ensures TypeTail(s[i..TypeRest(s, i)])
    decreases |s| - i
  {
    var e := TypeRest(s, i);
    if i < |s| && IsIdentOther(s[i]) {
      TypeTailIs(s, i + 1);
      assert s[i..e][1..] == s[i + 1..e];
    } else if At(s, i, [58, 58]) {
      SecondByte(s, i, 58, 58);
      TypeTailIs(s, i + 2);
      assert s[i..e][2..] == s[i + 2..e];
    }
  }

  // ----- arguments -----

  lemma ArgCases(s: Text, i: nat) returns (k: nat, c: nat, t: nat, e: nat)
    requires i <= |s| && Arg(s, i).Match?
    ensures i < k <= c < t < e <= |s| && k == Identifier(s, i) && c == Spaces(s, k) && Is(s, c, ':' as int)
    ensures t == Spaces(s, c + 1) && IsIdentFirst(s[t]) && e == TypeRest(s, t + 1)
    ensures Arg(s, i) == Match(e, [ArgName(s[i..k]), ArgType(s[t..e]), ArgEnd])
  {
    hide Identifier, Spaces, TypeRest;
    k := Identifier(s, i);
    c := Spaces(s, k);
    t := Spaces(s, c + 1);
    e := TypeRest(s, t + 1);
  }

  lemma WasArg(s: Text, i: nat) returns (a: ArgSyntax)
    requires i <= |s| && Arg(s, i).Match?
    ensures ValidArg(a) && a.lead == [] && At(s, i, ArgText(a))
    ensures Arg(s, i) == Match(i + |ArgText(a)|, ArgEvents(a))
  {
    hide Arg, Identifier, Spaces, TypeRest, At, AllWhite, IsName, IsTypeName, ArgText;
    var k, c, t, e := ArgCases(s, i);
    NameIs(s, i);
    SpacesIs(s, k);
    SpacesIs(s, c + 1);
    TypeNameIs(s, t);
    NoWhite();
    a := ArgSyntax([], s[i..k], s[k..c], s[c + 1..t], s[t..e]);
    WasArgText(s, i, k, c, t, e, a);
  }

  lemma WasArgText(s: Text, i: nat, k: nat, c: nat, t: nat, e: nat, a: ArgSyntax)
    requires i <= k <= c < t <= e <= |s| && Is(s, c, ':' as int)
    requires a.name == s[i..k] && a.before == s[k..c] && a.after == s[c + 1..t] && a.typeName == s[t..e]
    ensures At(s, i, ArgText(a)) && |ArgText(a)| == e - i
  {
    hide At;
    AtSlice(s, t, e);
    AtSlice(s, c + 1, t);
    AtJoin(s, c + 1, a.after, a.typeName);
    AtCons(s, c, ':' as int, a.after + a.typeName);
    AtSlice(s, k, c);
    AtJoin(s, k, a.before, [':' as int] + (a.after + a.typeName));
    AtSlice(s, i, k);
    AtJoin(s, i, a.name, a.before + ([':' as int] + (a.after + a.typeName)));
  }

  lemma NoWhite()
    ensures AllWhite([])
  {
  }

  lemma TypeNameIs(s: Text, t: nat)
    requires t < |s| && IsIdentFirst(s[t])
    ensures IsTypeName(s[t..TypeRest(s, t + 1)])
  {
    hide TypeTail;
    TypeTailIs(s, t + 1);
    var e := TypeRest(s, t + 1);
    assert s[t..e][1..] == s[t + 1..e];
  }

  lemma {:induction false} WasNextArgs(s: Text, i: nat) returns (args: seq<ArgSyntax>)
    requires i <= |s| && Is(s, NextArgs(s, i).at, ')' as int)
    ensures ValidArgs(args) && At(s, i, NextArgsText(args))
    ensures NextArgs(s, i) == Match(i + |NextArgsText(args)|, ArgsEvents(args))
    decreases |s| - i
  {
    hide Arg, Spaces, At, AllWhite, ValidArg, ArgText;
    if !Is(s, i, ',' as int) {
      args := [];
      AtEmpty(s, i);
    } else {
      var p := Spaces(s, i + 1);
      SpacesIs(s, i + 1);
      assert Arg(s, p).Match?;
      var a := WasArg(s, p);
      var q := p + |ArgText(a)|;
      SliceAt(s, p, ArgText(a));
      var rest := WasNextArgs(s, q);
      var b := a.(lead := s[i + 1..p]);
      args := [b] + rest;
      AtSlice(s, i + 1, p);
      WithLead(a, s[i + 1..p]);
      AtJoin(s, p, ArgText(b), NextArgsText(rest));
      AtJoin(s, i + 1, b.lead, ArgText(b) + NextArgsText(rest));
      AtCons(s, i, ',' as int, b.lead + (ArgText(b) + NextArgsText(rest)));
      assert args[1..] == rest;
    }
  }

  lemma WithLead(a: ArgSyntax, lead: Text)
    requires ValidArg(a) && AllWhite(lead)
    ensures var b := a.(lead := lead); ValidArg(b) && ArgText(b) == ArgText(a) && ArgEvents(b) == ArgEvents(a)
  {
  }

  lemma WasArgs(s: Text, i: nat) returns (args: seq<ArgSyntax>)
    requires i <= |s| && Is(s, Args(s, i).at, ')' as int)
    ensures ValidArgs(args) && At(s, i, ArgsText(args))
    ensures Args(s, i) == Match(i + |ArgsText(args)|, ArgsEvents(args))
  {
    hide Arg, At, ValidArg, ArgText, NextArgs;
    if Arg(s, i).Match? {
      var a := WasArg(s, i);
      var q := i + |ArgText(a)|;
      SliceAt(s, i, ArgText(a));
      var rest := WasNextArgs(s, q);
      args := [a] + rest;
      AtJoin(s, i, ArgText(a), NextArgsText(rest));
      assert args[1..] == rest;
    } else {
      NoArgument(s, i);
      args := [];
      AtEmpty(s, i);
    }
  }

  lemma WasGroup(s: Text, i: nat, open: Event, close: Event) returns (args: seq<ArgSyntax>)
    requires i <= |s| && ArgsGroup(s, i, open, close).Match?
    ensures ValidArgs(args) && At(s, i, GroupText(args))
    ensures ArgsGroup(s, i, open, close) == Match(i + |GroupText(args)|, [open] + ArgsEvents(args) + [close])
  {
    hide Args, At, ValidArgs, ArgsText;
    args := WasArgs(s, i + 1);
    var e := i + 1 + |ArgsText(args)|;
    AtOne(s, e, ')' as int);
    AtJoin(s, i + 1, ArgsText(args), [')' as int]);
    AtCons(s, i, '(' as int, ArgsText(args) + [')' as int]);
  }

  // ----- decorators -----

  lemma DecoratorCases(s: Text, i: nat) returns (k: nat, e: nat, v: nat, w: nat)
    requires i <= |s| && DecoratorGroup(s, i).Match?
    ensures i + 1 < k <= e < v <= w < |s| && Is(s, i, '[' as int) && k == Identifier(s, i + 1) && e == Spaces(s, k)
    ensures Is(s, e, '=' as int) && v == Spaces(s, e + 1) && w == Values(s, v) && Is(s, w, ']' as int)
    ensures DecoratorGroup(s, i) ==
            Match(Blanks(s, w + 1), [DecoratorKey(s[i + 1..k]), DecoratorValue(s[v..w]), DecoratorClose])
  {
    hide Identifier, Spaces, Values, Blanks;
    k := Identifier(s, i + 1);
    e := Spaces(s, k);
    v := Spaces(s, e + 1);
    w := Values(s, v);
  }

  lemma WasDecorator(s: Text, i: nat) returns (d: Decorator)
    requires i <= |s| && DecoratorGroup(s, i).Match?
    ensures WellFormedDecorator(d) && At(s, i, DecoratorText(d))
    ensures DecoratorGroup(s, i) == Match(i + |DecoratorText(d)|, DecoratorEvents(d))
    ensures var j := i + |DecoratorText(d)|; j < |s| ==> !BlankByte(s[j])
  {
    hide DecoratorGroup, Identifier, Spaces, Values, Blanks, At, AllWhite, IsName, AllWord, AllBlank, DecoratorRest,
      DecoratorText;
    var k, e, v, w := DecoratorCases(s, i);
    var j := Blanks(s, w + 1);
    NameIs(s, i + 1);
    SpacesIs(s, k);
    SpacesIs(s, e + 1);
    WordsIs(s, v);
    BlanksIs(s, w + 1);
    d := Decorator(s[i + 1..k], s[k..e], s[e + 1..v], s[v..w], s[w + 1..j]);
    WasDecoratorRest(s, e + 1, v, w, j, d);
    WasDecoratorText(s, i, k, e, d);
  }

  lemma WasDecoratorText(s: Text, i: nat, k: nat, e: nat, d: Decorator)
    requires i < k <= e < |s| && Is(s, i, '[' as int) && Is(s, e, '=' as int) && At(s, e + 1, DecoratorRest(d))
    requires d.key == s[i + 1..k] && d.before == s[k..e]
    ensures At(s, i, DecoratorText(d)) && i + |DecoratorText(d)| == e + 1 + |DecoratorRest(d)|
  {
    hide At, DecoratorRest;
    AtCons(s, e, '=' as int, DecoratorRest(d));
    AtSlice(s, k, e);
    AtJoin(s, k, d.before, ['=' as int] + DecoratorRest(d));
    AtSlice(s, i + 1, k);
    AtJoin(s, i + 1, d.key, d.before + (['=' as int] + DecoratorRest(d)));
    AtCons(s, i, '[' as int, d.key + (d.before + (['=' as int] + DecoratorRest(d))));
    DecoratorTextIs(d);
  }

  lemma WasDecoratorRest(s: Text, a: nat, v: nat, w: nat, j: nat, d: Decorator)
    requires a <= v <= w < j <= |s| && Is(s, w, ']' as int)
    requires d.after == s[a..v] && d.value == s[v..w] && d.trail == s[w + 1..j]
    ensures At(s, a, DecoratorRest(d)) && |DecoratorRest(d)| == j - a
  {
    hide At;
    AtSlice(s, w + 1, j);
    AtCons(s, w, ']' as int, d.trail);
    AtSlice(s, v, w);
    AtJoin(s, v, d.value, [']' as int] + d.trail);
    AtSlice(s, a, v);
    AtJoin(s, a, d.after, d.value + ([']' as int] + d.trail));
  }

  predicate WellFormedDecorators(ds: seq<Decorator>) {
    forall k :: 0 <= k < |ds| ==> WellFormedDecorator(ds[k])
  }

  // Decorators that are followed by parameters.
  lemma {:induction false} WasDecorators(s: Text, i: nat) returns (ds: seq<Decorator>)
    requires i <= |s| && (i < |s| ==> !BlankByte(s[i])) && Is(s, Blanks(s, Decorators(s, i).at), '(' as int)
    ensures WellFormedDecorators(ds) && At(s, i, DecoratorsText(ds))
    ensures Decorators(s, i) == Match(i + |DecoratorsText(ds)|, DecoratorsEvents(ds))
    ensures Is(s, i + |DecoratorsText(ds)|, '(' as int)
    decreases |s| - i
  {
    hide At, DecoratorText, WellFormedDecorator, DecoratorGroup, Blanks;
    if DecoratorGroup(s, i).Match? {
      var d := WasDecorator(s, i);
      var q := i + |DecoratorText(d)|;
      SliceAt(s, i, DecoratorText(d));
      var rest := WasDecorators(s, q);
      ds := [d] + rest;
      assert ds[1..] == rest;
      AtJoin(s, i, DecoratorText(d), DecoratorsText(rest));
    } else {
      ds := [];
      AtEmpty(s, i);
      BlanksStay(s, i);
      NoDecorator(s, i);
    }
  }

  lemma BlanksStay(s: Text, i: nat)
    requires i <= |s| && (i < |s| ==> !BlankByte(s[i]))
    ensures Blanks(s, i) == i
  {
  }

  // ----- methods -----

  lemma WasReply(s: Text, i: nat) returns (r: Reply)
    requires i <= |s| && ReturnType(s, i).Match?
    ensures ValidReply(r) && At(s, i, ReplyText(r)) && ReturnType(s, i) == Match(i + |ReplyText(r)|, ReplyEvents(r))
  {
    hide At, ArgsGroup, GroupText, ValidArgs, Blanks, AllBlank, ArgsEvents;
    if At(s, i, [61, 124]) {
      r := NoReply;
    } else {
      var p := Blanks(s, i + 2);
      SliceAt(s, i, [61, 62]);
      BlanksIs(s, i + 2);
      var outs := WasGroup(s, p, ReturnOpen, ReturnClose);
      r := Answer(s[i + 2..p], outs);
      AtSlice(s, i + 2, p);
      AtJoin(s, i + 2, r.gap, GroupText(outs));
      AtJoin(s, i, ['=' as int, '>' as int], r.gap + GroupText(outs));
    }
  }

  lemma MethodCases(s: Text, i: nat) returns (k: nat, d: nat, a: nat, g: nat, r: nat, e: nat)
    requires i <= |s| && MethodRule(s, i).Match?
    ensures i < k <= d <= a <= g <= r <= e <= |s| && k == Identifier(s, i) && d == Blanks(s, k)
    ensures a == Blanks(s, Decorators(s, d).at) && ArgsGroup(s, a, ArgsOpen, ArgsClose).Match?
    ensures g == ArgsGroup(s, a, ArgsOpen, ArgsClose).at && r == Blanks(s, g) && ReturnType(s, r).Match?
    ensures e == ReturnType(s, r).at
    ensures MethodRule(s, i) ==
            Match(Blanks(s, e), [MethodName(s[i..k])] + Decorators(s, d).fired
              + ArgsGroup(s, a, ArgsOpen, ArgsClose).fired + ReturnType(s, r).fired + [MethodEnd])
  {
    hide Identifier, Blanks, Decorators, ArgsGroup, ReturnType;
    k := Identifier(s, i);
    d := Blanks(s, k);
    a := Blanks(s, Decorators(s, d).at);
    g := ArgsGroup(s, a, ArgsOpen, ArgsClose).at;
    r := Blanks(s, g);
    e := ReturnType(s, r).at;
  }

  lemma GroupOpens(s: Text, a: nat, open: Event, close: Event)
    requires a <= |s| && ArgsGroup(s, a, open, close).Match?
    ensures Is(s, a, '(' as int)
  {
    hide Args;
  }

  // The pieces a method was put together from.
  lemma MethodPieces(s: Text, i: nat, k: nat, d: nat, a: nat, g: nat, r: nat, e: nat)
    returns (ds: seq<Decorator>, params: seq<ArgSyntax>, reply: Reply)
    requires i < k <= d <= a <= g <= r <= e <= |s| && d == Blanks(s, k) && a == Blanks(s, Decorators(s, d).at)
    requires ArgsGroup(s, a, ArgsOpen, ArgsClose).Match? && g == ArgsGroup(s, a, ArgsOpen, ArgsClose).at
    requires ReturnType(s, r).Match? && e == ReturnType(s, r).at
    ensures WellFormedDecorators(ds) && ValidArgs(params) && ValidReply(reply)
    ensures At(s, d, DecoratorsText(ds)) && Decorators(s, d) == Match(a, DecoratorsEvents(ds))
    ensures a == d + |DecoratorsText(ds)|
    ensures At(s, a, GroupText(params)) && At(s, r, ReplyText(reply))
    ensures ArgsGroup(s, a, ArgsOpen, ArgsClose) ==
            Match(a + |GroupText(params)|, [ArgsOpen] + ArgsEvents(params) + [ArgsClose])
    ensures ReturnType(s, r) == Match(r + |ReplyText(reply)|, ReplyEvents(reply))
  {
    hide Identifier, Blanks, Decorators, ArgsGroup, ReturnType, At, ValidArgs, ValidReply, WellFormedDecorators,
      DecoratorsText, GroupText, ReplyText;
    BlanksIs(s, k);
    GroupOpens(s, a, ArgsOpen, ArgsClose);
    ds := WasDecorators(s, d);
    BlanksStay(s, d + |DecoratorsText(ds)|);
    params := WasGroup(s, a, ArgsOpen, ArgsClose);
    reply := WasReply(s, r);
  }

  // A method; its identifier is what the builder will make of its decorators.
  lemma WasMethod(s: Text, i: nat) returns (m: MethodSyntax)
    requires i <= |s| && MethodRule(s, i).Match?
    ensures WellFormedMethod(m) && m.id == IdFor(m.decorators, m.name) && At(s, i, MethodText(m))
    ensures MethodRule(s, i) == Match(i + |MethodText(m)|, MethodEvents(m))
    ensures var j := i + |MethodText(m)|; j < |s| ==> !BlankByte(s[j])
  {
    hide MethodRule, Identifier, Blanks, Decorators, ArgsGroup, ReturnType, At, IsName, AllBlank, ValidArgs, ValidReply,
      WellFormedDecorator, DecoratorsText, GroupText, ReplyText, MethodText, IdFor;
    var k, d, a, g, r, e := MethodCases(s, i);
    var j := Blanks(s, e);
    var ds, params, reply := MethodPieces(s, i, k, d, a, g, r, e);
    NameIs(s, i);
    BlanksIs(s, k);
    BlanksIs(s, g);
    BlanksIs(s, e);
    m := MethodSyntax(s[i..k], s[k..d], ds, params, s[g..r], reply, s[e..j], IdFor(ds, s[i..k]));
    WasMethodText(s, i, k, d, a, g, r, e, j, m);
  }

  lemma WasMethodText(s: Text, i: nat, k: nat, d: nat, a: nat, g: nat, r: nat, e: nat, j: nat, m: MethodSyntax)
    requires i <= k <= d <= a <= g <= r <= e <= j <= |s|
    requires m.name == s[i..k] && m.gap == s[k..d] && m.between == s[g..r] && m.trail == s[e..j]
    requires At(s, d, DecoratorsText(m.decorators)) && a == d + |DecoratorsText(m.decorators)|
    requires At(s, a, GroupText(m.params)) && g == a + |GroupText(m.params)|
    requires At(s, r, ReplyText(m.reply)) && e == r + |ReplyText(m.reply)|
    ensures At(s, i, MethodText(m)) && |MethodText(m)| == j - i
  {
    hide At, GroupText, ReplyText, DecoratorsText, MethodRest;
    WasMethodRest(s, a, g, r, e, j, m);
    var tags := DecoratorsText(m.decorators);
    AtJoin(s, d, tags, MethodRest(m));
    AtSlice(s, k, d);
    AtJoin(s, k, m.gap, tags + MethodRest(m));
    AtSlice(s, i, k);
    AtJoin(s, i, m.name, m.gap + (tags + MethodRest(m)));
    MethodTextIs(m);
  }

  lemma WasMethodRest(s: Text, a: nat, g: nat, r: nat, e: nat, j: nat, m: MethodSyntax)
    requires a <= g <= r <= e <= j <= |s| && m.between == s[g..r] && m.trail == s[e..j]
    requires At(s, a, GroupText(m.params)) && g == a + |GroupText(m.params)|
    requires At(s, r, ReplyText(m.reply)) && e == r + |ReplyText(m.reply)|
    ensures At(s, a, MethodRest(m)) && |MethodRest(m)| == j - a
  {
    hide At, GroupText, ReplyText;
    AtSlice(s, e, j);
    AtJoin(s, r, ReplyText(m.reply), m.trail);
    AtSlice(s, g, r);
    AtJoin(s, g, m.between, ReplyText(m.reply) + m.trail);
    AtJoin(s, a, GroupText(m.params), m.between + (ReplyText(m.reply) + m.trail));
  }

  // ----- what stands between -----

  lemma WasBlankLine(s: Text, i: nat) returns (f: Filler)
    requires i <= |s| && IdlGrammar.EmptyLine(s, i) > i
    ensures f.BlankLine? && WellFormedFiller(f) && At(s, i, FillerText(f))
    ensures IdlGrammar.EmptyLine(s, i) == i + |FillerText(f)|
  {
    hide At, Blanks, AllBlank;
    var k := Blanks(s, i);
    BlanksIs(s, i);
    f := BlankLine(s[i..k], !Is(s, k, 10));
    AtSlice(s, i, k);
    if Is(s, k, 10) {
      AtOne(s, k, '\n' as int);
      AtJoin(s, i, f.blanks, ['\n' as int]);
    } else {
      AtOne(s, k + 1, '\n' as int);
      AtCons(s, k, '\r' as int, ['\n' as int]);
      assert ['\r' as int] + ['\n' as int] == ['\r' as int, '\n' as int];
      AtJoin(s, i, f.blanks, ['\r' as int, '\n' as int]);
    }
  }

  // White space in front of something visible, where no line is empty.
  lemma WasLead(s: Text, i: nat)
    requires i <= |s| && Spaces(s, i) < |s| && IdlGrammar.EmptyLine(s, i) == i
    ensures Lead(s[i..Spaces(s, i)])
  {
    hide At, Blanks, Spaces, LeadingBlanks;
    SpacesIs(s, i);
    AtSlice(s, i, Spaces(s, i));
    LeadBlanks(s, i, s[i..Spaces(s, i)]);
  }

  lemma {:induction false} WasLine(s: Text, i: nat) returns (text: Text, closed: bool)
    requires i <= |s|
    ensures '\n' as int !in text && At(s, i, text + LineBreak(closed)) && (!closed ==> LineEnd(s, i) == |s|)
    ensures LineEnd(s, i) == i + |text + LineBreak(closed)|
    decreases |s| - i
  {
    hide At;
    if i == |s| {
      text, closed := [], false;
      AtEmpty(s, i);
      assert text + LineBreak(closed) == [];
    } else if s[i] == '\n' as int {
      text, closed := [], true;
      AtOne(s, i, '\n' as int);
      assert text + LineBreak(closed) == ['\n' as int];
    } else {
      var rest;
      rest, closed := WasLine(s, i + 1);
      text := [s[i]] + rest;
      LineEndNext(s, i);
      AtCons(s, i, s[i], rest + LineBreak(closed));
      assert [s[i]] + (rest + LineBreak(closed)) == text + LineBreak(closed);
    }
  }

  lemma {:induction false} WasBlock(s: Text, i: nat) returns (text: Text)
    requires i <= |s| && CommentEnd(s, i) > i
    ensures Unclosed(text) && At(s, i, text + ['*' as int, '/' as int]) && CommentEnd(s, i) == i + |text| + 2
    decreases |s| - i
  {
    hide At;
    var mark: Text := ['*' as int, '/' as int];
    if At(s, i, [42, 47]) {
      text := [];
      assert text + mark == mark;
    } else {
      var rest := WasBlock(s, i + 1);
      text := [s[i]] + rest;
      AtFirst(s, i + 1, rest + mark);
      AtCons(s, i, s[i], rest + mark);
      assert [s[i]] + (rest + mark) == text + mark;
      if Is(s, i, '*' as int) && Is(s, i + 1, '/' as int) {
        AtPair(s, i, '*' as int, '/' as int);
        assert false;
      }
      UnclosedCons(s[i], rest);
    }
  }

  lemma AtPair(s: Text, i: nat, a: Byte, b: Byte)
    requires Is(s, i, a) && Is(s, i + 1, b)
    ensures At(s, i, [a, b])
  {
  }

  lemma UnclosedCons(b: Byte, rest: Text)
    requires Unclosed(rest) && !(b == '*' as int && (rest + ['*' as int, '/' as int])[0] == '/' as int)
    ensures Unclosed([b] + rest)
  {
    var mark: Text := ['*' as int, '/' as int];
    var text := [b] + rest;
    forall k | 0 <= k < |text|
      ensures !(text[k] == '*' as int && (text + mark)[k + 1] == '/' as int)
    {
      assert (text + mark)[k + 1] == (rest + mark)[k];
      assert k > 0 ==> text[k] == rest[k - 1] && (rest + mark)[k] == (rest + mark)[k - 1 + 1];
    }
  }

  lemma WasComment(s: Text, i: nat) returns (f: Filler)
    requires i <= |s| && IdlGrammar.EmptyLine(s, i) == i && Comment(s, i) > i
    ensures !f.BlankLine? && WellFormedFiller(f) && At(s, i, FillerText(f)) && Comment(s, i) == i + |FillerText(f)|
    ensures Dangling(f) ==> i + |FillerText(f)| == |s|
  {
    hide At, Spaces, Lead, LineEnd, CommentEnd, IdlGrammar.EmptyLine, FillerText;
    var k := Spaces(s, i);
    if At(s, k, [47, 47]) {
      SecondByte(s, k, 47, 47);
      WasLead(s, i);
      f := WasLineComment(s, i, k);
    } else {
      SecondByte(s, k, 47, 42);
      WasLead(s, i);
      f := WasBlockComment(s, i, k);
    }
  }

  lemma WasLineComment(s: Text, i: nat, k: nat) returns (f: Filler)
    requires i <= k && At(s, k, ['/' as int, '/' as int]) && k + 2 <= |s| && Lead(s[i..k])
    ensures f.LineComment? && WellFormedFiller(f) && At(s, i, FillerText(f)) && LineEnd(s, k + 2) == i + |FillerText(f)|
    ensures !f.closed ==> i + |FillerText(f)| == |s|
  {
    hide At, Lead, LineEnd;
    var text, closed := WasLine(s, k + 2);
    f := LineComment(s[i..k], text, closed);
    AtSlice(s, i, k);
    AtJoin(s, k, ['/' as int, '/' as int], text + LineBreak(closed));
    AtJoin(s, i, f.lead, ['/' as int, '/' as int] + (text + LineBreak(closed)));
  }

  lemma WasBlockComment(s: Text, i: nat, k: nat) returns (f: Filler)
    requires i <= k && At(s, k, ['/' as int, '*' as int]) && k + 2 <= |s| && Lead(s[i..k])
    requires CommentEnd(s, k + 2) > k + 2
    ensures f.BlockComment? && WellFormedFiller(f) && At(s, i, FillerText(f))
    ensures CommentEnd(s, k + 2) == i + |FillerText(f)|
  {
    hide At, Lead, CommentEnd, Unclosed;
    var text := WasBlock(s, k + 2);
    f := BlockComment(s[i..k], text);
    AtSlice(s, i, k);
    AtJoin(s, k, ['/' as int, '*' as int], text + ['*' as int, '/' as int]);
    AtJoin(s, i, f.lead, ['/' as int, '*' as int] + (text + ['*' as int, '/' as int]));
  }

  // ----- interfaces -----

  // The identifiers are those the builder gives.
  predicate Numbered(parts: seq<Part>) {
    forall k :: 0 <= k < |parts| && parts[k].Declares? ==>
        parts[k].m.id == IdFor(parts[k].m.decorators, parts[k].m.name)
  }

  // One member before the closing brace.
  lemma WasPart(s: Text, i: nat) returns (p: Part)
    requires i <= |s| && Member(s, i).Match? && Member(s, i).at < |s|
    ensures PartText(p) != [] && At(s, i, PartText(p)) && Member(s, i) == Match(i + |PartText(p)|, PartEvents(p))
    ensures Numbered([p])
    ensures match p
            case Filling(f) => WellFormedFiller(f) && !Dangling(f)
            case Declares(lead, m) =>
              Lead(lead) && WellFormedMethod(m) && !BlankByte(s[i + |PartText(p)|])
  {
    hide At, IdlGrammar.EmptyLine, Comment, MethodRule, Spaces, Lead, WellFormedMethod, WellFormedFiller, FillerText,
      MethodText, MethodEvents, IdFor;
    if IdlGrammar.EmptyLine(s, i) > i {
      var f := WasBlankLine(s, i);
      p := Filling(f);
    } else if Comment(s, i) > i {
      var f := WasComment(s, i);
      p := Filling(f);
    } else {
      var k := Spaces(s, i);
      var m := WasMethod(s, k);
      SliceAt(s, k, MethodText(m));
      MethodStarts(m);
      WasLead(s, i);
      p := Declares(s[i..k], m);
      AtSlice(s, i, k);
      AtJoin(s, i, s[i..k], MethodText(m));
    }
  }

  // The members before a closing brace.
  lemma {:induction false} WasParts(s: Text, i: nat) returns (parts: seq<Part>)
    requires i <= |s| && Content(s, i).Match?
    requires var at := Content(s, i).at; Is(s, Spaces(s, at), '}' as int)
    ensures var at := Content(s, i).at;
            var last := s[at..Spaces(s, at)];
            && WellFormedParts(parts, last + ['}' as int]) && Numbered(parts) && At(s, i, PartsText(parts))
            && CloseAt(s, at, last) && Content(s, i) == Match(i + |PartsText(parts)|, PartsEvents(parts))
    decreases |s| - i
  {
    hide At, Member, Spaces, PartText, PartEvents, WellFormedMethod, WellFormedFiller, Lead, Numbered;
    if Member(s, i).Match? {
      var q := Member(s, i).at;
      assert q <= Content(s, q).at <= Spaces(s, Content(s, q).at) < |s|;
      var p := WasPart(s, i);
      var rest := WasParts(s, q);
      parts := [p] + rest;
      assert parts[1..] == rest;
      AtJoin(s, i, PartText(p), PartsText(rest));
      NextByte(s, q, PartsText(rest), s[Content(s, q).at..Spaces(s, Content(s, q).at)]);
      NumberedCons(p, rest);
    } else {
      parts := [];
      AtEmpty(s, i);
      WasClosing(s, i);
      NoneNumbered();
    }
  }

  lemma NumberedCons(p: Part, rest: seq<Part>)
    requires Numbered([p]) && Numbered(rest)
    ensures Numbered([p] + rest)
  {
    hide IdFor;
    assert [p][0] == p;
  }

  lemma NoneNumbered()
    ensures Numbered([])
  {
  }

  // Where no member begins there is no empty line either.
  lemma WasClosing(s: Text, i: nat)
    requires i <= |s| && !Member(s, i).Match? && Is(s, Spaces(s, i), '}' as int)
    ensures CloseAt(s, i, s[i..Spaces(s, i)])
  {
    hide At, Spaces, Comment, MethodRule, IdlGrammar.EmptyLine, Lead;
    WasLead(s, i);
    AtSlice(s, i, Spaces(s, i));
  }

  lemma InterfaceCases(s: Text, i: nat) returns (k: nat, n: nat, m: nat, b: nat, p: nat, c: nat)
    requires i <= |s| && InterfaceRule(s, i).Match?
    ensures i <= k && k + 9 < n < m <= b < p <= c < |s| && k == Spaces(s, i) && At(s, k, KEYWORD)
    ensures n == Spaces(s, k + 9) && m == Identifier(s, n) && b == Spaces(s, m) && Is(s, b, '{' as int)
    ensures Content(s, b + 1).Match? && p == Content(s, b + 1).at && c == Spaces(s, p) && Is(s, c, '}' as int)
    ensures InterfaceRule(s, i) ==
            Match(Spaces(s, c + 1), [InterfaceName(s[n..m])] + Content(s, b + 1).fired + [InterfaceEnd])
  {
    hide At, Spaces, Identifier, Content;
    k := Spaces(s, i);
    n := Spaces(s, k + 9);
    m := Identifier(s, n);
    b := Spaces(s, m);
    p := Content(s, b + 1).at;
    c := Spaces(s, p);
  }

  lemma WasInterface(s: Text, i: nat) returns (x: InterfaceSyntax)
    requires i <= |s| && IdlGrammar.EmptyLine(s, i) == i && InterfaceRule(s, i).Match?
    ensures WellFormedInterface(x) && Numbered(x.parts) && At(s, i, InterfaceText(x))
    ensures InterfaceRule(s, i) == Match(i + |InterfaceText(x)|, InterfaceEvents(x))
    ensures var j := i + |InterfaceText(x)|; j < |s| ==> !WhiteByte(s[j])
  {
    hide InterfaceRule, At, Spaces, Identifier, Content, IdlGrammar.EmptyLine, Lead, AllWhite, IsName, WellFormedParts,
      PartsText, PartsEvents, InterfaceText, NameText, BodyText, Numbered;
    var k, n, m, b, p, c := InterfaceCases(s, i);
    var j := Spaces(s, c + 1);
    SliceAt(s, k, KEYWORD);
    WasLead(s, i);
    SpacesIs(s, k + 9);
    NameIs(s, n);
    SpacesIs(s, m);
    var parts := WasParts(s, b + 1);
    CloseLead(s, p, s[p..c]);
    SpacesIs(s, c + 1);
    x := InterfaceSyntax(s[i..k], s[k + 9..n], s[n..m], s[m..b], parts, s[p..c], s[c + 1..j]);
    WasBody(s, b, p, c, j, x);
    WasHead(s, i, k, n, m, b, x);
  }

  lemma CloseLead(s: Text, p: nat, last: Text)
    requires CloseAt(s, p, last)
    ensures Lead(last)
  {
  }

  lemma WasBody(s: Text, b: nat, p: nat, c: nat, j: nat, x: InterfaceSyntax)
    requires b < p <= c < j <= |s| && Is(s, b, '{' as int) && Is(s, c, '}' as int)
    requires At(s, b + 1, PartsText(x.parts)) && p == b + 1 + |PartsText(x.parts)|
    requires x.last == s[p..c] && x.trail == s[c + 1..j]
    ensures At(s, b, BodyText(x)) && |BodyText(x)| == j - b
  {
    hide At, PartsText;
    var close := ['}' as int] + x.trail;
    AtSlice(s, c + 1, j);
    AtCons(s, c, '}' as int, x.trail);
    AtSlice(s, p, c);
    AtJoin(s, p, x.last, close);
    AtJoin(s, b + 1, PartsText(x.parts), x.last + close);
    AtCons(s, b, '{' as int, PartsText(x.parts) + (x.last + close));
  }

  lemma WasHead(s: Text, i: nat, k: nat, n: nat, m: nat, b: nat, x: InterfaceSyntax)
    requires i <= k && k + 9 < n < m <= b <= |s| && At(s, k, KEYWORD) && At(s, b, BodyText(x))
    requires x.lead == s[i..k] && x.gap == s[k + 9..n] && x.name == s[n..m] && x.before == s[m..b]
    ensures At(s, i, InterfaceText(x)) && i + |InterfaceText(x)| == b + |BodyText(x)|
  {
    hide At, BodyText;
    assert KEYWORD == KEYWORD_TEXT;
    AtSlice(s, m, b);
    AtJoin(s, m, x.before, BodyText(x));
    AtSlice(s, n, m);
    AtJoin(s, n, x.name, x.before + BodyText(x));
    AtSlice(s, k + 9, n);
    AtJoin(s, k + 9, x.gap, NameText(x));
    AtJoin(s, k, KEYWORD_TEXT, x.gap + NameText(x));
    AtSlice(s, i, k);
    AtJoin(s, i, x.lead, KEYWORD_TEXT + (x.gap + NameText(x)));
    InterfaceTextIs(x);
  }

  // ----- files -----

  lemma {:induction false} WasPath(s: Text, i: nat)
    requires i <= |s|
    ensures forall k :: i <= k < PathEnd(s, i) ==> PathByte(s[k])
    decreases |s| - i
  {
    if i < |s| && (IsIdentOther(s[i]) || s[i] == '.' as int || s[i] == '/' as int) {
      WasPath(s, i + 1);
    }
  }

  lemma IncludeCases(s: Text, i: nat) returns (b: nat, p: nat)
    requires i <= |s| && Include(s, i).Match?
    ensures i + 8 <= b < p < |s| && At(s, i, INCLUDE) && b == Blanks(s, i + 8) && Is(s, b, '<' as int)
    ensures p == PathEnd(s, b + 1) && Is(s, p, '>' as int)
    ensures Include(s, i) == Match(LineEnd(s, p + 1), [IncludePath(s[b + 1..p])])
  {
    hide At, Blanks, PathEnd, LineEnd;
    b := Blanks(s, i + 8);
    p := PathEnd(s, b + 1);
  }

  lemma WasInclude(s: Text, i: nat) returns (t: Item)
    requires i <= |s| && Include(s, i).Match?
    ensures t.Includes? && WellFormedInclude(t.gap, t.path, t.rest) && At(s, i, ItemText(t))
    ensures Include(s, i) == Match(i + |ItemText(t)|, ItemEvents(t))
    ensures !t.closed ==> i + |ItemText(t)| == |s|
  {
    hide Include, At, Blanks, PathEnd, LineEnd, AllBlank, ItemText;
    var b, p := IncludeCases(s, i);
    BlanksIs(s, i + 8);
    WasPath(s, b + 1);
    var path := s[b + 1..p];
    assert forall k :: 0 <= k < |path| ==> path[k] == s[b + 1 + k];
    var rest, closed := WasLine(s, p + 1);
    t := Includes(s[i + 8..b], s[b + 1..p], rest, closed);
    WasIncludeText(s, i, b, p, t);
  }

  lemma WasIncludeText(s: Text, i: nat, b: nat, p: nat, t: Item)
    requires i + 8 <= b < p < |s| && At(s, i, INCLUDE) && Is(s, b, '<' as int) && Is(s, p, '>' as int)
    requires t.Includes? && t.gap == s[i + 8..b] && t.path == s[b + 1..p] && At(s, p + 1, t.rest + LineBreak(t.closed))
    ensures At(s, i, ItemText(t)) && i + |ItemText(t)| == p + 1 + |t.rest + LineBreak(t.closed)|
  {
    hide At;
    var line := t.rest + LineBreak(t.closed);
    AtCons(s, p, '>' as int, line);
    AtSlice(s, b + 1, p);
    AtJoin(s, b + 1, t.path, ['>' as int] + line);
    AtCons(s, b, '<' as int, t.path + (['>' as int] + line));
    AtSlice(s, i + 8, b);
    AtJoin(s, i + 8, t.gap, ['<' as int] + (t.path + (['>' as int] + line)));
    assert INCLUDE == INCLUDE_TEXT;
    AtJoin(s, i, INCLUDE_TEXT, t.gap + (['<' as int] + (t.path + (['>' as int] + line))));
  }

  // An include that is begun and not finished is nothing else.
  lemma OnlyInclude(s: Text, i: nat)
    requires i <= |s| && Include(s, i).NoMatch? && Include(s, i).fired != []
    ensures Comment(s, i) == i && InterfaceRule(s, i) == NoMatch([]) && i < |s|
  {
    AtFirst(s, i, INCLUDE);
    NoSlash(s, i);
    if At(s, i, KEYWORD) {
      AtFirst(s, i, KEYWORD);
      assert false;
    }
  }

  predicate AllNumbered(items: seq<Item>) {
    forall k :: 0 <= k < |items| && items[k].Interfaces? ==> Numbered(items[k].i.parts)
  }

  // One item of an accepted file.
  lemma WasItem(s: Text, i: nat) returns (t: Item)
    requires i < |s| && Grammar(s, i).Match?
    ensures ItemText(t) != [] && At(s, i, ItemText(t)) && AllNumbered([t])
    ensures var at := i + |ItemText(t)|;
            && at <= |s| && Grammar(s, at).Match? && Grammar(s, i) == After(ItemEvents(t), Grammar(s, at))
            && match t
               case Between(f) => WellFormedFiller(f) && (Dangling(f) ==> at == |s|)
               case Includes(gap, path, rest, closed) => WellFormedInclude(gap, path, rest) && (closed || at == |s|)
               case Interfaces(x) => WellFormedInterface(x) && (at < |s| ==> !WhiteByte(s[at]))
  {
    hide At, IdlGrammar.EmptyLine, Include, Comment, InterfaceRule, WellFormedFiller, FillerText, WellFormedInclude,
      WellFormedInterface, InterfaceText, InterfaceEvents, Numbered;
    if IdlGrammar.EmptyLine(s, i) > i {
      var f := WasBlankLine(s, i);
      t := Between(f);
      SliceAt(s, i, FillerText(f));
    } else if Include(s, i).Match? {
      t := WasInclude(s, i);
      SliceAt(s, i, ItemText(t));
    } else {
      if Include(s, i).fired != [] {
        OnlyInclude(s, i);
        assert false;
      }
      if Comment(s, i) > i {
        var f := WasComment(s, i);
        t := Between(f);
        SliceAt(s, i, FillerText(f));
      } else {
        var x := WasInterface(s, i);
        t := Interfaces(x);
        SliceAt(s, i, InterfaceText(x));
      }
    }
  }

  lemma {:induction false} WasFile(s: Text, i: nat) returns (items: seq<Item>)
    requires i <= |s| && Grammar(s, i).Match?
    ensures WellFormedFile(items) && AllNumbered(items) && At(s, i, FileText(items)) && i + |FileText(items)| == |s|
    ensures i == |s| ==> items == []
    ensures Grammar(s, i) == Match(|s|, FileEvents(items))
    decreases |s| - i
  {
    hide At, Grammar, ItemText, ItemEvents, WellFormedFiller, WellFormedInclude, WellFormedInterface, AllNumbered;
    if i == |s| {
      items := [];
      AtEmpty(s, i);
      NothingLeft(s);
      NoItems();
    } else {
      var t := WasItem(s, i);
      var at := i + |ItemText(t)|;
      var rest := WasFile(s, at);
      items := [t] + rest;
      assert items[1..] == rest;
      AtJoin(s, i, ItemText(t), FileText(rest));
      if FileText(rest) != [] {
        AtFirst(s, at, FileText(rest));
      }
      ItemsNumbered(t, rest);
    }
  }

  lemma NoItems()
    ensures AllNumbered([])
  {
  }

  lemma ItemsNumbered(t: Item, rest: seq<Item>)
    requires AllNumbered([t]) && AllNumbered(rest)
    ensures AllNumbered([t] + rest)
  {
    hide Numbered;
    assert [t][0] == t;
  }

  // The grammar accepts exactly the well-formed files.
  lemma AcceptsExactly(s: Text)
    ensures Parse(s).Match? <==> exists items :: WellFormedFile(items) && FileText(items) == s
  {
    hide Parse, WellFormedFile, FileText;
    if Parse(s).Match? {
      var items := WasWritten(s);
    }
    forall items | WellFormedFile(items) && FileText(items) == s
      ensures Parse(s).Match?
    {
      AcceptsWritten(items);
    }
  }

  lemma WasWritten(s: Text) returns (items: seq<Item>)
    requires Parse(s).Match?
    ensures WellFormedFile(items) && AllNumbered(items) && FileText(items) == s
    ensures Parse(s) == Match(|s|, FileEvents(items))
  {
    hide Grammar, WellFormedFile, FileText, AllNumbered;
    items := WasFile(s, 0);
    SliceAt(s, 0, FileText(items));
    assert s[0..|s|] == s;
  }
}

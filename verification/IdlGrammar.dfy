// The grammar of interface descriptions (IDLGrammar.h) with the usual meaning of a parsing expression
// grammar: ordered choice, greedy repetition, must as a failure of the whole parse; an action fires when its
// rule matches, whether or not the rules around it match afterwards.
module IdlGrammar {
  import opened ByteOrder
  import opened IdlBuilder

  // ----- characters -----

  predicate IsBlank(b: Byte) { b == 32 || b == 9 }
  predicate IsWs(b: Byte) { b == 32 || b == 9 || b == 10 || b == 13 }
  predicate IsIdentFirst(b: Byte) { 65 <= b <= 90 || 97 <= b <= 122 || b == 95 }
  predicate IsIdentOther(b: Byte) { IsIdentFirst(b) || 48 <= b <= 57 }

  // ----- rules without actions: where they end, or no match -----

  function Blanks(s: Text, i: nat): (j: nat)
    requires i <= |s|
    ensures i <= j <= |s|
    decreases |s| - i
  {
    if i < |s| && IsBlank(s[i]) then Blanks(s, i + 1) else i
  }

  function Spaces(s: Text, i: nat): (j: nat)
    requires i <= |s|
    ensures i <= j <= |s|
    decreases |s| - i
  {
    if i < |s| && IsWs(s[i]) then Spaces(s, i + 1) else i
  }

  function Others(s: Text, i: nat): (j: nat)
    requires i <= |s|
    ensures i <= j <= |s|
    decreases |s| - i
  {
    if i < |s| && IsIdentOther(s[i]) then Others(s, i + 1) else i
  }

  // identifier; the result is its end, or i when there is none.
  function Identifier(s: Text, i: nat): (j: nat)
    requires i <= |s|
    ensures i <= j <= |s|
  {
    if i < |s| && IsIdentFirst(s[i]) then Others(s, i + 1) else i
  }

  // A literal at position i?
  predicate At(s: Text, i: nat, lit: Text) {
    i + |lit| <= |s| && s[i..i + |lit|] == lit
  }

  predicate Is(s: Text, i: nat, b: Byte) { i < |s| && s[i] == b }

  // eol, with the length of what it matches
  function Eol(s: Text, i: nat): (n: nat)
    requires i <= |s|
    ensures i + n <= |s|
  {
    if Is(s, i, 10) then 1 else if Is(s, i, 13) && Is(s, i + 1, 10) then 2 else 0
  }

  // until<eolf>
  function LineEnd(s: Text, i: nat): (j: nat)
    requires i <= |s|
    ensures i <= j <= |s|
    decreases |s| - i
  {
    if i == |s| then i else if Eol(s, i) > 0 then i + Eol(s, i) else LineEnd(s, i + 1)
  }

  // until<"*/">; the result is i when there is none.
  function CommentEnd(s: Text, i: nat): (j: nat)
    requires i <= |s|
    ensures i <= j <= |s|
    decreases |s| - i
  {
    if At(s, i, [42, 47]) then i + 2
    else if i == |s| then i
    else
      var j := CommentEnd(s, i + 1);
      if j == i + 1 then i else j
  }

  // empty_line; no match when the result is i.
  function EmptyLine(s: Text, i: nat): (j: nat)
    requires i <= |s|
    ensures i <= j <= |s|
  {
    var k := Blanks(s, i);
    if Eol(s, k) > 0 then k + Eol(s, k) else i
  }

  // comment; no match when the result is i.
  function Comment(s: Text, i: nat): (j: nat)
    requires i <= |s|
    ensures i <= j <= |s|
  {
    var k := Spaces(s, i);
    if At(s, k, [47, 47]) then LineEnd(s, k + 2)
    else if At(s, k, [47, 42]) && CommentEnd(s, k + 2) > k + 2 then CommentEnd(s, k + 2)
    else i
  }

  // ----- rules with actions -----

  // What was fired, and how the rule came out: matched up to a position, did not match and lets another
  // alternative try, or failed the parse.
  datatype Result = Match(at: nat, fired: seq<Event>) | NoMatch(fired: seq<Event>) | Abort(fired: seq<Event>)

  function After(fired: seq<Event>, r: Result): Result {
    match r
    case Match(at, more) => Match(at, fired + more)
    case NoMatch(more) => NoMatch(fired + more)
    case Abort(more) => Abort(fired + more)
  }

  predicate Within(s: Text, i: nat, r: Result) { r.Match? ==> i <= r.at <= |s| }

  function Values(s: Text, i: nat): (j: nat)
    requires i <= |s|
    ensures i <= j <= |s|
    decreases |s| - i
  {
    if i < |s| && IsIdentOther(s[i]) then Values(s, i + 1) else i
  }

  // method_decorator_group
  function DecoratorGroup(s: Text, i: nat): (r: Result)
    requires i <= |s|
    ensures Within(s, i, r) && (r.Match? ==> r.at > i) && !r.Abort?
  {
    if !Is(s, i, 91) then NoMatch([])
    else
      var k := Identifier(s, i + 1);
      if k == i + 1 then NoMatch([])
      else
        var key := [DecoratorKey(s[i + 1..k])];
        var e := Spaces(s, k);
        if !Is(s, e, 61) then NoMatch(key)
        else
          var v := Spaces(s, e + 1);
          var w := Values(s, v);
          var both := key + [DecoratorValue(s[v..w])];
          if Is(s, w, 93) then Match(Blanks(s, w + 1), both + [DecoratorClose]) else NoMatch(both)
  }

  // opt<star<method_decorator_group>>
  function Decorators(s: Text, i: nat): (r: Result)
    requires i <= |s|
    ensures Within(s, i, r) && r.Match?
    decreases |s| - i
  {
    match DecoratorGroup(s, i)
    case Match(at, fired) => After(fired, Decorators(s, at))
    case NoMatch(fired) => Match(i, fired)
    case Abort(fired) => Match(i, fired)
  }

  // method_arg_type
  function TypeRest(s: Text, i: nat): (j: nat)
    requires i <= |s|
    ensures i <= j <= |s|
    decreases |s| - i
  {
    if i < |s| && IsIdentOther(s[i]) then TypeRest(s, i + 1)
    else if At(s, i, [58, 58]) then TypeRest(s, i + 2)
    else i
  }

  // method_arg
  function Arg(s: Text, i: nat): (r: Result)
    requires i <= |s|
    ensures Within(s, i, r) && (r.Match? ==> r.at > i) && !r.Abort?
  {
    var k := Identifier(s, i);
    if k == i then NoMatch([])
    else
      var name := [ArgName(s[i..k])];
      var c := Spaces(s, k);
      if !Is(s, c, 58) then NoMatch(name)
      else
        var t := Spaces(s, c + 1);
        if !(t < |s| && IsIdentFirst(s[t])) then NoMatch(name)
        else
          var e := TypeRest(s, t + 1);
          Match(e, name + [ArgType(s[t..e]), ArgEnd])
  }

  // star<method_next_arg_sep, method_next_arg>
  function NextArgs(s: Text, i: nat): (r: Result)
    requires i <= |s|
    ensures Within(s, i, r) && r.Match?
    decreases |s| - i
  {
    if !Is(s, i, 44) then Match(i, [])
    else
      match Arg(s, Spaces(s, i + 1))
      case Match(at, fired) => After(fired, NextArgs(s, at))
      case NoMatch(fired) => Match(i, fired)
      case Abort(fired) => Match(i, fired)
  }

  // method_args
  function Args(s: Text, i: nat): (r: Result)
    requires i <= |s|
    ensures Within(s, i, r) && r.Match?
  {
    match Arg(s, i)
    case Match(at, fired) => After(fired, NextArgs(s, at))
    case NoMatch(fired) => Match(i, fired)
    case Abort(fired) => Match(i, fired)
  }

  // must<open, method_args, close>
  function ArgsGroup(s: Text, i: nat, open: Event, close: Event): (r: Result)
    requires i <= |s|
    ensures Within(s, i, r) && !r.NoMatch?
  {
    if !Is(s, i, 40) then Abort([])
    else
      var args := Args(s, i + 1);
      var fired := [open] + args.fired;
      if Is(s, args.at, 41) then Match(args.at + 1, fired + [close]) else Abort(fired)
  }

  // method_return_type
  function ReturnType(s: Text, i: nat): (r: Result)
    requires i <= |s|
    ensures Within(s, i, r) && !r.NoMatch?
  {
    if At(s, i, [61, 124]) then Match(i + 2, [AsyncMarker])
    else if !At(s, i, [61, 62]) then Abort([])
    else After([SyncMarker], ArgsGroup(s, Blanks(s, i + 2), ReturnOpen, ReturnClose))
  }

  // method
  function MethodRule(s: Text, i: nat): (r: Result)
    requires i <= |s|
    ensures Within(s, i, r) && (r.Match? ==> r.at > i) && (r.NoMatch? ==> r.fired == [])
  {
    var k := Identifier(s, i);
    if k == i then NoMatch([])
    else
      var d := Decorators(s, Blanks(s, k));
      var head := [MethodName(s[i..k])] + d.fired;
      var args := ArgsGroup(s, Blanks(s, d.at), ArgsOpen, ArgsClose);
      if !args.Match? then Abort(head + args.fired)
      else
        var ret := ReturnType(s, Blanks(s, args.at));
        if !ret.Match? then Abort(head + args.fired + ret.fired)
        else Match(Blanks(s, ret.at), head + args.fired + ret.fired + [MethodEnd])
  }

  // interface_member
  function Member(s: Text, i: nat): (r: Result)
    requires i <= |s|
    ensures Within(s, i, r) && (r.Match? ==> r.at > i) && (r.NoMatch? ==> r.fired == [])
  {
    if EmptyLine(s, i) > i then Match(EmptyLine(s, i), [])
    else if Comment(s, i) > i then Match(Comment(s, i), [])
    else MethodRule(s, Spaces(s, i))
  }

  // interface_content
  function Content(s: Text, i: nat): (r: Result)
    requires i <= |s|
    ensures Within(s, i, r) && !r.NoMatch?
    decreases |s| - i
  {
    match Member(s, i)
    case Match(at, fired) => After(fired, Content(s, at))
    case NoMatch(fired) => Match(i, fired)
    case Abort(fired) => Abort(fired)
  }

  const KEYWORD: Text := [105, 110, 116, 101, 114, 102, 97, 99, 101]

  // interface
  function InterfaceRule(s: Text, i: nat): (r: Result)
    requires i <= |s|
    ensures Within(s, i, r) && (r.Match? ==> r.at > i) && (i == |s| ==> r == NoMatch([]))
  {
    var k := Spaces(s, i);
    if !At(s, k, KEYWORD) then NoMatch([])
    else
      var e := k + |KEYWORD|;
      if e < |s| && IsIdentOther(s[e]) then NoMatch([])
      else
        var n := Spaces(s, e);
        var m := Identifier(s, n);
        if n == e || m == n then NoMatch([])
        else
          var name := [InterfaceName(s[n..m])];
          var b := Spaces(s, m);
          if !Is(s, b, 123) then NoMatch(name)
          else
            var members := Content(s, b + 1);
            var fired := name + members.fired;
            if members.Abort? then Abort(fired)
            else
              var c := Spaces(s, members.at);
              if Is(s, c, 125) then Match(Spaces(s, c + 1), fired + [InterfaceEnd]) else NoMatch(fired)
  }

  // include
  function PathEnd(s: Text, i: nat): (j: nat)
    requires i <= |s|
    ensures i <= j <= |s|
    decreases |s| - i
  {
    if i < |s| && (IsIdentOther(s[i]) || s[i] == 46 || s[i] == 47) then PathEnd(s, i + 1) else i
  }

  const INCLUDE: Text := [35, 105, 110, 99, 108, 117, 100, 101]

  function Include(s: Text, i: nat): (r: Result)
    requires i <= |s|
    ensures Within(s, i, r) && (r.Match? ==> r.at > i) && !r.Abort? && (i == |s| ==> r == NoMatch([]))
  {
    if !At(s, i, INCLUDE) then NoMatch([])
    else
      var b := Blanks(s, i + |INCLUDE|);
      if !Is(s, b, 60) then NoMatch([])
      else
        var p := PathEnd(s, b + 1);
        var path := [IncludePath(s[b + 1..p])];
        if Is(s, p, 62) then Match(LineEnd(s, p + 1), path) else NoMatch(path)
  }

  // star<sor<empty_line, include, comment, interface>>, then eof
  function Grammar(s: Text, i: nat): (r: Result)
    requires i <= |s|
    ensures !r.NoMatch? && (r.Match? ==> r.at == |s|)
    decreases |s| - i
  {
    if EmptyLine(s, i) > i then Grammar(s, EmptyLine(s, i))
    else
      var inc := Include(s, i);
      if inc.Match? then After(inc.fired, Grammar(s, inc.at))
      else if Comment(s, i) > i then After(inc.fired, Grammar(s, Comment(s, i)))
      else
        var r := InterfaceRule(s, i);
        var fired := inc.fired + r.fired;
        if r.Match? then After(fired, Grammar(s, r.at))
        else if r.NoMatch? && i == |s| then Match(i, fired)
        else Abort(fired)
  }

  // A parse of a whole input.
  function Parse(s: Text): (r: Result)
    ensures !r.NoMatch?
  {
    Grammar(s, 0)
  }
}

// Every interface description can be written down: one way to print it, which reads back as itself.
module IdlPrinting {
  import opened ByteOrder
  import opened IdlBuilder
  import IdlGrammar
  import opened IdlSyntax
  import opened IdlReadBack
  import MurmurHash
  import W = WrittenNumbers

  // ----- descriptions that can be written -----

  predicate GoodArgs(args: seq<Argument>) {
    forall i :: 0 <= i < |args| ==> IsName(args[i].name) && IsTypeName(args[i].typeName)
  }

  predicate GoodMethod(m: Method) {
    && IsName(m.name) && m.name[0] != '_' as int && m.identifier < 0x1_0000_0000_0000_0000
    && GoodArgs(m.params) && GoodArgs(m.outs) && (m.isAsync ==> m.outs == [])
  }

  predicate GoodInterface(i: Interface) {
    && IsName(i.name) && (forall k :: 0 <= k < |i.methods| ==> GoodMethod(i.methods[k])) && Distinct(i.methods)
    && i.numCustomTypes == CustomsOf(i.methods)
  }

  // ----- printing -----

  // Decimal digits, behind a zero for octal if the number is zero.
  function NumberText(v: nat): Text {
    if v == 0 then ['0' as int, '0' as int] else Shown(W.Render(v, 10))
  }

  function Digit(d: nat): Byte { if d < 10 then '0' as int + d else '0' as int }

  function Shown(digits: seq<nat>): (t: Text)
    ensures |t| == |digits| && forall i :: 0 <= i < |t| ==> t[i] == Digit(digits[i])
  {
    seq(|digits|, i requires 0 <= i < |digits| => Digit(digits[i]))
  }

  function PrintArgs(args: seq<Argument>): (r: seq<ArgSyntax>)
    ensures |r| == |args|
  {
    seq(|args|, i requires 0 <= i < |args| => ArgSyntax([], args[i].name, [], [], args[i].typeName))
  }

  function PrintMethod(m: Method): MethodSyntax {
    MethodSyntax(m.name, [], [Decorator(IDENTIFIER_KEY, [], [], NumberText(m.identifier), [])], PrintArgs(m.params), [],
                 if m.isAsync then NoReply else Answer([], PrintArgs(m.outs)), [], m.identifier)
  }

  // One method a line.
  function PrintMethods(ms: seq<Method>): seq<Part> {
    if ms == [] then []
    else [Declares([], PrintMethod(ms[0])), Filling(BlankLine([], false))] + PrintMethods(ms[1..])
  }

  function PrintInterface(i: Interface): InterfaceSyntax {
    InterfaceSyntax([], [' ' as int], i.name, [], PrintMethods(i.methods), [], [])
  }

  function Print(d: seq<Interface>): seq<Item> {
    if d == [] then []
    else [Interfaces(PrintInterface(d[0]))] + Print(d[1..])
  }

  // ----- what is printed is well formed and stands for the description -----

  lemma ShownSpells(digits: seq<nat>)
    requires forall d :: d in digits ==> d < 10
    ensures W.Spells(Shown(digits), digits, 10) && AllWord(Shown(digits))
  {
    forall i | 0 <= i < |digits|
      ensures digits[i] < 10 && W.Denotes(Shown(digits)[i], digits[i]) && WordByte(Shown(digits)[i])
    {
      assert digits[i] in digits;
    }
  }

  lemma NumberTextIs(v: nat)
    requires v < 0x1_0000_0000_0000_0000
    ensures Numeral(NumberText(v), v) && AllWord(NumberText(v)) && NumberText(v) != []
  {
    W.NulStops(10);
    if v == 0 {
      ZeroIs();
    } else {
      var digits := W.Render(v, 10);
      ShownSpells(digits);
      var chars := Shown(digits);
      W.RenderingFits(v, 10, 0, [], [], [], chars);
      W.RenderingText(v, 10, [], [], [], chars);
      var w := W.Rendering(v, 10, [], [], [], chars);
      assert [] + [] + [] + chars + [0] == chars + [0];
      hide W.Render, W.Spells, W.BaseFor, W.Text, W.Denotes;
      assert NumeralAs(chars, v, w);
    }
  }

  lemma ZeroIs()
    ensures Numeral(['0' as int, '0' as int], 0)
  {
    var chars: Text := ['0' as int];
    W.NulStops(8);
    assert W.Render(0, 8) == [0];
    assert W.Spells(chars, [0], 8);
    W.RenderingFits(0, 8, 0, [], [], ['0' as int], chars);
    W.RenderingText(0, 8, [], [], ['0' as int], chars);
    W.LeadingZero([0], 8);
    var w := W.Rendering(0, 8, [], [], ['0' as int], chars);
    assert [] + [] + ['0' as int] + chars + [0] == ['0' as int, '0' as int] + [0];
    hide W.Spells, W.BaseFor, W.Text, W.Denotes;
    assert NumeralAs(['0' as int, '0' as int], 0, w);
  }

  lemma ArgsPrinted(args: seq<Argument>)
    requires GoodArgs(args)
    ensures ValidArgs(PrintArgs(args)) && Arguments(PrintArgs(args)) == args
  {
    hide IsName, IsTypeName;
  }

  lemma IdentifierPrinted(name: Text, id: nat)
    requires id < 0x1_0000_0000_0000_0000
    ensures var ds := [Decorator(IDENTIFIER_KEY, [], [], NumberText(id), [])];
            SoundDecorators(ds) && WellFormedDecorator(ds[0]) && Identifies(ds, name, id)
  {
    hide Numeral, NumberText, MurmurHash.Hash;
    NumberTextIs(id);
    var ds := [Decorator(IDENTIFIER_KEY, [], [], NumberText(id), [])];
    assert IsName(IDENTIFIER_KEY);
    assert ds[0].key == IDENTIFIER_KEY;
  }

  lemma MethodPrinted(m: Method)
    requires GoodMethod(m)
    ensures WellFormedMethod(PrintMethod(m)) && SoundMethod(PrintMethod(m)) && MethodOf(PrintMethod(m)) == m
  {
    hide GoodArgs, PrintArgs, ValidArgs, NumberText, Identifies, WellFormedDecorator, SoundDecorators, AllBlank;
    ArgsPrinted(m.params);
    ArgsPrinted(m.outs);
    IdentifierPrinted(m.name, m.identifier);
    NoBlank();
  }

  lemma NoBlank()
    ensures AllBlank([])
  {
  }

  lemma {:induction false} MethodsPrinted(ms: seq<Method>, rest: Text)
    requires forall k :: 0 <= k < |ms| ==> GoodMethod(ms[k])
    ensures WellFormedParts(PrintMethods(ms), rest) && SoundParts(PrintMethods(ms)) && MethodsOf(PrintMethods(ms)) == ms
  {
    hide GoodMethod, WellFormedMethod, SoundMethod, MethodOf, MethodText;
    if ms == [] {
    } else {
      MethodPrinted(ms[0]);
      MethodsPrinted(ms[1..], rest);
      var parts, more := PrintMethods(ms), PrintMethods(ms[1..]);
      assert parts[1..] == [Filling(BlankLine([], false))] + more && parts[1..][1..] == more;
    }
  }

  lemma {:induction false} Printed(d: seq<Interface>)
    requires forall k :: 0 <= k < |d| ==> GoodInterface(d[k])
    ensures WellFormedFile(Print(d)) && SoundFile(Print(d)) && Description(Print(d)) == d && Paths(Print(d)) == []
    ensures FileText(Print(d)) != [] ==> FileText(Print(d))[0] == 'i' as int
  {
    hide GoodMethod, PrintMethods, WellFormedParts, SoundParts, CustomsOf, PartsText;
    if d == [] {
    } else {
      Printed(d[1..]);
      var items, x := Print(d), Print(d)[0].i;
      MethodsPrinted(d[0].methods, ClosingText(x));
      assert items[1..] == Print(d[1..]);
    }
  }

  // Every description is read back from its printed form, exactly.
  lemma EveryDescriptionReadsBack(d: seq<Interface>)
    requires forall k :: 0 <= k < |d| ==> GoodInterface(d[k])
    ensures var r := IdlGrammar.Parse(FileText(Print(d)));
            && r.Match?
            && var o := Run(Fresh(), r.fired);
               o.Built? && o.s.done == d && o.s.includes == [] && o.s.current == None
  {
    hide GoodInterface, Print, IdlGrammar.Parse, WellFormedFile, SoundFile, FileText, Run;
    Printed(d);
    ReadsBack(Print(d));
  }
}

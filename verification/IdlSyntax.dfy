// Interface descriptions as they are written: the pieces of a source text with the white space between them, the
// text they make up, and the description that text stands for.
module IdlSyntax {
  import opened ByteOrder
  import opened IdlBuilder
  import MurmurHash
  import WrittenNumbers

  // ----- words -----

  predicate BlankByte(b: Byte) { b == ' ' as int || b == '\t' as int }
  predicate WhiteByte(b: Byte) { BlankByte(b) || b == '\n' as int || b == '\r' as int }
  predicate Letter(b: Byte) {
    'A' as int <= b <= 'Z' as int || 'a' as int <= b <= 'z' as int || b == '_' as int
  }
  predicate WordByte(b: Byte) { Letter(b) || '0' as int <= b <= '9' as int }

  predicate AllBlank(t: Text) { forall i :: 0 <= i < |t| ==> BlankByte(t[i]) }
  predicate AllWhite(t: Text) { forall i :: 0 <= i < |t| ==> WhiteByte(t[i]) }
  predicate AllWord(t: Text) { forall i :: 0 <= i < |t| ==> WordByte(t[i]) }
  predicate IsName(t: Text) { t != [] && Letter(t[0]) && AllWord(t) }

  // Words with pairs of colons anywhere between them.
  predicate TypeTail(t: Text)
    decreases |t|
  {
    if t == [] then true
    else if WordByte(t[0]) then TypeTail(t[1..])
    else |t| >= 2 && t[0] == ':' as int && t[1] == ':' as int && TypeTail(t[2..])
  }

  predicate IsTypeName(t: Text) { t != [] && Letter(t[0]) && TypeTail(t[1..]) }

  // ----- arguments -----

  // name : type, behind the white space that follows the comma before it
  datatype ArgSyntax = ArgSyntax(lead: Text, name: Text, before: Text, after: Text, typeName: Text)

  predicate ValidArg(a: ArgSyntax) {
    AllWhite(a.lead) && IsName(a.name) && AllWhite(a.before) && AllWhite(a.after) && IsTypeName(a.typeName)
  }

  function ArgText(a: ArgSyntax): Text { a.name + (a.before + ([':' as int] + (a.after + a.typeName))) }

  function NextArgsText(args: seq<ArgSyntax>): Text {
    if args == [] then [] else [',' as int] + (args[0].lead + (ArgText(args[0]) + NextArgsText(args[1..])))
  }

  function ArgsText(args: seq<ArgSyntax>): Text {
    if args == [] then [] else ArgText(args[0]) + NextArgsText(args[1..])
  }

  function GroupText(args: seq<ArgSyntax>): Text { ['(' as int] + (ArgsText(args) + [')' as int]) }

  predicate ValidArgs(args: seq<ArgSyntax>) { forall i :: 0 <= i < |args| ==> ValidArg(args[i]) }

  function Arguments(args: seq<ArgSyntax>): (r: seq<Argument>)
    ensures |r| == |args| && forall i :: 0 <= i < |r| ==> r[i] == Argument(args[i].name, args[i].typeName)
  {
    seq(|args|, i requires 0 <= i < |args| => Argument(args[i].name, args[i].typeName))
  }

  // ----- decorators -----

  // [ key = value ]
  datatype Decorator = Decorator(key: Text, before: Text, after: Text, value: Text, trail: Text)

  predicate WellFormedDecorator(d: Decorator) {
    IsName(d.key) && AllWhite(d.before) && AllWhite(d.after) && AllWord(d.value) && AllBlank(d.trail)
  }

  function DecoratorText(d: Decorator): Text {
    ['[' as int] + (d.key + (d.before + (['=' as int] + (d.after + (d.value + ([']' as int] + d.trail))))))
  }

  function DecoratorsText(ds: seq<Decorator>): Text {
    if ds == [] then [] else DecoratorText(ds[0]) + DecoratorsText(ds[1..])
  }

  // No value is empty, and every key is there at most once.
  predicate SoundDecorators(ds: seq<Decorator>) {
    && (forall i :: 0 <= i < |ds| ==> ds[i].value != [])
    && (forall i, j :: 0 <= i < j < |ds| ==> ds[i].key != ds[j].key)
  }

  const IDENTIFIER_KEY: Text := ['i' as int, 'd' as int, 'e' as int, 'n' as int, 't' as int, 'i' as int, 'f' as int,
                                 'i' as int, 'e' as int, 'r' as int]

  // The text is a number below 2^64, in octal behind a zero, hexadecimal behind 0x, else decimal.
  ghost predicate Numeral(t: Text, n: nat) {
    exists w: WrittenNumbers.Written :: NumeralAs(t, n, w)
  }

  ghost predicate NumeralAs(t: Text, n: nat, w: WrittenNumbers.Written) {
    && WrittenNumbers.IsWritten(w, 0) && WrittenNumbers.Text(w) == t + [0] && w.digits != []
    && n == WrittenNumbers.Number(w.digits, w.base) && n < 0x1_0000_0000_0000_0000
  }

  // The identifier a decorator gives, else the hash of the method's name.
  ghost predicate Identifies(ds: seq<Decorator>, name: Text, id: nat) {
    && (forall i :: 0 <= i < |ds| && ds[i].key == IDENTIFIER_KEY ==> Numeral(ds[i].value, id))
    && ((forall i :: 0 <= i < |ds| ==> ds[i].key != IDENTIFIER_KEY) ==>
          id == MurmurHash.Hash(name, 0xB64C_6EF1_0B0E_96F9))
  }

  // ----- methods -----

  // =| for a method without an answer, => and a list for one with an answer
  datatype Reply = NoReply | Answer(gap: Text, outs: seq<ArgSyntax>)

  // name decorators ( parameters ) reply; id is the identifier it ends up with
  datatype MethodSyntax = MethodSyntax(name: Text, gap: Text, decorators: seq<Decorator>, params: seq<ArgSyntax>,
                                       between: Text, reply: Reply, trail: Text, id: nat)

  predicate ValidReply(r: Reply) { r.Answer? ==> AllBlank(r.gap) && ValidArgs(r.outs) }

  predicate WellFormedMethod(m: MethodSyntax) {
    && IsName(m.name) && AllBlank(m.gap) && (forall k :: 0 <= k < |m.decorators| ==>
         WellFormedDecorator(m.decorators[k]))
    && ValidArgs(m.params) && AllBlank(m.between) && ValidReply(m.reply) && AllBlank(m.trail)
  }

  // What the builder asks of a method besides its form.
  ghost predicate SoundMethod(m: MethodSyntax) {
    && m.name != [] && m.name[0] != '_' as int
    && SoundDecorators(m.decorators) && Identifies(m.decorators, m.name, m.id)
  }

  function ReplyText(r: Reply): Text {
    match r
    case NoReply => ['=' as int, '|' as int]
    case Answer(gap, outs) => ['=' as int, '>' as int] + (gap + GroupText(outs))
  }

  function MethodText(m: MethodSyntax): Text {
    m.name + (m.gap + (DecoratorsText(m.decorators) + (GroupText(m.params)
    + (m.between + (ReplyText(m.reply) + m.trail)))))
  }

  function MethodOf(m: MethodSyntax): Method {
    Method(m.name, m.reply.NoReply?, m.id, Arguments(m.params),
           if m.reply.Answer? then Arguments(m.reply.outs) else [])
  }

  // ----- what stands between methods -----

  // White space in front of something on a line, not starting with an empty line.
  predicate Lead(t: Text) {
    var k := LeadingBlanks(t);
    && AllWhite(t) && !(k < |t| && t[k] == '\n' as int)
    && !(k + 1 < |t| && t[k] == '\r' as int && t[k + 1] == '\n' as int)
  }

  function LeadingBlanks(t: Text): (k: nat)
    ensures k <= |t| && AllBlank(t[..k]) && (k < |t| ==> !BlankByte(t[k]))
  {
    if t == [] || !BlankByte(t[0]) then 0
    else
      var k := LeadingBlanks(t[1..]);
      assert t[..k + 1] == [t[0]] + t[1..][..k];
      k + 1
  }

  // A line with nothing on it, a comment up to the end of the line (or of the file), and one between marks.
  datatype Filler = BlankLine(blanks: Text, cr: bool) | LineComment(lead: Text, text: Text, closed: bool)
                  | BlockComment(lead: Text, text: Text)

  // No end of the comment inside it.
  predicate Unclosed(t: Text) {
    forall i :: 0 <= i < |t| ==> !(t[i] == '*' as int && (t + ['*' as int, '/' as int])[i + 1] == '/' as int)
  }

  predicate WellFormedFiller(f: Filler) {
    match f
    case BlankLine(blanks, _) => AllBlank(blanks)
    case LineComment(lead, text, _) => Lead(lead) && '\n' as int !in text
    case BlockComment(lead, text) => Lead(lead) && Unclosed(text)
  }

  function LineBreak(closed: bool): Text { if closed then ['\n' as int] else [] }

  function FillerText(f: Filler): (t: Text)
    ensures t != []
  {
    match f
    case BlankLine(blanks, cr) => blanks + (if cr then ['\r' as int, '\n' as int] else ['\n' as int])
    case LineComment(lead, text, closed) => lead + (['/' as int, '/' as int] + (text + LineBreak(closed)))
    case BlockComment(lead, text) => lead + (['/' as int, '*' as int] + (text + ['*' as int, '/' as int]))
  }

  // A comment the end of the file ends.
  predicate Dangling(f: Filler) { f.LineComment? && !f.closed }

  // ----- interfaces -----

  datatype Part = Filling(f: Filler) | Declares(lead: Text, m: MethodSyntax)

  function PartText(b: Part): Text {
    match b
    case Filling(f) => FillerText(f)
    case Declares(lead, m) => lead + MethodText(m)
  }

  function PartsText(parts: seq<Part>): Text {
    if parts == [] then [] else PartText(parts[0]) + PartsText(parts[1..])
  }

  // interface name { parts }
  datatype InterfaceSyntax = InterfaceSyntax(lead: Text, gap: Text, name: Text, before: Text, parts: seq<Part>,
                                             last: Text, trail: Text)

  const KEYWORD_TEXT: Text := ['i' as int, 'n' as int, 't' as int, 'e' as int, 'r' as int, 'f' as int, 'a' as int,
                               'c' as int, 'e' as int]

  function ClosingText(i: InterfaceSyntax): Text { i.last + ['}' as int] }

  function InterfaceText(i: InterfaceSyntax): Text {
    i.lead + (KEYWORD_TEXT + (i.gap + (i.name + (i.before + (['{' as int] + (PartsText(i.parts)
    + (i.last + (['}' as int] + i.trail))))))))
  }

  // A method takes all the blanks behind it, so the next thing does not start with one.
  predicate WellFormedParts(parts: seq<Part>, rest: Text) {
    parts != [] ==>
      && (match parts[0]
          case Filling(f) => WellFormedFiller(f) && !Dangling(f)
          case Declares(lead, m) =>
            && Lead(lead) && WellFormedMethod(m)
            && var next := PartsText(parts[1..]) + rest; next != [] ==> !BlankByte(next[0]))
      && WellFormedParts(parts[1..], rest)
  }

  predicate WellFormedInterface(i: InterfaceSyntax) {
    && Lead(i.lead) && AllWhite(i.gap) && i.gap != [] && IsName(i.name) && AllWhite(i.before) && Lead(i.last)
    && AllWhite(i.trail) && WellFormedParts(i.parts, ClosingText(i))
  }

  function MethodsOf(parts: seq<Part>): seq<Method> {
    if parts == [] then []
    else (if parts[0].Declares? then [MethodOf(parts[0].m)] else []) + MethodsOf(parts[1..])
  }

  // Its methods have different names.
  predicate Distinct(ms: seq<Method>) {
    forall j, k :: 0 <= j < k < |ms| ==> ms[j].name != ms[k].name
  }

  ghost predicate SoundParts(parts: seq<Part>) {
    forall k :: 0 <= k < |parts| && parts[k].Declares? ==> SoundMethod(parts[k].m)
  }

  ghost predicate SoundInterface(i: InterfaceSyntax) {
    SoundParts(i.parts) && Distinct(MethodsOf(i.parts))
  }

  // The names of builtin types, in any mixture of upper and lower case.
  const BUILTINS: seq<string> := ["bool", "int8", "int16", "int32", "int64", "uint8", "uint16", "uint32", "uint64",
                                  "float32", "float64", "string", "blob"]

  predicate SameLetters(t: Text, name: string) {
    && |t| == |name|
    && forall i :: 0 <= i < |t| ==>
         t[i] == name[i] as int || (name[i] >= 'a' && t[i] == name[i] as int - 32)
  }

  predicate Builtin(t: Text) { exists k :: 0 <= k < |BUILTINS| && SameLetters(t, BUILTINS[k]) }

  // How many arguments are of types that are not built in.
  function CustomArgs(args: seq<Argument>): nat {
    if args == [] then 0 else (if Builtin(args[0].typeName) then 0 else 1) + CustomArgs(args[1..])
  }

  function CustomsOf(ms: seq<Method>): nat {
    if ms == [] then 0 else CustomArgs(ms[0].params) + CustomArgs(ms[0].outs) + CustomsOf(ms[1..])
  }

  function InterfaceOf(i: InterfaceSyntax): Interface {
    var ms := MethodsOf(i.parts);
    Interface(i.name, ms, CustomsOf(ms))
  }

  // ----- files -----

  // #include <path> and the rest of its line
  datatype Item = Between(f: Filler) | Includes(gap: Text, path: Text, rest: Text, closed: bool)
                | Interfaces(i: InterfaceSyntax)

  const INCLUDE_TEXT: Text := ['#' as int, 'i' as int, 'n' as int, 'c' as int, 'l' as int, 'u' as int, 'd' as int,
                               'e' as int]

  predicate PathByte(b: Byte) { WordByte(b) || b == '.' as int || b == '/' as int }

  function ItemText(t: Item): Text {
    match t
    case Between(f) => FillerText(f)
    case Includes(gap, path, rest, closed) =>
      INCLUDE_TEXT + (gap + (['<' as int] + (path + (['>' as int] + (rest + LineBreak(closed))))))
    case Interfaces(i) => InterfaceText(i)
  }

  function FileText(items: seq<Item>): Text {
    if items == [] then [] else ItemText(items[0]) + FileText(items[1..])
  }

  predicate WellFormedInclude(gap: Text, path: Text, rest: Text) {
    AllBlank(gap) && (forall i :: 0 <= i < |path| ==> PathByte(path[i])) && '\n' as int !in rest
  }

  // An interface takes all the white space behind it; only the last line may go without a line break.
  predicate WellFormedFile(items: seq<Item>) {
    items != [] ==>
      && (match items[0]
          case Between(f) => WellFormedFiller(f) && (Dangling(f) ==> items[1..] == [])
          case Includes(gap, path, rest, closed) => WellFormedInclude(gap, path, rest) && (closed || items[1..] == [])
          case Interfaces(i) =>
            && WellFormedInterface(i)
            && var next := FileText(items[1..]); next != [] ==> !WhiteByte(next[0]))
      && WellFormedFile(items[1..])
  }

  ghost predicate SoundFile(items: seq<Item>) {
    forall k :: 0 <= k < |items| && items[k].Interfaces? ==> SoundInterface(items[k].i)
  }

  // The description a file stands for.
  function Description(items: seq<Item>): seq<Interface> {
    if items == [] then []
    else (if items[0].Interfaces? then [InterfaceOf(items[0].i)] else []) + Description(items[1..])
  }

  function Paths(items: seq<Item>): seq<Text> {
    if items == [] then []
    else (if items[0].Includes? then [items[0].path] else []) + Paths(items[1..])
  }
}

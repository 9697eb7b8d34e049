/**
 The nesting state of cpplint as a value: the stack of open blocks and the stack of
 preprocessor conditionals, updated line by line.
 */
module Nesting {
  import opened BracketText
  import opened Common
  import opened TemplateArguments

  datatype Asm = NoAsm | InsideAsm | EndAsm | BlockAsm

  datatype Kind = PlainBlock | ExternC | Class(className: string, isStruct: bool) | Namespace(name: string)

  /** A block, with the fields that later lines change. */
  datatype Info = Info(kind: Kind, start: nat, seenOpenBrace: bool, openParens: int, asm: Asm,
                       access: string, isDerived: bool)

  /** The checkpoints of one open conditional. */
  datatype Conditional = Conditional(beforeIf: seq<Info>, beforeElse: seq<Info>, seenElse: bool)

  datatype State = State(stack: seq<Info>, conditionals: seq<Conditional>)

  datatype Directive = If | Else | Endif | Other

  /** The first '{', ';', ')' or '}' of what is left of a line, and the next one after it. */
  datatype Token = OpenBrace(isExternC: bool, isAsm: bool) | SemiOrParen | CloseBrace

  /** What is left of a line after its declarations. */
  datatype Tail = Tail(access: Option<string>, tokens: seq<Token>)

  datatype NamespaceDecl = NamespaceDecl(name: string, hasBrace: bool)

  /** A class head that ends at the given position. */
  datatype ClassDecl = ClassDecl(name: string, isStruct: bool, end: nat, tail: Tail)

  /** A line with its number and with what the declaration patterns found in it. */
  datatype Line = Line(num: nat, text: string, startsAsm: bool, namespaces: seq<NamespaceDecl>,
                       classDecl: Option<ClassDecl>, tail: Tail)

  // ------------------------------------------------------------- the text of a line

  function FirstWord(s: string): string {
    if s != [] && IsWord(s[0]) then [s[0]] + FirstWord(s[1..]) else []
  }

  /** The directive of a line: spaces, '#', spaces and a whole word. */
  function Classify(text: string): Directive {
    var s := TrimLeft(text);
    if s == [] || s[0] != '#' then Other
    else
      var word := FirstWord(TrimLeft(s[1..]));
      if word == "if" || word == "ifdef" || word == "ifndef" then If
      else if word == "else" || word == "elif" then Else
      else if word == "endif" then Endif
      else Other
  }

  function Count(s: string, c: char): nat {
    if s == [] then 0 else (if s[0] == c then 1 else 0) + Count(s[1..], c)
  }

  /** A ':' with no ':' beside it. */
  predicate HasBareColon(s: string) {
    exists i :: 0 <= i < |s| && s[i] == ':' && (i == 0 || s[i - 1] != ':') && (i == |s| - 1 || s[i + 1] != ':')
  }

  // ------------------------------------------------------------- one line

  function SetLast<T>(s: seq<T>, x: T): seq<T>
    requires s != []
  {
    s[|s| - 1 := x]
  }

  function NewBlock(kind: Kind, num: nat, seen: bool): Info {
    Info(kind, num, seen, 0, NoAsm,
         if kind.Class? then (if kind.isStruct then "public" else "private") else "", false)
  }

  /** UpdatePreprocessor. */
  function Preprocess(s: State, d: Directive): State {
    match d
    case If =>
      s.(conditionals := s.conditionals + [Conditional(s.stack, [], false)])
    case Else =>
      if s.conditionals == [] then s
      else
        var c := Last(s.conditionals);
        State(c.beforeIf,
              SetLast(s.conditionals, if c.seenElse then c else c.(beforeElse := s.stack, seenElse := true)))
    case Endif =>
      if s.conditionals == [] then s
      else
        var c := Last(s.conditionals);
        State(if c.seenElse then c.beforeElse else s.stack, Front(s.conditionals))
    case Other => s
  }

  /** The parenthesis count and the inline assembly state of the innermost block. */
  function CountParens(b: Info, depthChange: int, startsAsm: bool): Info {
    var open := b.openParens + depthChange;
    b.(openParens := open,
       asm := if b.asm == NoAsm || b.asm == EndAsm then
                if depthChange != 0 && open == 1 && startsAsm then InsideAsm else NoAsm
              else if b.asm == InsideAsm && open == 0 then EndAsm
              else b.asm)
  }

  function AfterParens(stack: seq<Info>, line: Line): seq<Info> {
    if stack == [] then stack
    else SetLast(stack, CountParens(Last(stack), Count(line.text, '(') - Count(line.text, ')'), line.startsAsm))
  }

  function AfterNamespaces(stack: seq<Info>, num: nat, decls: seq<NamespaceDecl>): seq<Info>
    decreases |decls|
  {
    if decls == [] then stack
    else AfterNamespaces(stack + [NewBlock(Namespace(decls[0].name), num, decls[0].hasBrace)], num, decls[1..])
  }

  /** The line has a class head where the stack allows one. */
  predicate SeesClass(stack: seq<Info>, line: Line) {
    line.classDecl.Some? && (stack == [] || Last(stack).openParens == 0)
  }

  /** isArgument is the verdict of the look-ahead from the class head. */
  predicate AcceptsClass(stack: seq<Info>, line: Line, isArgument: bool) {
    SeesClass(stack, line) && !isArgument
  }

  function AfterClass(stack: seq<Info>, line: Line, isArgument: bool): seq<Info> {
    if AcceptsClass(stack, line, isArgument) then
      var d := line.classDecl.value;
      stack + [NewBlock(Class(d.name, d.isStruct), line.num, false)]
    else stack
  }

  function TailOf(stack: seq<Info>, line: Line, isArgument: bool): Tail {
    if AcceptsClass(stack, line, isArgument) then line.classDecl.value.tail else line.tail
  }

  predicate SeenOpenBrace(stack: seq<Info>) {
    stack == [] || Last(stack).seenOpenBrace
  }

  function AfterCheckBegin(stack: seq<Info>, line: Line): seq<Info> {
    if !SeenOpenBrace(stack) && Last(stack).kind.Class? && HasBareColon(line.text) then
      SetLast(stack, Last(stack).(isDerived := true))
    else stack
  }

  function AfterAccess(stack: seq<Info>, tail: Tail): seq<Info> {
    if stack != [] && Last(stack).kind.Class? && tail.access.Some? then
      SetLast(stack, Last(stack).(access := tail.access.value))
    else stack
  }

  function AfterToken(stack: seq<Info>, num: nat, t: Token): seq<Info> {
    match t
    case OpenBrace(isExternC, isAsm) =>
      if !SeenOpenBrace(stack) then SetLast(stack, Last(stack).(seenOpenBrace := true))
      else if isExternC then stack + [NewBlock(ExternC, num, true)]
      else
        var b := NewBlock(PlainBlock, num, true);
        stack + [if isAsm then b.(asm := BlockAsm) else b]
    case SemiOrParen =>
      if !SeenOpenBrace(stack) then Front(stack) else stack
    case CloseBrace =>
      if stack != [] then Front(stack) else stack
  }

  function AfterTokens(stack: seq<Info>, num: nat, tokens: seq<Token>): seq<Info>
    decreases |tokens|
  {
    if tokens == [] then stack else AfterTokens(AfterToken(stack, num, tokens[0]), num, tokens[1..])
  }

  /** The stack when the class head of a line is looked for. */
  function BeforeClass(stack: seq<Info>, line: Line): seq<Info> {
    AfterNamespaces(AfterParens(stack, line), line.num, line.namespaces)
  }

  /** All that Update does to the stack after UpdatePreprocessor. */
  function UpdateStack(stack: seq<Info>, line: Line, isArgument: bool): seq<Info> {
    var s := BeforeClass(stack, line);
    var tail := TailOf(s, line, isArgument);
    AfterTokens(AfterAccess(AfterCheckBegin(AfterClass(s, line, isArgument), line), tail), line.num, tail.tokens)
  }

  function Update(s: State, line: Line, isArgument: bool): State {
    var s' := Preprocess(s, Classify(line.text));
    s'.(stack := UpdateStack(s'.stack, line, isArgument))
  }

  // ------------------------------------------------------------- a whole file

  function Texts(file: seq<Line>): (r: seq<string>)
    ensures |r| == |file| && forall i :: 0 <= i < |file| ==> r[i] == file[i].text
  {
    seq(|file|, i requires 0 <= i < |file| => file[i].text)
  }

  /** The verdict of the look-ahead from the class head of line n. */
  predicate IsArgument(file: seq<Line>, n: nat)
    requires n < |file|
  {
    file[n].classDecl.Some? && InTemplate(Texts(file), n, file[n].classDecl.value.end)
  }

  /** The state after the first n lines of a file. */
  function Reading(file: seq<Line>, n: nat): State
    requires n <= |file|
  {
    if n == 0 then State([], [])
    else Update(Reading(file, n - 1), file[n - 1], IsArgument(file, n - 1))
  }

  lemma NextReading(file: seq<Line>, n: nat)
    requires n < |file|
    ensures Reading(file, n + 1) == Update(Reading(file, n), file[n], IsArgument(file, n))
  {
  }
}

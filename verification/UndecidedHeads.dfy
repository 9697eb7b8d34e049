/**
 Where else-branches are not erased: a look-ahead that is undecided when it comes to an else-branch
 takes its verdict from there.
 */
module UndecidedHeads {
  import BracketText
  import opened Common
  import opened ElseBranches
  import opened Erasing
  import opened LookAhead
  import opened Nesting
  import opened TemplateArguments

  /** A line in which no declaration is found. */
  function BareLine(num: nat, text: string, tokens: seq<Token>): Line {
    Line(num, text, false, [], None, Tail(None, tokens))
  }

  // ------------------------------------------------------------- the verdict of one head

  lemma WordAt(s: string, n: nat)
    requires n <= |s| && (forall i :: 0 <= i < n ==> BracketText.IsWord(s[i]))
    requires n < |s| ==> !BracketText.IsWord(s[n])
    ensures FirstWord(s) == s[..n]
  {
    if n > 0 {
      WordAt(s[1..], n - 1);
    }
  }

  /** The word of a directive that ends its line. */
  lemma DirectiveWord(text: string, word: string)
    requires text == ['#'] + word && word != [] && forall c :: c in word ==> BracketText.IsWord(c)
    ensures text[0] == '#' && BracketText.TrimLeft(text) == text && FirstWord(BracketText.TrimLeft(text[1..])) == word
  {
    assert text[1..] == word && BracketText.IsWord(word[0]);
    WordAt(word, |word|);
    assert word[..|word|] == word;
  }

  lemma ElseText()
    ensures Classify("#else") == Else
  {
    DirectiveWord("#else", "else");
  }

  /** lines with a second else-branch, of one line, in front of the first. */
  function WithBranch(flags: seq<bool>, lines: seq<Line>, num: nat, text: string): seq<Line> {
    var w := Window(flags, lines);
    WindowIs(flags, lines);
    w + ([BareLine(num, "#else", []), BareLine(num, text, [])] + lines[|w|..])
  }

  lemma OutlineErasedFirst(flags: seq<bool>, line: Line, rest: seq<Line>)
    requires true in Flags(flags, Classify(line.text))
    ensures Outline(flags, [line] + rest) == Outline(Flags(flags, Classify(line.text)), rest)
  {
    assert ([line] + rest)[1..] == rest;
  }

  /** One more else-branch in front of an else-branch leaves nothing else to see. */
  lemma BranchBefore(open: seq<bool>, rest: seq<Line>, first: Line, second: Line)
    requires true !in open && StartsErased(open, rest)
    requires Classify(first.text) == Else && Classify(second.text) == Other
    ensures StartsErased(open, [first, second] + rest)
    ensures Outline(open, [first, second] + rest) == Outline(open, rest)
  {
    var past := SetLast(open, true);
    assert Classify(rest[0].text) == Else && past[|past| - 1];
    assert Flags(past, Else) == past == Flags(open, Else);
    assert Outline(past, rest) == Outline(open, rest);
    OutlineErasedFirst(past, second, rest);
    OutlineErasedFirst(open, first, [second] + rest);
    assert [first, second] + rest == [first] + ([second] + rest);
  }

  lemma {:induction false} OutlineWithWindow(flags: seq<bool>, w: seq<Line>, x: seq<Line>, y: seq<Line>)
    requires StartsErased(FlagsAfter(flags, w), x) && StartsErased(FlagsAfter(flags, w), y)
    requires Outline(FlagsAfter(flags, w), x) == Outline(FlagsAfter(flags, w), y)
    ensures Outline(flags, w + x) == Outline(flags, w + y)
    decreases |w|
  {
    if w == [] {
      assert w + x == x && w + y == y;
    } else {
      FirstOfBoth(w, x);
      FirstOfBoth(w, y);
      var flags' := Flags(flags, Classify(w[0].text));
      OutlineWithWindow(flags', w[1..], x, y);
      OutlineFirstKept(flags, w[0], w[1..], x, y);
    }
  }

  lemma OutlineFirstKept(flags: seq<bool>, line: Line, w: seq<Line>, x: seq<Line>, y: seq<Line>)
    requires var flags' := Flags(flags, Classify(line.text));
             && StartsErased(FlagsAfter(flags', w), x) && StartsErased(FlagsAfter(flags', w), y)
             && Outline(flags', w + x) == Outline(flags', w + y)
    ensures Outline(flags, [line] + (w + x)) == Outline(flags, [line] + (w + y))
  {
    assert ([line] + (w + x))[1..] == w + x && ([line] + (w + y))[1..] == w + y;
    if w == [] {
      assert w + x == x && w + y == y;
    }
  }

  lemma BranchIsErased(flags: seq<bool>, lines: seq<Line>, num: nat, text: string)
    requires Window(flags, lines) != [] && Window(flags, lines) != lines
    requires text != [] && text[0] != '#' && !BracketText.IsSpace(text[0])
    ensures Outline(flags, WithBranch(flags, lines, num, text)) == Outline(flags, lines)
  {
    var w := Window(flags, lines);
    WindowIs(flags, lines);
    WindowKept(flags, lines);
    var first, second := BareLine(num, "#else", []), BareLine(num, text, []);
    ElseText();
    BranchBefore(FlagsAfter(flags, w), lines[|w|..], first, second);
    OutlineWithWindow(flags, w, [first, second] + lines[|w|..], lines[|w|..]);
  }

  /** The lines before an else-branch decide the look-ahead from a class head exactly when nothing
      that could stand in else-branches there changes its verdict. */
  lemma HeadDecidedExactly(flags: seq<bool>, lines: seq<Line>, end: nat)
    requires Window(flags, lines) != [] && Window(flags, lines) != lines
    ensures LookAt(Texts(Window(flags, lines)), 0, end) != More
       <==> forall lines' | !StartsErased(flags, lines') && Outline(flags, lines') == Outline(flags, lines) ::
              InTemplate(Texts(lines'), 0, end) == InTemplate(Texts(Erase(flags, lines)), 0, end)
  {
    if LookAt(Texts(Window(flags, lines)), 0, end) != More {
      forall lines' | !StartsErased(flags, lines') && Outline(flags, lines') == Outline(flags, lines)
        ensures InTemplate(Texts(lines'), 0, end) == InTemplate(Texts(Erase(flags, lines)), 0, end)
      {
        SameOutline(flags, lines, lines');
        DecidedVerdict(flags, lines', end);
      }
    } else {
      var lines' := TurnedBranch(flags, lines, end);
    }
  }

  lemma SameOutline(flags: seq<bool>, lines: seq<Line>, lines': seq<Line>)
    requires !StartsErased(flags, lines) && !StartsErased(flags, lines')
    requires Outline(flags, lines') == Outline(flags, lines)
    ensures Window(flags, lines') == Window(flags, lines) && Erase(flags, lines') == Erase(flags, lines)
  {
    OutlineWindow(flags, lines);
    OutlineWindow(flags, lines');
    OutlineKeeps(flags, lines);
    OutlineKeeps(flags, lines');
  }

  lemma TurnedBranch(flags: seq<bool>, lines: seq<Line>, end: nat) returns (lines': seq<Line>)
    requires Window(flags, lines) != [] && Window(flags, lines) != lines
    requires LookAt(Texts(Window(flags, lines)), 0, end) == More
    ensures Outline(flags, lines') == Outline(flags, lines) && lines' != [] && lines'[0] == lines[0]
    ensures InTemplate(Texts(lines'), 0, end) != InTemplate(Texts(Erase(flags, lines)), 0, end)
  {
    var w := Window(flags, lines);
    WindowKept(flags, lines);
    var rest, kept := lines[|w|..], Erase(FlagsAfter(flags, w), lines[|w|..]);
    var text := TurningLine(Texts(w), end, Texts(kept));
    TurningLineTurns(Texts(w), end, Texts(rest), Texts(kept));
    lines' := WithBranch(flags, lines, 0, text);
    BranchIsErased(flags, lines, 0, text);
    BranchTexts(flags, lines, 0, text);
    TextsConcat(w, kept);
  }

  lemma BranchTexts(flags: seq<bool>, lines: seq<Line>, num: nat, text: string)
    ensures var w := Window(flags, lines);
            && |w| <= |lines|
            && Texts(WithBranch(flags, lines, num, text)) == Texts(w) + (["#else", text] + Texts(lines[|w|..]))
  {
    WindowIs(flags, lines);
  }

  // ------------------------------------------------------------- what a verdict does

  /** Nothing follows the class head on its line. */
  predicate OpenHead(line: Line) {
    line.classDecl.Some? && line.classDecl.value.tail.tokens == [] && line.tail.tokens == []
  }

  /** Only a semicolon follows it. */
  predicate ForwardDeclaration(line: Line) {
    && line.classDecl.Some? && line.classDecl.value.tail == Tail(None, [SemiOrParen]) == line.tail
    && !HasBareColon(line.text)
  }

  /** Either verdict on an open head leaves another stack. */
  lemma OpenHeadMatters(stack: seq<Info>, line: Line)
    requires OpenHead(line) && SeesClass(BeforeClass(stack, line), line)
    ensures |UpdateStack(stack, line, false)| == |UpdateStack(stack, line, true)| + 1
  {
  }

  /** A forward declaration is taken back on its line: unless a head before it still waits for its
      brace, the verdict makes no difference. */
  lemma ForwardDeclarationCancels(stack: seq<Info>, line: Line)
    requires ForwardDeclaration(line) && SeesClass(BeforeClass(stack, line), line)
    ensures UpdateStack(stack, line, false) == UpdateStack(stack, line, true)
       <==> SeenOpenBrace(BeforeClass(stack, line))
  {
    var s := BeforeClass(stack, line);
    var d := line.classDecl.value;
    var c := NewBlock(Class(d.name, d.isStruct), line.num, false);
    assert Front(s + [c]) == s && Last(s + [c]) == c;
    assert [SemiOrParen][1..] == [];
    assert AfterTokens(s + [c], line.num, [SemiOrParen]) == s;
    assert AfterTokens(s, line.num, [SemiOrParen]) == AfterToken(s, line.num, SemiOrParen);
  }

  /** The lines from n on are replaced by others with the same outline. */
  lemma Replaced(file: seq<Line>, n: nat, lines: seq<Line>) returns (file': seq<Line>)
    requires n < |file| && lines != [] && lines[0] == file[n]
    requires Outline(FlagsAt(file, n), lines) == Outline(FlagsAt(file, n), file[n..])
    ensures |file'| > n && file'[..n + 1] == file[..n + 1] && file'[n..] == lines
    ensures Outline([], file') == Outline([], file)
  {
    file' := file[..n] + lines;
    Spliced(file, n, lines);
    Cut(file, n);
    OutlineReplaced([], file[..n], lines, file[n..]);
  }

  lemma Spliced(file: seq<Line>, n: nat, lines: seq<Line>)
    requires n < |file| && lines != [] && lines[0] == file[n]
    ensures var file' := file[..n] + lines;
            |file'| > n && file'[n..] == lines && file'[..n + 1] == file[..n + 1]
  {
  }

  /** What depends on the first n + 1 lines only. */
  lemma SameStart(file: seq<Line>, file': seq<Line>, n: nat)
    requires n < |file| && n < |file'| && file'[..n + 1] == file[..n + 1]
    ensures file'[n] == file[n] && FlagsAt(file', n) == FlagsAt(file, n) && KeptBefore(file', n) == KeptBefore(file, n)
    ensures IsKept(file', n) == IsKept(file, n)
  {
    assert file'[..n] == file'[..n + 1][..n] == file[..n];
    assert file'[n] == file'[..n + 1][n];
  }

  /** A class head whose verdict makes a difference and is not decided before an else-branch: with
      other lines in else-branches, and with the same outline, the readings fall out of step. */
  lemma UndecidedBreaksStep(file: seq<Line>, n: nat) returns (file': seq<Line>)
    requires n < |file| && IsKept(file, n) && !HeadDecided(Outline(FlagsAt(file, n), file[n..]))
    requires KeptBefore(file, n) < |Erase([], file)| && Erase([], file)[KeptBefore(file, n)] == file[n]
    requires !VerdictIsIdle(Erase([], file), KeptBefore(file, n))
    ensures Outline([], file') == Outline([], file) && |file'| > n && file'[..n + 1] == file[..n + 1]
    ensures !InStepThroughout(file')
  {
    KeptNext(file, n);
    OutlineAt(file, n);
    var flags, lines, end := FlagsAt(file, n), file[n..], file[n].classDecl.value.end;
    OutlineWindow(flags, lines);
    var lines' := TurnedBranch(flags, lines, end);
    file' := Replaced(file, n, lines');
    SameStart(file, file', n);
    OutlineKeeps([], file);
    OutlineKeeps([], file');
    OutlineKeeps(flags, lines);
    OutlineKeeps(flags, lines');
    DifferentVerdicts(file', n);
    InStepExactly(file');
  }

  lemma DifferentVerdicts(file: seq<Line>, n: nat)
    requires n < |file| && IsKept(file, n) && file[n].classDecl.Some?
    requires KeptBefore(file, n) < |Erase([], file)| && Erase([], file)[KeptBefore(file, n)] == file[n]
    requires !VerdictIsIdle(Erase([], file), KeptBefore(file, n))
    requires var end := file[n].classDecl.value.end;
             InTemplate(Texts(file[n..]), 0, end)
             != InTemplate(Texts(Erase(FlagsAt(file, n), file[n..])), 0, end)
    ensures !SameEffect(file, n)
  {
    VerdictsOfRest(file, n);
  }

  // ------------------------------------------------------------- all files with the same outline

  lemma {:induction false} KeptAt(file: seq<Line>, m: nat, k: nat) returns (n: nat)
    requires m <= |file| && k < KeptBefore(file, m)
    ensures n < m && IsKept(file, n) && KeptBefore(file, n) == k
  {
    KeptNext(file, m - 1);
    if IsKept(file, m - 1) && KeptBefore(file, m - 1) == k {
      n := m - 1;
    } else {
      n := KeptAt(file, m - 1, k);
    }
  }

  /** Look-aheads that are decided before else-branches, as far as their verdict makes a difference,
      are exactly what it takes: whatever stands in else-branches, the readings stay in step. */
  lemma DecidedExactlyForAll(file: seq<Line>)
    ensures MattersDecided(file)
       <==> forall file' | Outline([], file') == Outline([], file) :: InStepThroughout(file')
  {
    if MattersDecided(file) {
      forall file' | Outline([], file') == Outline([], file)
        ensures InStepThroughout(file')
      {
        ElseBranchesErased(file');
      }
    } else {
      var file' := SomeUndecided(file);
    }
  }

  lemma SomeUndecided(file: seq<Line>) returns (file': seq<Line>)
    requires !MattersDecided(file)
    ensures Outline([], file') == Outline([], file) && !InStepThroughout(file')
  {
    OutlineKeeps([], file);
    var k :| 0 <= k < |Outline([], file)| && !VerdictIsIdle(KeptLines(Outline([], file)), k)
             && !HeadDecided(Outline([], file)[k..]);
    var n := LineOf(file, k);
    file' := UndecidedBreaksStep(file, n);
  }

  /** Where the kept line k stands in the file. */
  lemma LineOf(file: seq<Line>, k: nat) returns (n: nat)
    requires k < |Erase([], file)|
    ensures n < |file| && IsKept(file, n) && KeptBefore(file, n) == k && Erase([], file)[k] == file[n]
    ensures k <= |Outline([], file)| && Outline([], file)[k..] == Outline(FlagsAt(file, n), file[n..])
  {
    assert file[..|file|] == file;
    n := KeptAt(file, |file|, k);
    KeptNext(file, n);
    OutlineAt(file, n);
  }

  // ------------------------------------------------------------- one file

  lemma EraseFive(a: Line, b: Line, c: Line, d: Line, e: Line)
    requires Classify(a.text) == If && Classify(c.text) == Else && Classify(e.text) == Endif
    requires Classify(b.text) == Classify(d.text) == Other
    ensures Erase([], [a] + [b] + [c] + [d] + [e]) == [a] + [b] + [e]
    ensures FlagsAfter([], [a] + [b] + [c] + [d] + [e]) == []
  {
    EraseOne([false], b);
    EraseConditional([], a, [b], c, [d], e);
  }

  lemma ListOfSix<T>(a: T, b: T, c: T, d: T, e: T, f: T)
    ensures [a] + [b] + [c] + [d] + [e] + [f] == [a, b, c, d, e, f] && [a] + [b] + [e] + [f] == [a, b, e, f]
  {
  }

  /** A conditional with one line in each branch, and a line after it. */
  lemma EraseSix(a: Line, b: Line, c: Line, d: Line, e: Line, f: Line)
    requires Classify(a.text) == If && Classify(c.text) == Else && Classify(e.text) == Endif
    requires Classify(b.text) == Classify(d.text) == Classify(f.text) == Other
    ensures Erase([], [a, b, c, d, e, f]) == [a, b, e, f]
  {
    EraseFive(a, b, c, d, e);
    EraseOne([], f);
    EraseAppend([], [a] + [b] + [c] + [d] + [e], [a] + [b] + [e], [f], [], [f], []);
    ListOfSix(a, b, c, d, e, f);
  }

  lemma NestSix(a: Line, b: Line, c: Line, d: Line, e: Line, f: Line)
    requires Classify(a.text) == If && Classify(c.text) == Else && Classify(e.text) == Endif
    requires Classify(b.text) == Classify(d.text) == Classify(f.text) == Other
    ensures WellNested([a, b, c, d, e, f], 0, false)
  {
    assert [a, b, c, d, e, f][1..] == [b, c, d, e, f] && [b, c, d, e, f][1..] == [c, d, e, f];
    assert [c, d, e, f][1..] == [d, e, f] && [d, e, f][1..] == [e, f];
    assert WellNested([e, f], 1, false);
    assert WellNested([c, d, e, f], 1, false);
  }

  predicate PlainText(text: string) {
    forall c :: c in text ==> IsPlain(c)
  }

  /** The look-ahead from the head of line n finds nothing in the next line and a token after it. */
  lemma TokenAfterGap(file: seq<Line>, n: nat, name: string)
    requires n + 2 < |file| && AllHead(file[n], name) && PlainText(file[n + 1].text)
    requires file[n + 2].text != [] && file[n + 2].text[0] in ">{"
    ensures IsArgument(file, n) <==> file[n + 2].text[0] == '>'
  {
    var lines := Texts(file);
    PlainLine(lines[n + 1], 0, []);
    assert NextToken(lines[n + 2], 0) == 0;
    assert InTemplate(lines, n + 1, 0) == InTemplate(lines, n + 2, 0);
  }

  lemma {:induction false} CountNone(s: string, c: char)
    requires c !in s
    ensures Count(s, c) == 0
  {
    if s != [] {
      CountNone(s[1..], c);
    }
  }

  /** A line with no declaration, no parentheses and no colon. */
  predicate Bare(line: Line, directive: Directive, tokens: seq<Token>) {
    && line == BareLine(line.num, line.text, tokens) && Classify(line.text) == directive
    && '(' !in line.text && ')' !in line.text && ':' !in line.text
  }

  predicate Calm(stack: seq<Info>) {
    stack == [] || Last(stack).asm == NoAsm
  }

  lemma BareStack(stack: seq<Info>, line: Line, directive: Directive, tokens: seq<Token>)
    requires Bare(line, directive, tokens) && Calm(stack)
    ensures UpdateStack(stack, line, false) == AfterTokens(stack, line.num, tokens)
  {
    CountNone(line.text, '(');
    CountNone(line.text, ')');
    assert AfterParens(stack, line) == stack;
  }

  /** A bare line without tokens does what its directive says and no more. */
  lemma ReadBare(file: seq<Line>, n: nat, directive: Directive)
    requires n < |file| && Bare(file[n], directive, [])
    requires Calm(Preprocess(Reading(file, n), directive).stack)
    ensures Reading(file, n + 1) == Preprocess(Reading(file, n), directive)
  {
    BareStack(Preprocess(Reading(file, n), directive).stack, file[n], directive, []);
  }

  /** A brace completes the head on top of the stack, or starts a plain block on an empty one. */
  lemma ReadBrace(file: seq<Line>, n: nat)
    requires n < |file| && Bare(file[n], Other, [OpenBrace(false, false)])
    requires var stack := Reading(file, n).stack; Calm(stack) && (stack != [] ==> !SeenOpenBrace(stack))
    ensures var stack := Reading(file, n).stack;
            && (stack == [] ==> Reading(file, n + 1).stack == [NewBlock(PlainBlock, file[n].num, true)])
            && (stack != [] ==> Reading(file, n + 1).stack == SetLast(stack, Last(stack).(seenOpenBrace := true)))
            && Reading(file, n + 1).conditionals == Reading(file, n).conditionals
  {
    var s, brace := Reading(file, n), OpenBrace(false, false);
    BareStack(s.stack, file[n], Other, [brace]);
    assert AfterTokens(s.stack, file[n].num, [brace]) == AfterToken(s.stack, file[n].num, brace) by {
      assert [brace][1..] == [];
    }
  }

  /** A line that is all head of a class. */
  predicate AllHead(line: Line, name: string) {
    && line.classDecl == Some(ClassDecl(name, false, |line.text|, Tail(None, []))) && line.tail == Tail(None, [])
    && line.namespaces == [] && Classify(line.text) == Other && !HasBareColon(line.text)
  }

  lemma ReadHead(file: seq<Line>, n: nat, name: string, verdict: bool)
    requires n < |file| && AllHead(file[n], name) && Reading(file, n).stack == []
    requires IsArgument(file, n) <==> verdict
    ensures Reading(file, n + 1)
         == Reading(file, n).(stack := if verdict then [] else [NewBlock(Class(name, false), file[n].num, false)])
  {
  }

  /** Six lines: a class head in a conditional, an else-branch with '>', and a brace at the end. */
  predicate ElseDecides(file: seq<Line>) {
    && |file| == 6
    && Bare(file[0], If, []) && AllHead(file[1], "A") && Bare(file[2], Else, []) && Bare(file[3], Other, [])
    && Bare(file[4], Endif, []) && Bare(file[5], Other, [OpenBrace(false, false)])
    && PlainText(file[2].text) && file[3].text != [] && file[3].text[0] == '>'
    && PlainText(file[4].text) && file[5].text != [] && file[5].text[0] == '{'
  }

  /** The same up to the class head, and what its look-ahead reads. */
  predicate StartsWithHead(file: seq<Line>, token: char) {
    && |file| >= 4 && Bare(file[0], If, []) && AllHead(file[1], "A")
    && PlainText(file[2].text) && file[3].text != [] && file[3].text[0] == token
  }

  lemma HeadReading(file: seq<Line>, token: char)
    requires StartsWithHead(file, token) && token in ">{"
    ensures Reading(file, 2)
         == State(if token == '>' then [] else [NewBlock(Class("A", false), file[1].num, false)],
                  [Conditional([], [], false)])
  {
    TokenAfterGap(file, 1, "A");
    ReadBare(file, 0, If);
    ReadHead(file, 1, "A", token == '>');
  }

  lemma FullReading(file: seq<Line>)
    requires |file| == 6 && StartsWithHead(file, '>') && Bare(file[2], Else, []) && Bare(file[3], Other, [])
    requires Bare(file[4], Endif, []) && Bare(file[5], Other, [OpenBrace(false, false)])
    ensures Reading(file, 6) == State([NewBlock(PlainBlock, file[5].num, true)], [])
  {
    HeadReading(file, '>');
    ReadBare(file, 2, Else);
    ReadBare(file, 3, Other);
    ReadBare(file, 4, Endif);
    ReadBrace(file, 5);
  }

  /** A class head on top is still there after the #endif. */
  lemma HeadAfterEndif(file: seq<Line>, n: nat, c: Info)
    requires n < |file| && Bare(file[n], Endif, []) && c.asm == NoAsm
    requires Reading(file, n) == State([c], [Conditional([], [], false)])
    ensures Reading(file, n + 1) == State([c], [])
  {
    ReadBare(file, n, Endif);
  }

  lemma HeadCompleted(file: seq<Line>, n: nat, c: Info)
    requires n < |file| && Bare(file[n], Other, [OpenBrace(false, false)]) && c.asm == NoAsm && !c.seenOpenBrace
    requires Reading(file, n) == State([c], [])
    ensures Reading(file, n + 1) == State([c.(seenOpenBrace := true)], [])
  {
    ReadBrace(file, n);
  }

  lemma ErasedReading(kept: seq<Line>)
    requires |kept| == 4 && StartsWithHead(kept, '{')
    requires Bare(kept[2], Endif, []) && Bare(kept[3], Other, [OpenBrace(false, false)])
    ensures Reading(kept, 4)
         == State([NewBlock(Class("A", false), kept[1].num, false).(seenOpenBrace := true)], [])
  {
    var c := NewBlock(Class("A", false), kept[1].num, false);
    HeadReading(kept, '{');
    HeadAfterEndif(kept, 2, c);
    HeadCompleted(kept, 3, c);
  }

  lemma KeptOfElseDecides(file: seq<Line>)
    requires ElseDecides(file)
    ensures WellNested(file, 0, false)
    ensures var kept := Erase([], file);
            |kept| == 4 && kept[0] == file[0] && kept[1] == file[1] && kept[2] == file[4] && kept[3] == file[5]
  {
    SixLines(file);
    EraseSix(file[0], file[1], file[2], file[3], file[4], file[5]);
    NestSix(file[0], file[1], file[2], file[3], file[4], file[5]);
  }

  lemma SixLines(file: seq<Line>)
    requires |file| == 6
    ensures file == [file[0], file[1], file[2], file[3], file[4], file[5]]
  {
  }

  /** Such a file is well nested. Read in full it ends inside a plain block, and without its
      else-branch inside a class. */
  lemma ElseBranchChangesStack(file: seq<Line>)
    requires ElseDecides(file)
    ensures WellNested(file, 0, false)
    ensures Reading(file, 6) == State([NewBlock(PlainBlock, file[5].num, true)], [])
    ensures |Erase([], file)| == 4
    ensures Reading(Erase([], file), 4)
         == State([NewBlock(Class("A", false), file[1].num, false).(seenOpenBrace := true)], [])
  {
    KeptOfElseDecides(file);
    FullReading(file);
    ErasedReading(Erase([], file));
  }

  lemma IfDirectiveLine(a: Line)
    requires a == BareLine(0, "#if X", [])
    ensures Bare(a, If, [])
  {
    assert "#if X"[1..] == "if X";
    WordAt("if X", 2);
    assert "if X"[..2] == "if";
  }

  lemma ElseDirectiveLine(c: Line)
    requires c == BareLine(2, "#else", [])
    ensures Bare(c, Else, []) && PlainText(c.text)
  {
    ElseText();
  }

  lemma EndifText()
    ensures Classify("#endif") == Endif
  {
    DirectiveWord("#endif", "endif");
  }

  lemma EndifDirectiveLine(e: Line)
    requires e == BareLine(4, "#endif", [])
    ensures Bare(e, Endif, []) && PlainText(e.text)
  {
    EndifText();
  }

  lemma TokenLines(d: Line, f: Line)
    requires d == BareLine(3, ">", []) && f == BareLine(5, "{", [OpenBrace(false, false)])
    ensures Bare(d, Other, []) && Bare(f, Other, [OpenBrace(false, false)])
    ensures d.text != [] && d.text[0] == '>' && f.text != [] && f.text[0] == '{'
  {
  }

  lemma HeadLine(b: Line)
    requires b == Line(1, "class A", false, [], Some(ClassDecl("A", false, 7, Tail(None, []))), Tail(None, []))
    ensures AllHead(b, "A")
  {
  }

  /** There is such a file. */
  lemma ElseDecidesHappens(a: Line, b: Line, c: Line, d: Line, e: Line, f: Line)
    requires a == BareLine(0, "#if X", []) && c == BareLine(2, "#else", []) && e == BareLine(4, "#endif", [])
    requires b == Line(1, "class A", false, [], Some(ClassDecl("A", false, 7, Tail(None, []))), Tail(None, []))
    requires d == BareLine(3, ">", []) && f == BareLine(5, "{", [OpenBrace(false, false)])
    ensures ElseDecides([a, b, c, d, e, f])
  {
    IfDirectiveLine(a);
    HeadLine(b);
    ElseDirectiveLine(c);
    EndifDirectiveLine(e);
    TokenLines(d, f);
  }
}

/**
 Braces open and close blocks: what a balanced piece of a file does to the block stack.
 */
module Scopes {
  import opened Common
  import opened Nesting

  // ------------------------------------------------------------- the tokens of a line

  /** B ::= (nothing) | ';' B | '{' B '}' B */
  ghost predicate Balanced(tokens: seq<Token>)
    decreases |tokens|
  {
    || tokens == []
    || (tokens[0] == SemiOrParen && Balanced(tokens[1..]))
    || (tokens[0].OpenBrace? && exists k :: 0 < k < |tokens| && tokens[k] == CloseBrace
                                            && Balanced(tokens[1..k]) && Balanced(tokens[k + 1..]))
  }

  lemma {:induction false} TokensOfBoth(stack: seq<Info>, num: nat, a: seq<Token>, b: seq<Token>)
    ensures AfterTokens(stack, num, a + b) == AfterTokens(AfterTokens(stack, num, a), num, b)
    decreases |a|
  {
    if a == [] {
      assert a + b == b;
    } else {
      assert (a + b)[1..] == a[1..] + b;
      TokensOfBoth(AfterToken(stack, num, a[0]), num, a[1..], b);
    }
  }

  /** Once the brace of the innermost block is seen, '{' opens a block of its own. */
  lemma BraceOpens(stack: seq<Info>, num: nat, isExternC: bool, isAsm: bool)
    requires stack == [] || stack[|stack| - 1].seenOpenBrace
    ensures AfterToken(stack, num, OpenBrace(isExternC, isAsm))
         == stack + [Info(if isExternC then ExternC else PlainBlock, num, true, 0,
                          if isAsm && !isExternC then BlockAsm else NoAsm, "", false)]
  {
  }

  /** A head that waits for its brace gets it, or is taken back. */
  lemma HeadCompletes(stack: seq<Info>, head: Info, num: nat, t: Token)
    requires !head.seenOpenBrace
    ensures AfterToken(stack + [head], num, t)
         == if t.OpenBrace? then stack + [head.(seenOpenBrace := true)] else stack
  {
    assert Front(stack + [head]) == stack && Last(stack + [head]) == head;
  }

  /** Balanced tokens leave the stack as it is. */
  lemma {:induction false} BalancedPasses(stack: seq<Info>, num: nat, tokens: seq<Token>)
    requires Balanced(tokens) && SeenOpenBrace(stack)
    ensures AfterTokens(stack, num, tokens) == stack
    decreases |tokens|
  {
    if tokens != [] {
      if tokens[0] == SemiOrParen {
        BalancedPasses(stack, num, tokens[1..]);
      } else {
        var k :| 0 < k < |tokens| && tokens[k] == CloseBrace
                 && Balanced(tokens[1..k]) && Balanced(tokens[k + 1..]);
        var inner := AfterToken(stack, num, tokens[0]);
        BalancedPasses(inner, num, tokens[1..k]);
        BalancedPasses(stack, num, tokens[k + 1..]);
        BlockCloses(stack, num, tokens, k);
      }
    }
  }

  lemma BlockCloses(stack: seq<Info>, num: nat, tokens: seq<Token>, k: nat)
    requires 0 < k < |tokens| && tokens[0].OpenBrace? && tokens[k] == CloseBrace && SeenOpenBrace(stack)
    requires var inner := AfterToken(stack, num, tokens[0]);
             AfterTokens(inner, num, tokens[1..k]) == inner
    ensures AfterTokens(stack, num, tokens) == AfterTokens(stack, num, tokens[k + 1..])
  {
    var inner := AfterToken(stack, num, tokens[0]);
    assert tokens[1..] == tokens[1..k] + tokens[k..];
    TokensOfBoth(inner, num, tokens[1..k], tokens[k..]);
    assert tokens[k..][1..] == tokens[k + 1..];
    assert Front(inner) == stack;
  }

  /** A '}' without a '{' before it closes exactly the innermost block. */
  lemma UnmatchedCloses(stack: seq<Info>, num: nat, tokens: seq<Token>)
    requires Balanced(tokens) && SeenOpenBrace(stack)
    ensures AfterTokens(stack, num, tokens + [CloseBrace]) == stack[..if stack == [] then 0 else |stack| - 1]
  {
    TokensOfBoth(stack, num, tokens, [CloseBrace]);
    BalancedPasses(stack, num, tokens);
    assert [CloseBrace][1..] == [];
  }

  // ------------------------------------------------------------- the declarations of a line

  /** A class head opens a block that waits for its brace, exactly where no parentheses are open and
      when it is no template argument. */
  lemma HeadOpens(stack: seq<Info>, line: Line, isArgument: bool)
    ensures AfterClass(stack, line, isArgument)
         == if line.classDecl.Some? && (stack == [] || stack[|stack| - 1].openParens == 0) && !isArgument then
              var d := line.classDecl.value;
              stack + [Info(Class(d.name, d.isStruct), line.num, false, 0, NoAsm,
                            if d.isStruct then "public" else "private", false)]
            else stack
    ensures TailOf(stack, line, isArgument)
         == if AfterClass(stack, line, isArgument) == stack then line.tail else line.classDecl.value.tail
  {
  }

  /** A line without declarations, braces and semicolons counts its parentheses for the innermost
      block, and an access specifier or, in a class head, a bare colon is noted there. */
  lemma InnerLine(stack: seq<Info>, block: Info, line: Line, isArgument: bool)
    requires line.classDecl == None && line.namespaces == [] && line.tail.tokens == []
    ensures UpdateStack(stack + [block], line, isArgument)
         == stack + [Info(block.kind, block.start, block.seenOpenBrace,
                          block.openParens + multiset(line.text)['('] - multiset(line.text)[')'],
                          CountParens(block, Count(line.text, '(') - Count(line.text, ')'), line.startsAsm).asm,
                          if block.kind.Class? && line.tail.access.Some? then line.tail.access.value else block.access,
                          block.isDerived
                          || (block.kind.Class? && !block.seenOpenBrace && HasBareColon(line.text)))]
  {
    CountIs(line.text, '(');
    CountIs(line.text, ')');
    var b := CountParens(block, Count(line.text, '(') - Count(line.text, ')'), line.startsAsm);
    SetTop(stack, block, b);
    SetTop(stack, b, b.(isDerived := true));
    var d := if b.kind.Class? && !b.seenOpenBrace && HasBareColon(line.text) then b.(isDerived := true) else b;
    assert AfterCheckBegin(stack + [b], line) == stack + [d];
    if line.tail.access.Some? {
      SetTop(stack, d, d.(access := line.tail.access.value));
    }
  }

  lemma SetTop(stack: seq<Info>, a: Info, b: Info)
    ensures SetLast(stack + [a], b) == stack + [b] && Last(stack + [a]) == a
  {
  }

  /** Every namespace opens a block. */
  lemma {:induction false} NamespacesOpen(stack: seq<Info>, num: nat, decls: seq<NamespaceDecl>)
    ensures var s := AfterNamespaces(stack, num, decls);
            && |s| == |stack| + |decls| && s[..|stack|] == stack
            && forall i :: 0 <= i < |decls| ==>
                 s[|stack| + i] == Info(Namespace(decls[i].name), num, decls[i].hasBrace, 0, NoAsm, "", false)
    decreases |decls|
  {
    if decls != [] {
      var s := stack + [NewBlock(Namespace(decls[0].name), num, decls[0].hasBrace)];
      NamespacesOpen(s, num, decls[1..]);
      assert AfterNamespaces(stack, num, decls)[..|stack|] == AfterNamespaces(s, num, decls[1..])[..|s|][..|stack|];
    }
  }

  // ------------------------------------------------------------- parentheses and inline assembly

  lemma {:induction false} CountIs(s: string, c: char)
    ensures Count(s, c) == multiset(s)[c]
  {
    if s != [] {
      assert s == [s[0]] + s[1..];
      CountIs(s[1..], c);
    }
  }

  /** What a block sees of a line: the difference of its parentheses, and whether it starts inline
      assembly. */
  datatype Parens = Parens(depthChange: int, startsAsm: bool)

  /** The block after the first j lines. */
  function AfterFirst(b: Info, lines: seq<Parens>, j: nat): Info
    requires j <= |lines|
  {
    if j == 0 then b
    else CountParens(AfterFirst(b, lines, j - 1), lines[j - 1].depthChange, lines[j - 1].startsAsm)
  }

  /** How many parentheses are open then. */
  function OpenAfter(open: int, lines: seq<Parens>, j: nat): int
    requires j <= |lines|
  {
    if j == 0 then open else OpenAfter(open, lines, j - 1) + lines[j - 1].depthChange
  }

  /** The parentheses of the lines add up, and nothing else than their number and the state of inline
      assembly changes. */
  lemma {:induction false} ParensAddUp(b: Info, lines: seq<Parens>, j: nat)
    requires j <= |lines|
    ensures var b' := AfterFirst(b, lines, j);
            b' == b.(openParens := OpenAfter(b.openParens, lines, j), asm := b'.asm)
  {
    if j > 0 {
      ParensAddUp(b, lines, j - 1);
    }
  }

  /** Line i starts inline assembly: it comes to one open parenthesis. After every line from there up
      to j, parentheses are open. */
  predicate InsideSince(open: int, lines: seq<Parens>, i: nat, j: nat)
    requires i < j <= |lines|
  {
    && lines[i].startsAsm && lines[i].depthChange != 0 && OpenAfter(open, lines, i + 1) == 1
    && forall k :: i < k <= j ==> OpenAfter(open, lines, k) != 0
  }

  lemma SinceNext(open: int, lines: seq<Parens>, i: nat, j: nat)
    requires i < j < |lines|
    ensures InsideSince(open, lines, i, j + 1)
       <==> InsideSince(open, lines, i, j) && OpenAfter(open, lines, j + 1) != 0
  {
  }

  /** A block that is no block of inline assembly is inside of inline assembly if and only if some
      line started it and parentheses have been open after every line since. */
  lemma {:induction false} AsmExactly(b: Info, lines: seq<Parens>, j: nat)
    requires b.asm == NoAsm && j <= |lines|
    ensures AfterFirst(b, lines, j).asm != BlockAsm
    ensures AfterFirst(b, lines, j).asm == InsideAsm
       <==> exists i :: 0 <= i < j && InsideSince(b.openParens, lines, i, j)
  {
    if j > 0 {
      AsmExactly(b, lines, j - 1);
      ParensAddUp(b, lines, j - 1);
      forall i | 0 <= i < j - 1
        ensures InsideSince(b.openParens, lines, i, j)
           <==> InsideSince(b.openParens, lines, i, j - 1) && OpenAfter(b.openParens, lines, j) != 0
      {
        SinceNext(b.openParens, lines, i, j - 1);
      }
      if AfterFirst(b, lines, j - 1).asm == InsideAsm {
        var i :| 0 <= i < j - 1 && InsideSince(b.openParens, lines, i, j - 1);
        assert OpenAfter(b.openParens, lines, j) != 0 ==> InsideSince(b.openParens, lines, i, j);
      } else if AfterFirst(b, lines, j).asm == InsideAsm {
        assert InsideSince(b.openParens, lines, j - 1, j);
      }
    }
  }
}

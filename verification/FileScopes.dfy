/**
 Scopes over any number of lines: a piece of a file whose braces and declarations are balanced leaves
 the same blocks open.
 */
module FileScopes {
  import opened Common
  import opened Nesting

  /** What a line does to the open blocks, in order. A declaration enters a block, whose brace it has
      seen or not. */
  datatype Event = Opens | Semi | Closes | Enters(seen: bool)

  function EventOf(t: Token): Event {
    match t
    case OpenBrace(_, _) => Opens
    case SemiOrParen => Semi
    case CloseBrace => Closes
  }

  function TokenEvents(tokens: seq<Token>): seq<Event>
    decreases |tokens|
  {
    if tokens == [] then [] else [EventOf(tokens[0])] + TokenEvents(tokens[1..])
  }

  function NamespaceEvents(decls: seq<NamespaceDecl>): seq<Event>
    decreases |decls|
  {
    if decls == [] then [] else [Enters(decls[0].hasBrace)] + NamespaceEvents(decls[1..])
  }

  function LineEvents(stack: seq<Info>, line: Line, isArgument: bool): seq<Event> {
    var s := BeforeClass(stack, line);
    NamespaceEvents(line.namespaces)
    + ((if AcceptsClass(s, line, isArgument) then [Enters(false)] else [])
       + TokenEvents(TailOf(s, line, isArgument).tokens))
  }

  /** S ::= (nothing) | ';' S | '{' S '}' S | namespace '{' S '}' S | head ';' S | head '{' S '}' S */
  ghost predicate Scope(e: seq<Event>)
    decreases |e|
  {
    || e == []
    || (e[0] == Semi && Scope(e[1..]))
    || ((e[0] == Opens || e[0] == Enters(true)) && exists k: nat :: ClosedAt(e, 1, k))
    || (|e| > 1 && e[0] == Enters(false) && e[1] == Semi && Scope(e[2..]))
    || (|e| > 1 && e[0] == Enters(false) && e[1] == Opens && exists k: nat :: ClosedAt(e, 2, k))
  }

  ghost predicate ClosedAt(e: seq<Event>, i: nat, k: nat)
    requires 0 < i <= |e|
    decreases |e|, 0
  {
    i <= k < |e| && e[k] == Closes && Scope(e[i..k]) && Scope(e[k + 1..])
  }

  // ------------------------------------------------------------- heights

  /** For every open block, whether its brace has been seen. */
  function Fold(flags: seq<bool>, e: Event): seq<bool> {
    match e
    case Opens => if flags == [] || Last(flags) then flags + [true] else Front(flags) + [true]
    case Semi => if flags == [] || Last(flags) then flags else Front(flags)
    case Closes => if flags == [] then flags else Front(flags)
    case Enters(seen) => flags + [seen]
  }

  function FoldAll(flags: seq<bool>, e: seq<Event>): seq<bool>
    decreases |e|
  {
    if e == [] then flags else FoldAll(Fold(flags, e[0]), e[1..])
  }

  /** There are never fewer than h blocks. */
  predicate AtLeast(h: nat, flags: seq<bool>, e: seq<Event>)
    decreases |e|
  {
    |flags| >= h && (e == [] || AtLeast(h, Fold(flags, e[0]), e[1..]))
  }

  lemma {:induction false} FoldBoth(h: nat, flags: seq<bool>, a: seq<Event>, b: seq<Event>)
    ensures FoldAll(flags, a + b) == FoldAll(FoldAll(flags, a), b)
    ensures AtLeast(h, flags, a + b) <==> AtLeast(h, flags, a) && AtLeast(h, FoldAll(flags, a), b)
    decreases |a|
  {
    if a == [] {
      assert a + b == b;
    } else {
      assert (a + b)[1..] == a[1..] + b;
      FoldBoth(h, Fold(flags, a[0]), a[1..], b);
    }
  }

  predicate SeenTop(flags: seq<bool>) {
    flags == [] || Last(flags)
  }

  lemma InThree<T>(e: seq<T>, i: nat, k: nat)
    requires i <= k <= |e|
    ensures e == e[..i] + (e[i..k] + e[k..])
  {
  }

  /** A block, what is inside, and its end. */
  lemma ClosedFolds(h: nat, flags: seq<bool>, e: seq<Event>, i: nat, k: nat)
    requires 0 < i <= k < |e| && e[k] == Closes && h <= |flags|
    requires FoldAll(flags, e[..i]) == flags + [true] && AtLeast(h, flags, e[..i])
    requires FoldAll(flags + [true], e[i..k]) == flags + [true] && AtLeast(h, flags + [true], e[i..k])
    ensures FoldAll(flags, e) == FoldAll(flags, e[k + 1..])
    ensures AtLeast(h, flags, e) <==> AtLeast(h, flags, e[k + 1..])
  {
    InThree(e, i, k);
    FoldBoth(h, flags, e[..i], e[i..k] + e[k..]);
    FoldBoth(h, flags + [true], e[i..k], e[k..]);
    assert e[k..][1..] == e[k + 1..] && Front(flags + [true]) == flags;
  }

  /** A scope leaves what was open before it open. */
  lemma {:induction false} ScopeFolds(h: nat, flags: seq<bool>, e: seq<Event>)
    requires Scope(e) && SeenTop(flags) && h <= |flags|
    ensures FoldAll(flags, e) == flags && AtLeast(h, flags, e)
    decreases |e|
  {
    if e == [] {
    } else if e[0] == Semi {
      ScopeFolds(h, flags, e[1..]);
    } else if e[0] == Opens || e[0] == Enters(true) {
      var k: nat :| ClosedAt(e, 1, k);
      assert e[..1] == [e[0]] && [e[0]][1..] == [];
      assert FoldAll(flags, [e[0]]) == Fold(flags, e[0]) == flags + [true];
      ScopeFolds(h, flags + [true], e[1..k]);
      ScopeFolds(h, flags, e[k + 1..]);
      ClosedFolds(h, flags, e, 1, k);
    } else {
      HeadFolds(h, flags, e);
      if e[1] == Semi {
        ScopeFolds(h, flags, e[2..]);
      } else {
        var k: nat :| ClosedAt(e, 2, k);
        ScopeFolds(h, flags + [true], e[2..k]);
        ScopeFolds(h, flags, e[k + 1..]);
        ClosedFolds(h, flags, e, 2, k);
      }
    }
  }

  lemma HeadFolds(h: nat, flags: seq<bool>, e: seq<Event>)
    requires |e| > 1 && e[0] == Enters(false) && h <= |flags|
    ensures e[1] == Semi ==>
              FoldAll(flags, e) == FoldAll(flags, e[2..]) && (AtLeast(h, flags, e) <==> AtLeast(h, flags, e[2..]))
    ensures e[1] == Opens ==> FoldAll(flags, e[..2]) == flags + [true] && AtLeast(h, flags, e[..2])
  {
    assert Front(flags + [false]) == flags && Last(flags + [false]) == false;
    var f := flags + [false];
    assert e[1] == Opens ==> FoldAll(f, [e[1]]) == Fold(f, e[1]) == flags + [true];
    assert e[1] == Opens ==> AtLeast(h, f, [e[1]]) by {
      assert [e[1]][1..] == [];
    }
    assert e[1..][1..] == e[2..] && e[..2] == [e[0], e[1]];
    assert [e[0], e[1]][1..] == [e[1]] && [e[1]][1..] == [];
  }

  // ------------------------------------------------------------- blocks

  function Seen(stack: seq<Info>): (r: seq<bool>)
    ensures |r| == |stack| && forall i :: 0 <= i < |r| ==> r[i] == stack[i].seenOpenBrace
  {
    seq(|stack|, i requires 0 <= i < |stack| => stack[i].seenOpenBrace)
  }

  /** The same block, but for its parentheses, inline assembly and access. */
  predicate SameBlock(a: Info, b: Info) {
    b == a.(openParens := b.openParens, asm := b.asm, access := b.access)
  }

  /** The blocks of base are open, those below the innermost one as they were. */
  predicate Keeps(base: seq<Info>, stack: seq<Info>) {
    && |base| <= |stack|
    && (base != [] ==> stack[..|base| - 1] == Front(base) && SameBlock(Last(base), stack[|base| - 1]))
  }

  /** Changing the innermost of more blocks keeps base. */
  lemma KeepsSetLast(base: seq<Info>, stack: seq<Info>, b: Info)
    requires Keeps(base, stack) && stack != [] && (|stack| > |base| || SameBlock(Last(stack), b))
    ensures Keeps(base, SetLast(stack, b))
  {
    assert |stack| > |base| ==> SetLast(stack, b)[..|base|] == stack[..|base|];
    if base != [] {
      assert SetLast(stack, b)[..|base| - 1] == stack[..|base| - 1];
    }
  }

  lemma KeepsPush(base: seq<Info>, stack: seq<Info>, b: Info)
    requires Keeps(base, stack)
    ensures Keeps(base, stack + [b]) && Seen(stack + [b]) == Seen(stack) + [b.seenOpenBrace]
  {
    if base != [] {
      assert (stack + [b])[..|base| - 1] == stack[..|base| - 1];
    }
  }

  lemma KeepsPop(base: seq<Info>, stack: seq<Info>)
    requires Keeps(base, stack) && |stack| > |base|
    ensures Keeps(base, Front(stack)) && Seen(Front(stack)) == Front(Seen(stack))
  {
    if base != [] {
      assert Front(stack)[..|base| - 1] == stack[..|base| - 1];
    }
  }

  lemma ParensKeep(base: seq<Info>, stack: seq<Info>, line: Line)
    requires Keeps(base, stack)
    ensures Keeps(base, AfterParens(stack, line)) && Seen(AfterParens(stack, line)) == Seen(stack)
  {
    if stack != [] {
      var b := CountParens(Last(stack), Count(line.text, '(') - Count(line.text, ')'), line.startsAsm);
      assert SameBlock(Last(stack), b);
      KeepsSetLast(base, stack, b);
    }
  }

  lemma {:induction false} NamespacesKeep(base: seq<Info>, stack: seq<Info>, num: nat, decls: seq<NamespaceDecl>)
    requires Keeps(base, stack)
    ensures Keeps(base, AfterNamespaces(stack, num, decls))
    ensures Seen(AfterNamespaces(stack, num, decls)) == FoldAll(Seen(stack), NamespaceEvents(decls))
    ensures AtLeast(|base|, Seen(stack), NamespaceEvents(decls))
    decreases |decls|
  {
    if decls != [] {
      var b := NewBlock(Namespace(decls[0].name), num, decls[0].hasBrace);
      KeepsPush(base, stack, b);
      NamespacesKeep(base, stack + [b], num, decls[1..]);
      assert NamespaceEvents(decls)[1..] == NamespaceEvents(decls[1..]);
    }
  }

  lemma CheckBeginKeeps(base: seq<Info>, stack: seq<Info>, line: Line)
    requires Keeps(base, stack) && SeenOpenBrace(base)
    ensures Keeps(base, AfterCheckBegin(stack, line)) && Seen(AfterCheckBegin(stack, line)) == Seen(stack)
  {
    if !SeenOpenBrace(stack) {
      KeepsSetLast(base, stack, Last(stack).(isDerived := true));
    }
  }

  lemma AccessKeeps(base: seq<Info>, stack: seq<Info>, tail: Tail)
    requires Keeps(base, stack)
    ensures Keeps(base, AfterAccess(stack, tail)) && Seen(AfterAccess(stack, tail)) == Seen(stack)
  {
    if stack != [] && tail.access.Some? {
      KeepsSetLast(base, stack, Last(stack).(access := tail.access.value));
    }
  }

  lemma TokenKeeps(base: seq<Info>, stack: seq<Info>, num: nat, t: Token)
    requires Keeps(base, stack) && SeenOpenBrace(base) && |Fold(Seen(stack), EventOf(t))| >= |base|
    ensures Keeps(base, AfterToken(stack, num, t))
    ensures Seen(AfterToken(stack, num, t)) == Fold(Seen(stack), EventOf(t))
  {
    if stack != [] {
      assert Last(Seen(stack)) == Last(stack).seenOpenBrace;
    }
    match t
    case OpenBrace(isExternC, isAsm) =>
      if !SeenOpenBrace(stack) {
        KeepsSetLast(base, stack, Last(stack).(seenOpenBrace := true));
      } else {
        KeepsPush(base, stack, Last(AfterToken(stack, num, t)));
      }
    case SemiOrParen =>
      if !SeenOpenBrace(stack) {
        KeepsPop(base, stack);
      }
    case CloseBrace =>
      if stack != [] {
        KeepsPop(base, stack);
      }
  }

  lemma {:induction false} TokensKeep(base: seq<Info>, stack: seq<Info>, num: nat, tokens: seq<Token>)
    requires Keeps(base, stack) && SeenOpenBrace(base) && AtLeast(|base|, Seen(stack), TokenEvents(tokens))
    ensures Keeps(base, AfterTokens(stack, num, tokens))
    ensures Seen(AfterTokens(stack, num, tokens)) == FoldAll(Seen(stack), TokenEvents(tokens))
    decreases |tokens|
  {
    if tokens != [] {
      assert TokenEvents(tokens)[1..] == TokenEvents(tokens[1..]);
      TokenKeeps(base, stack, num, tokens[0]);
      TokensKeep(base, AfterToken(stack, num, tokens[0]), num, tokens[1..]);
    }
  }

  // ------------------------------------------------------------- lines

  /** A line keeps the blocks of base when its events never leave fewer, and what is open then is what
      the events say. */
  lemma LineKeeps(base: seq<Info>, stack: seq<Info>, line: Line, isArgument: bool)
    requires Keeps(base, stack) && SeenOpenBrace(base)
    requires AtLeast(|base|, Seen(stack), LineEvents(stack, line, isArgument))
    ensures Keeps(base, UpdateStack(stack, line, isArgument))
    ensures Seen(UpdateStack(stack, line, isArgument)) == FoldAll(Seen(stack), LineEvents(stack, line, isArgument))
  {
    var s := BeforeClass(stack, line);
    var tail := TailOf(s, line, isArgument);
    ParensKeep(base, stack, line);
    NamespacesKeep(base, AfterParens(stack, line), line.num, line.namespaces);
    var s1 := AfterClass(s, line, isArgument);
    var head := if AcceptsClass(s, line, isArgument) then [Enters(false)] else [];
    FoldBoth(|base|, Seen(stack), NamespaceEvents(line.namespaces), head + TokenEvents(tail.tokens));
    FoldBoth(|base|, Seen(s), head, TokenEvents(tail.tokens));
    HeadKeeps(base, s, line, isArgument);
    CheckBeginKeeps(base, s1, line);
    AccessKeeps(base, AfterCheckBegin(s1, line), tail);
    TokensKeep(base, AfterAccess(AfterCheckBegin(s1, line), tail), line.num, tail.tokens);
  }

  lemma HeadKeeps(base: seq<Info>, s: seq<Info>, line: Line, isArgument: bool)
    requires Keeps(base, s)
    ensures Keeps(base, AfterClass(s, line, isArgument))
    ensures Seen(AfterClass(s, line, isArgument))
         == FoldAll(Seen(s), if AcceptsClass(s, line, isArgument) then [Enters(false)] else [])
  {
    if AcceptsClass(s, line, isArgument) {
      var d := line.classDecl.value;
      KeepsPush(base, s, NewBlock(Class(d.name, d.isStruct), line.num, false));
      assert [Enters(false)][1..] == [];
    }
  }

  /** What line k of a file does. */
  function EventsAt(file: seq<Line>, k: nat): seq<Event>
    requires k < |file|
  {
    LineEvents(Reading(file, k).stack, file[k], IsArgument(file, k))
  }

  lemma FileLineKeeps(base: seq<Info>, file: seq<Line>, k: nat)
    requires k < |file| && Classify(file[k].text) == Other
    requires SeenOpenBrace(base) && Keeps(base, Reading(file, k).stack)
    requires AtLeast(|base|, Seen(Reading(file, k).stack), EventsAt(file, k))
    ensures Keeps(base, Reading(file, k + 1).stack)
    ensures Seen(Reading(file, k + 1).stack) == FoldAll(Seen(Reading(file, k).stack), EventsAt(file, k))
  {
    NextReading(file, k);
    LineKeeps(base, Reading(file, k).stack, file[k], IsArgument(file, k));
  }

  // ------------------------------------------------------------- many lines

  /** The events e lead from the stack s to the stack s', and keep all blocks they do not leave. */
  ghost predicate Leads(s: seq<Info>, e: seq<Event>, s': seq<Info>) {
    forall base | SeenOpenBrace(base) && Keeps(base, s) && AtLeast(|base|, Seen(s), e) ::
      Keeps(base, s') && Seen(s') == FoldAll(Seen(s), e)
  }

  /** All events of the first n steps. */
  function ConcatFirst(steps: seq<seq<Event>>, n: nat): seq<Event>
    requires n <= |steps|
  {
    if n == 0 then [] else ConcatFirst(steps, n - 1) + steps[n - 1]
  }

  function Concat(steps: seq<seq<Event>>): seq<Event> {
    ConcatFirst(steps, |steps|)
  }

  ghost predicate IsTrace(stacks: seq<seq<Info>>, steps: seq<seq<Event>>) {
    && |stacks| == |steps| + 1
    && forall k :: 0 <= k < |steps| ==> Leads(stacks[k], steps[k], stacks[k + 1])
  }

  lemma LeadsOn(base: seq<Info>, s: seq<Info>, e: seq<Event>, s': seq<Info>)
    requires Leads(s, e, s') && SeenOpenBrace(base) && Keeps(base, s) && AtLeast(|base|, Seen(s), e)
    ensures Keeps(base, s') && Seen(s') == FoldAll(Seen(s), e)
  {
  }

  lemma {:induction false} TraceKeeps(base: seq<Info>, stacks: seq<seq<Info>>, steps: seq<seq<Event>>, n: nat)
    requires IsTrace(stacks, steps) && n <= |steps| && SeenOpenBrace(base) && Keeps(base, stacks[0])
    requires AtLeast(|base|, Seen(stacks[0]), ConcatFirst(steps, n))
    ensures Keeps(base, stacks[n]) && Seen(stacks[n]) == FoldAll(Seen(stacks[0]), ConcatFirst(steps, n))
  {
    if n > 0 {
      FoldBoth(|base|, Seen(stacks[0]), ConcatFirst(steps, n - 1), steps[n - 1]);
      TraceKeeps(base, stacks, steps, n - 1);
      assert Leads(stacks[n - 1], steps[n - 1], stacks[n - 1 + 1]);
      LeadsOn(base, stacks[n - 1], steps[n - 1], stacks[n]);
    }
  }

  /** stacks and steps are what reading the lines of the file from n on goes through. None of these
      lines is a directive. */
  ghost predicate ReadsAs(file: seq<Line>, n: nat, stacks: seq<seq<Info>>, steps: seq<seq<Event>>) {
    && |stacks| == |steps| + 1 && n + |steps| <= |file|
    && (forall i :: 0 <= i <= |steps| ==> stacks[i] == Reading(file, n + i).stack)
    && (forall i :: 0 <= i < |steps| ==>
         Classify(file[n + i].text) == Other && steps[i] == EventsAt(file, n + i))
  }

  lemma LineLeads(file: seq<Line>, k: nat, s: seq<Info>, e: seq<Event>, s': seq<Info>)
    requires k < |file| && Classify(file[k].text) == Other
    requires s == Reading(file, k).stack && e == EventsAt(file, k) && s' == Reading(file, k + 1).stack
    ensures Leads(s, e, s')
  {
    forall base | SeenOpenBrace(base) && Keeps(base, s) && AtLeast(|base|, Seen(s), e)
      ensures Keeps(base, s') && Seen(s') == FoldAll(Seen(s), e)
    {
      FileLineKeeps(base, file, k);
    }
  }

  lemma StepLeads(file: seq<Line>, n: nat, stacks: seq<seq<Info>>, steps: seq<seq<Event>>, i: nat)
    requires ReadsAs(file, n, stacks, steps) && i < |steps|
    ensures Leads(stacks[i], steps[i], stacks[i + 1])
  {
    var s, e, s' := stacks[i], steps[i], stacks[i + 1];
    LineLeads(file, n + i, s, e, s');
  }

  lemma FileIsTrace(file: seq<Line>, n: nat, stacks: seq<seq<Info>>, steps: seq<seq<Event>>)
    requires ReadsAs(file, n, stacks, steps)
    ensures IsTrace(stacks, steps)
  {
    forall i | 0 <= i < |steps|
      ensures Leads(stacks[i], steps[i], stacks[i + 1])
    {
      StepLeads(file, n, stacks, steps, i);
    }
  }

  lemma {:induction false} ScopeOfTrace(stacks: seq<seq<Info>>, steps: seq<seq<Event>>)
    requires IsTrace(stacks, steps) && SeenOpenBrace(stacks[0]) && Scope(Concat(steps))
    ensures |stacks[|steps|]| == |stacks[0]| && Keeps(stacks[0], stacks[|steps|])
  {
    var base := stacks[0];
    ScopeFolds(|base|, Seen(base), Concat(steps));
    TraceKeeps(base, stacks, steps, |steps|);
  }

  lemma BlockFolds(flags: seq<bool>, e: seq<Event>)
    requires flags != [] && SeenTop(flags) && Scope(e)
    ensures AtLeast(|flags| - 1, flags, e + [Closes]) && FoldAll(flags, e + [Closes]) == Front(flags)
  {
    ScopeFolds(|flags| - 1, flags, e);
    FoldBoth(|flags| - 1, flags, e, [Closes]);
    assert [Closes][1..] == [];
  }

  lemma KeepsFront(base: seq<Info>)
    requires base != []
    ensures Keeps(Front(base), base)
  {
    if Front(base) != [] {
      assert base[..|base| - 2] == Front(Front(base));
    }
  }

  lemma SeenIs(stack: seq<Info>)
    requires stack != [] && SeenOpenBrace(stack)
    ensures Seen(stack) != [] && SeenTop(Seen(stack)) && |Seen(stack)| - 1 == |Front(stack)|
  {
  }

  lemma BlockOfTrace(stacks: seq<seq<Info>>, steps: seq<seq<Event>>, e: seq<Event>)
    requires IsTrace(stacks, steps) && Concat(steps) == e + [Closes] && Scope(e)
    requires stacks[0] != [] && SeenOpenBrace(stacks[0]) && SeenOpenBrace(Front(stacks[0]))
    ensures |stacks[|steps|]| == |stacks[0]| - 1 && Keeps(Front(stacks[0]), stacks[|steps|])
  {
    SeenIs(stacks[0]);
    BlockFolds(Seen(stacks[0]), e);
    KeepsFront(stacks[0]);
    TraceKeeps(Front(stacks[0]), stacks, steps, |steps|);
  }

  /** A scope, over any number of lines, leaves exactly the same blocks open; only the innermost one may
      have counted parentheses or seen an access specifier. */
  lemma ScopeRestores(file: seq<Line>, n: nat, stacks: seq<seq<Info>>, steps: seq<seq<Event>>)
    requires ReadsAs(file, n, stacks, steps) && SeenOpenBrace(stacks[0]) && Scope(Concat(steps))
    ensures |stacks[|steps|]| == |stacks[0]| && Keeps(stacks[0], stacks[|steps|])
  {
    FileIsTrace(file, n, stacks, steps);
    ScopeOfTrace(stacks, steps);
  }

  /** A scope and a '}' more end exactly the innermost block. */
  lemma BlockEnds(file: seq<Line>, n: nat, stacks: seq<seq<Info>>, steps: seq<seq<Event>>, e: seq<Event>)
    requires ReadsAs(file, n, stacks, steps) && Concat(steps) == e + [Closes] && Scope(e)
    requires stacks[0] != [] && SeenOpenBrace(stacks[0]) && SeenOpenBrace(Front(stacks[0]))
    ensures |stacks[|steps|]| == |stacks[0]| - 1 && Keeps(Front(stacks[0]), stacks[|steps|])
  {
    FileIsTrace(file, n, stacks, steps);
    BlockOfTrace(stacks, steps, e);
  }

  function Table<T>(count: nat, f: nat --> T): (r: seq<T>)
    requires forall i: nat :: i < count ==> f.requires(i)
    ensures |r| == count && forall i: nat :: i < count ==> r[i] == f(i)
  {
    seq(count, i requires 0 <= i < count => f(i))
  }

  lemma StacksSomehow(file: seq<Line>, n: nat, count: nat) returns (stacks: seq<seq<Info>>)
    requires n + count <= |file|
    ensures |stacks| == count + 1
    ensures forall i :: 0 <= i <= count ==> stacks[i] == Reading(file, n + i).stack
  {
    var states := Table(count + 1, (i: nat) requires n + i <= |file| => Reading(file, n + i));
    stacks := Table(count + 1, (i: nat) requires i < |states| => states[i].stack);
  }

  lemma StepsSomehow(file: seq<Line>, n: nat, count: nat) returns (steps: seq<seq<Event>>)
    requires n + count <= |file|
    ensures |steps| == count && forall i :: 0 <= i < count ==> steps[i] == EventsAt(file, n + i)
  {
    steps := Table(count, (i: nat) requires n + i < |file| => EventsAt(file, n + i));
  }

  /** Every piece of a file without directives is read somehow. */
  lemma ReadsSomehow(file: seq<Line>, n: nat, count: nat)
    returns (stacks: seq<seq<Info>>, steps: seq<seq<Event>>)
    requires n + count <= |file| && forall k :: n <= k < n + count ==> Classify(file[k].text) == Other
    ensures ReadsAs(file, n, stacks, steps) && |steps| == count
  {
    stacks := StacksSomehow(file, n, count);
    steps := StepsSomehow(file, n, count);
  }

  /** A line without declarations does what its tokens say. */
  lemma TokenLine(file: seq<Line>, k: nat)
    requires k < |file| && file[k].classDecl == None && file[k].namespaces == []
    ensures EventsAt(file, k) == TokenEvents(file[k].tail.tokens)
  {
    assert [] + ([] + TokenEvents(file[k].tail.tokens)) == TokenEvents(file[k].tail.tokens);
  }

  /** A function whose '{' and '}' stand on two lines, at the start of a file: afterwards no block is
      open. */
  lemma TwoLines(file: seq<Line>, isExternC: bool, isAsm: bool)
    requires |file| >= 2 && Classify(file[0].text) == Classify(file[1].text) == Other
    requires file[0].classDecl == file[1].classDecl == None && file[0].namespaces == file[1].namespaces == []
    requires file[0].tail.tokens == [OpenBrace(isExternC, isAsm)] && file[1].tail.tokens == [CloseBrace]
    ensures Reading(file, 2).stack == []
  {
    TokenLine(file, 0);
    FirstOpens(file, EventsAt(file, 0));
    TokenLine(file, 1);
    SecondCloses(file, EventsAt(file, 1));
  }

  lemma FirstOpens(file: seq<Line>, e: seq<Event>)
    requires |file| >= 2 && Classify(file[0].text) == Other && e == EventsAt(file, 0) == [Opens]
    ensures Seen(Reading(file, 1).stack) == [true]
  {
    assert [Opens][1..] == [] && Seen([]) == [] && Fold([], Opens) == [true];
    FileLineKeeps([], file, 0);
  }

  lemma SecondCloses(file: seq<Line>, e: seq<Event>)
    requires |file| >= 2 && Classify(file[1].text) == Other && e == EventsAt(file, 1) == [Closes]
    requires Seen(Reading(file, 1).stack) == [true]
    ensures Reading(file, 2).stack == []
  {
    assert [Closes][1..] == [] && Fold([true], Closes) == [];
    FileLineKeeps([], file, 1);
  }
}

/**
 NestingState as it is stored: blocks are objects that lines update in place, and the checkpoints
 of a conditional are deep copies of the stack. Every method refines the operation on values in
 Nesting, because no block of the live stack is ever part of a checkpoint.
 */
module NestingHeap {
  import opened Common
  import opened Nesting
  import TemplateArguments

  /** The lists a block can be in: the live stack, or a checkpoint of the conditional at a level. */
  datatype Owner = Live | BeforeIf(level: nat) | BeforeElse(level: nat)

  class Block {
    /** All fields of the block. */
    var info: Info
    /** The one list this block is in, and its place there. */
    ghost var owner: Owner
    ghost var place: nat

    constructor (info: Info, ghost owner: Owner, ghost place: nat)
      ensures this.info == info && this.owner == owner && this.place == place
    {
      this.info, this.owner, this.place := info, owner, place;
    }

    method CountParentheses(depthChange: int, startsAsm: bool)
      modifies this`info
      ensures info == CountParens(old(info), depthChange, startsAsm)
    {
      info := info.(openParens := info.openParens + depthChange);
      if info.asm == NoAsm || info.asm == EndAsm {
        if depthChange != 0 && info.openParens == 1 && startsAsm {
          info := info.(asm := InsideAsm);
        } else {
          info := info.(asm := NoAsm);
        }
      } else if info.asm == InsideAsm && info.openParens == 0 {
        info := info.(asm := EndAsm);
      }
    }
  }

  /** The list s of blocks has the given values and is the only list its blocks are in. */
  ghost predicate Holds(s: seq<Block>, owner: Owner, values: seq<Info>)
    reads s
  {
    && |s| == |values|
    && forall i :: 0 <= i < |s| ==> s[i].owner == owner && s[i].place == i && s[i].info == values[i]
  }

  method DeepCopy(s: seq<Block>, ghost from: Owner, ghost values: seq<Info>, ghost owner: Owner)
    returns (r: seq<Block>)
    requires Holds(s, from, values)
    ensures Holds(r, owner, values) && fresh(r)
  {
    r := [];
    for i := 0 to |s|
      invariant |r| == i && fresh(r)
      invariant Holds(s, from, values) && Holds(r, owner, values[..i])
    {
      var b := new Block(s[i].info, owner, i);
      r := r + [b];
    }
  }

  /** The checkpoints of one open conditional. */
  datatype Checkpoint = Checkpoint(beforeIf: seq<Block>, beforeElse: seq<Block>, seenElse: bool)

  /** The checkpoint of the conditional at a level has the value m. */
  ghost predicate HoldsBoth(c: Checkpoint, level: nat, m: Conditional)
    reads c.beforeIf, c.beforeElse
  {
    && Holds(c.beforeIf, BeforeIf(level), m.beforeIf)
    && Holds(c.beforeElse, BeforeElse(level), m.beforeElse)
    && c.seenElse == m.seenElse
  }

  class NestingState {
    var stack: seq<Block>
    var conditionals: seq<Checkpoint>
    ghost var model: State
    ghost var repr: set<object>

    /** The fields represent the model, and no block is in two lists. */
    ghost predicate Valid()
      reads this, repr
    {
      && this in repr
      && (forall b :: b in stack ==> b in repr)
      && (forall c, b :: c in conditionals && b in c.beforeIf ==> b in repr)
      && (forall c, b :: c in conditionals && b in c.beforeElse ==> b in repr)
      && Holds(stack, Live, model.stack)
      && |conditionals| == |model.conditionals|
      && (forall i :: 0 <= i < |conditionals| ==>
        HoldsBoth(conditionals[i], i, model.conditionals[i]))
    }

    constructor ()
      ensures Valid() && fresh(repr) && model == State([], [])
    {
      stack, conditionals := [], [];
      model := State([], []);
      repr := {this};
    }

    /** #if: the stack is saved in a checkpoint. */
    method SeeIf()
      requires Valid()
      modifies this
      ensures Valid() && fresh(repr - old(repr)) && model == Preprocess(old(model), If)
    {
      var copy := DeepCopy(stack, Live, model.stack, BeforeIf(|conditionals|));
      conditionals := conditionals + [Checkpoint(copy, [], false)];
      model := model.(conditionals := model.conditionals + [Conditional(model.stack, [], false)]);
      repr := repr + set b | b in copy;
    }

    /** The first #else or #elif keeps the stack; every one brings back the stack before the #if. */
    method SeeElse()
      requires Valid()
      modifies this
      ensures Valid() && fresh(repr - old(repr)) && model == Preprocess(old(model), Else)
    {
      if conditionals != [] {
        if !conditionals[|conditionals| - 1].seenElse {
          KeepForEndif();
        }
        Rewind();
      }
    }

    /** The live stack becomes a copy of the one before the #if. */
    method Rewind()
      requires Valid() && conditionals != []
      modifies this
      ensures Valid() && fresh(repr - old(repr))
      ensures model == old(model).(stack := Last(old(model.conditionals)).beforeIf)
    {
      var top := |conditionals| - 1;
      ghost var values := model.conditionals[top].beforeIf;
      var copy := DeepCopy(conditionals[top].beforeIf, BeforeIf(top), values, Live);
      stack := copy;
      model := model.(stack := values);
      repr := repr + set b | b in copy;
    }

    method KeepForEndif()
      requires Valid() && conditionals != []
      modifies this
      ensures Valid() && fresh(repr - old(repr)) && conditionals != []
      ensures model == old(model).(conditionals :=
                SetLast(old(model.conditionals),
                        Last(old(model.conditionals)).(beforeElse := old(model.stack), seenElse := true)))
    {
      var top := |conditionals| - 1;
      var copy := DeepCopy(stack, Live, model.stack, BeforeElse(top));
      conditionals := conditionals[top := conditionals[top].(beforeElse := copy, seenElse := true)];
      model := model.(conditionals := SetLast(model.conditionals,
        Last(model.conditionals).(beforeElse := model.stack, seenElse := true)));
      repr := repr + set b | b in copy;
    }

    /** #endif: the stack kept at the first #else is used as it is, without a copy. */
    method SeeEndif()
      requires Valid()
      modifies this, repr
      ensures Valid() && repr == old(repr) && model == Preprocess(old(model), Endif)
    {
      if conditionals != [] {
        var c := conditionals[|conditionals| - 1];
        ghost var m := Last(model.conditionals);
        conditionals := conditionals[..|conditionals| - 1];
        model := model.(conditionals := Front(model.conditionals));
        if c.seenElse {
          TakeBack(c.beforeElse, |conditionals|, m.beforeElse);
        }
      }
    }

    /** A list that its checkpoint has given up becomes the live stack. */
    method TakeBack(kept: seq<Block>, ghost level: nat, ghost values: seq<Info>)
      requires Valid() && level == |conditionals|
      requires Holds(kept, BeforeElse(level), values) && forall b :: b in kept ==> b in repr
      modifies this, repr
      ensures Valid() && repr == old(repr) && model == old(model).(stack := values)
    {
      forall b | b in kept {
        b.owner := Live;
      }
      stack := kept;
      model := model.(stack := values);
    }

    method UpdatePreprocessor(text: string)
      requires Valid()
      modifies this, repr
      ensures Valid() && fresh(repr - old(repr)) && model == Preprocess(old(model), Classify(text))
    {
      match Classify(text)
      case If => SeeIf();
      case Else => SeeElse();
      case Endif => SeeEndif();
      case Other =>
    }

    // ----------------------------------------------------------- the rest of Update

    /** The innermost block counts parentheses and follows inline assembly. */
    method CountParentheses(line: Line)
      requires Valid()
      modifies this, repr
      ensures Valid() && repr == old(repr)
      ensures model == old(model).(stack := AfterParens(old(model.stack), line))
    {
      if stack != [] {
        stack[|stack| - 1].CountParentheses(Count(line.text, '(') - Count(line.text, ')'), line.startsAsm);
        model := model.(stack := AfterParens(model.stack, line));
      }
    }

    method Push(v: Info)
      requires Valid()
      modifies this
      ensures Valid() && fresh(repr - old(repr)) && model == old(model).(stack := old(model.stack) + [v])
      ensures conditionals == old(conditionals)
    {
      var b := new Block(v, Live, |stack|);
      stack := stack + [b];
      model := model.(stack := model.stack + [v]);
      repr := repr + {b};
    }

    method Pop()
      requires Valid() && stack != []
      modifies this
      ensures Valid() && repr == old(repr) && model == old(model).(stack := Front(old(model.stack)))
    {
      stack := stack[..|stack| - 1];
      model := model.(stack := Front(model.stack));
    }

    method OpenNamespaces(line: Line)
      requires Valid()
      modifies this, repr
      ensures Valid() && fresh(repr - old(repr))
      ensures model == old(model).(stack := AfterNamespaces(old(model.stack), line.num, line.namespaces))
    {
      var decls := line.namespaces;
      while decls != []
        invariant Valid() && fresh(repr - old(repr))
        invariant model.conditionals == old(model.conditionals)
        invariant AfterNamespaces(model.stack, line.num, decls)
               == AfterNamespaces(old(model.stack), line.num, line.namespaces)
        decreases |decls|
      {
        Push(NewBlock(Namespace(decls[0].name), line.num, decls[0].hasBrace));
        decls := decls[1..];
      }
    }

    /** A class head opens a block, unless the look-ahead takes it for an argument. */
    method OpenClass(file: seq<Line>, n: nat) returns (tail: Tail)
      requires Valid() && n < |file|
      modifies this, repr
      ensures Valid() && fresh(repr - old(repr))
      ensures model == old(model).(stack := AfterClass(old(model.stack), file[n], IsArgument(file, n)))
      ensures tail == TailOf(old(model.stack), file[n], IsArgument(file, n))
    {
      var line := file[n];
      tail := line.tail;
      if line.classDecl.Some? && (stack == [] || stack[|stack| - 1].info.openParens == 0) {
        var d := line.classDecl.value;
        var isArgument := TemplateArguments.InTemplateArgumentList(Texts(file), n, d.end);
        if !isArgument {
          Push(NewBlock(Class(d.name, d.isStruct), line.num, false));
          tail := d.tail;
        }
      }
    }

    method CheckBegin(line: Line)
      requires Valid()
      modifies this, repr
      ensures Valid() && repr == old(repr)
      ensures model == old(model).(stack := AfterCheckBegin(old(model.stack), line))
    {
      if stack != [] && !stack[|stack| - 1].info.seenOpenBrace {
        var top := stack[|stack| - 1];
        if top.info.kind.Class? && HasBareColon(line.text) {
          top.info := top.info.(isDerived := true);
          model := model.(stack := AfterCheckBegin(model.stack, line));
        }
      }
    }

    method SetAccess(tail: Tail)
      requires Valid()
      modifies this, repr
      ensures Valid() && repr == old(repr)
      ensures model == old(model).(stack := AfterAccess(old(model.stack), tail))
    {
      if stack != [] && stack[|stack| - 1].info.kind.Class? && tail.access.Some? {
        stack[|stack| - 1].info := stack[|stack| - 1].info.(access := tail.access.value);
        model := model.(stack := AfterAccess(model.stack, tail));
      }
    }

    /** The head of the innermost block is complete. */
    method MarkOpenBrace()
      requires Valid() && stack != []
      modifies this, repr
      ensures Valid() && repr == old(repr)
      ensures model == old(model).(stack := SetLast(old(model.stack), Last(old(model.stack)).(seenOpenBrace := true)))
    {
      stack[|stack| - 1].info := stack[|stack| - 1].info.(seenOpenBrace := true);
      model := model.(stack := SetLast(model.stack, Last(model.stack).(seenOpenBrace := true)));
    }

    method ConsumeToken(num: nat, token: Token)
      requires Valid()
      modifies this, repr
      ensures Valid() && fresh(repr - old(repr))
      ensures model == old(model).(stack := AfterToken(old(model.stack), num, token))
    {
      var seen := stack == [] || stack[|stack| - 1].info.seenOpenBrace;
      match token
      case OpenBrace(isExternC, isAsm) =>
        if !seen {
          MarkOpenBrace();
        } else if isExternC {
          Push(NewBlock(ExternC, num, true));
        } else {
          var b := NewBlock(PlainBlock, num, true);
          Push(if isAsm then b.(asm := BlockAsm) else b);
        }
      case SemiOrParen =>
        if !seen {
          Pop();
        }
      case CloseBrace =>
        if stack != [] {
          Pop();
        }
    }

    method ConsumeTokens(num: nat, tokens0: seq<Token>)
      requires Valid()
      modifies this, repr
      ensures Valid() && fresh(repr - old(repr))
      ensures model == old(model).(stack := AfterTokens(old(model.stack), num, tokens0))
    {
      var tokens := tokens0;
      while tokens != []
        invariant Valid() && fresh(repr - old(repr))
        invariant model.conditionals == old(model.conditionals)
        invariant AfterTokens(model.stack, num, tokens) == AfterTokens(old(model.stack), num, tokens0)
        decreases |tokens|
      {
        ConsumeToken(num, tokens[0]);
        tokens := tokens[1..];
      }
    }

    /** The declarations at the start of a line. */
    method Declarations(file: seq<Line>, n: nat) returns (tail: Tail)
      requires Valid() && n < |file|
      modifies this, repr
      ensures Valid() && fresh(repr - old(repr))
      ensures var s, v := BeforeClass(old(model.stack), file[n]), IsArgument(file, n);
              model == old(model).(stack := AfterClass(s, file[n], v)) && tail == TailOf(s, file[n], v)
    {
      CountParentheses(file[n]);
      OpenNamespaces(file[n]);
      tail := OpenClass(file, n);
    }

    /** What follows the declarations. */
    method Body(line: Line, tail: Tail)
      requires Valid()
      modifies this, repr
      ensures Valid() && fresh(repr - old(repr))
      ensures model == old(model).(stack :=
                AfterTokens(AfterAccess(AfterCheckBegin(old(model.stack), line), tail), line.num, tail.tokens))
    {
      CheckBegin(line);
      SetAccess(tail);
      ConsumeTokens(line.num, tail.tokens);
    }

    /** Update: line n of a file. */
    method UpdateLine(file: seq<Line>, n: nat)
      requires Valid() && n < |file|
      modifies this, repr
      ensures Valid() && fresh(repr - old(repr))
      ensures model == Update(old(model), file[n], IsArgument(file, n))
    {
      UpdatePreprocessor(file[n].text);
      var tail := Declarations(file, n);
      Body(file[n], tail);
    }

    /** The next line of a file that has been read so far. */
    method ReadLine(file: seq<Line>, n: nat) returns (next: nat)
      requires Valid() && n < |file| && model == Reading(file, n)
      modifies this, repr
      ensures next == n + 1
      ensures Valid() && fresh(repr - old(repr)) && model == Reading(file, next)
    {
      UpdateLine(file, n);
      NextReading(file, n);
      next := n + 1;
    }

    /** All lines of a file, from the start. */
    method UpdateFile(file: seq<Line>)
      requires Valid() && model == State([], [])
      modifies this, repr
      ensures Valid() && fresh(repr - old(repr)) && model == Reading(file, |file|)
    {
      var n := 0;
      while n < |file|
        invariant n <= |file| && Valid() && fresh(repr - old(repr)) && model == Reading(file, n)
      {
        n := ReadLine(file, n);
      }
    }
  }
}

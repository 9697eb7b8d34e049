/**
 Files without their else-branches.
 */
module Erasing {
  import opened Common
  import opened Nesting

  /** For every open conditional, outermost first: are we past its first #else or #elif? */
  function Flags(flags: seq<bool>, d: Directive): seq<bool> {
    match d
    case If => flags + [false]
    case Else => if flags == [] then flags else SetLast(flags, true)
    case Endif => if flags == [] then flags else Front(flags)
    case Other => flags
  }

  function FlagsAfter(flags: seq<bool>, lines: seq<Line>): seq<bool>
    decreases |lines|
  {
    if lines == [] then flags else FlagsAfter(Flags(flags, Classify(lines[0].text)), lines[1..])
  }

  /** The lines that are in no else-branch. An #else or #elif belongs to the branch it starts, and
      the #endif does not; an #else without #if starts nothing. */
  function Erase(flags: seq<bool>, lines: seq<Line>): seq<Line>
    decreases |lines|
  {
    if lines == [] then []
    else
      var flags' := Flags(flags, Classify(lines[0].text));
      (if true in flags' then [] else [lines[0]]) + Erase(flags', lines[1..])
  }

  // ------------------------------------------------------------- what Erase does

  /** The conditionals in lines are well nested, depth of them being open at the start. With
      inBranch, an #else of the conditional around the lines is allowed too. */
  predicate WellNested(lines: seq<Line>, depth: nat, inBranch: bool)
    decreases |lines|
  {
    if lines == [] then depth == 0
    else
      match Classify(lines[0].text)
      case If => WellNested(lines[1..], depth + 1, inBranch)
      case Else => (depth > 0 || inBranch) && WellNested(lines[1..], depth, inBranch)
      case Endif => depth > 0 && WellNested(lines[1..], depth - 1, inBranch)
      case Other => WellNested(lines[1..], depth, inBranch)
  }

  lemma {:induction false} EraseConcat(flags: seq<bool>, a: seq<Line>, b: seq<Line>)
    ensures Erase(flags, a + b) == Erase(flags, a) + Erase(FlagsAfter(flags, a), b)
    ensures FlagsAfter(flags, a + b) == FlagsAfter(FlagsAfter(flags, a), b)
    decreases |a|
  {
    if a == [] {
      assert a + b == b;
    } else {
      assert (a + b)[1..] == a[1..] + b;
      EraseConcat(Flags(flags, Classify(a[0].text)), a[1..], b);
    }
  }

  /** Well-nested lines leave the conditionals around them as they are. */
  lemma {:induction false} NestedFlags(flags: seq<bool>, lines: seq<Line>, depth: nat)
    requires |flags| >= depth && WellNested(lines, depth, false)
    ensures FlagsAfter(flags, lines) == flags[..|flags| - depth]
    decreases |lines|
  {
    if lines != [] {
      var flags' := Flags(flags, Classify(lines[0].text));
      match Classify(lines[0].text) {
        case If =>
          NestedFlags(flags', lines[1..], depth + 1);
          assert flags'[..|flags'| - (depth + 1)] == flags[..|flags| - depth];
        case Else =>
          NestedFlags(flags', lines[1..], depth);
          assert flags'[..|flags'| - depth] == flags[..|flags| - depth];
        case Endif =>
          NestedFlags(flags', lines[1..], depth - 1);
          assert flags'[..|flags'| - (depth - 1)] == flags[..|flags| - depth];
        case Other =>
          NestedFlags(flags', lines[1..], depth);
      }
    }
  }

  /** All of an else-branch is erased, up to the #endif. */
  lemma {:induction false} BranchErased(flags: seq<bool>, lines: seq<Line>, depth: nat)
    requires |flags| > depth && flags[|flags| - 1 - depth] && WellNested(lines, depth, true)
    ensures Erase(flags, lines) == []
    ensures FlagsAfter(flags, lines) == flags[..|flags| - depth]
    decreases |lines|
  {
    if lines != [] {
      var flags' := Flags(flags, Classify(lines[0].text));
      var k := |flags| - 1 - depth;
      assert |flags'| > k && flags'[k] && flags'[..k + 1] == flags[..k + 1];
      BranchErased(flags', lines[1..], |flags'| - 1 - k);
    }
  }

  /** Erasing a conditional keeps its #if, erases inside the first branch, drops the first #else
      or #elif with everything up to the #endif, and keeps the #endif. */
  lemma EraseConditional(flags: seq<bool>, ifLine: Line, body: seq<Line>, elseLine: Line,
                         branch: seq<Line>, endLine: Line)
    requires true !in flags
    requires Classify(ifLine.text) == If && Classify(elseLine.text) == Else && Classify(endLine.text) == Endif
    requires WellNested(body, 0, false) && WellNested(branch, 0, true)
    ensures Erase(flags, [ifLine] + body + [elseLine] + branch + [endLine])
         == [ifLine] + Erase(flags + [false], body) + [endLine]
    ensures FlagsAfter(flags, [ifLine] + body + [elseLine] + branch + [endLine]) == flags
  {
    var past := flags + [true];
    var head := [ifLine] + body + [elseLine];
    var kept := [ifLine] + Erase(flags + [false], body);
    EraseHead(flags, ifLine, body, elseLine);
    BranchErased(past, branch, 0);
    EraseAppend(flags, head, kept, branch, past, [], past);
    EndLine(flags, endLine);
    EraseAppend(flags, head + branch, kept, [endLine], past, [endLine], flags);
  }

  lemma EraseHead(flags: seq<bool>, ifLine: Line, body: seq<Line>, elseLine: Line)
    requires true !in flags && WellNested(body, 0, false)
    requires Classify(ifLine.text) == If && Classify(elseLine.text) == Else
    ensures var head := [ifLine] + body + [elseLine];
            Erase(flags, head) == [ifLine] + Erase(flags + [false], body)
            && FlagsAfter(flags, head) == flags + [true]
  {
    var open := flags + [false];
    var kept := Erase(open, body);
    EraseOne(flags, ifLine);
    NestedFlags(open, body, 0);
    EraseAppend(flags, [ifLine], [ifLine], body, open, kept, open);
    ElseLine(flags, elseLine);
    EraseAppend(flags, [ifLine] + body, [ifLine] + kept, [elseLine], open, [], flags + [true]);
  }

  lemma EraseAppend(flags: seq<bool>, a: seq<Line>, keptA: seq<Line>, b: seq<Line>, flagsA: seq<bool>,
                    keptB: seq<Line>, flagsB: seq<bool>)
    requires Erase(flags, a) == keptA && FlagsAfter(flags, a) == flagsA
    requires Erase(flagsA, b) == keptB && FlagsAfter(flagsA, b) == flagsB
    ensures Erase(flags, a + b) == (if keptB == [] then keptA else keptA + keptB)
    ensures FlagsAfter(flags, a + b) == flagsB
  {
    EraseConcat(flags, a, b);
  }

  lemma ElseLine(flags: seq<bool>, line: Line)
    requires Classify(line.text) == Else
    ensures Erase(flags + [false], [line]) == [] && FlagsAfter(flags + [false], [line]) == flags + [true]
  {
    EraseOne(flags + [false], line);
    assert SetLast(flags + [false], true) == flags + [true];
  }

  lemma EndLine(flags: seq<bool>, line: Line)
    requires Classify(line.text) == Endif && true !in flags
    ensures Erase(flags + [true], [line]) == [line] && FlagsAfter(flags + [true], [line]) == flags
  {
    EraseOne(flags + [true], line);
    assert Front(flags + [true]) == flags;
  }

  lemma EraseOne(flags: seq<bool>, line: Line)
    ensures var flags' := Flags(flags, Classify(line.text));
            FlagsAfter(flags, [line]) == flags' && Erase(flags, [line]) == if true in flags' then [] else [line]
  {
    assert [line][1..] == [];
  }

  /** What is kept of a file up to line n is the start of all that is kept. */
  lemma ErasePrefix(file: seq<Line>, n: nat)
    requires n <= |file|
    ensures Erase([], file) == Erase([], file[..n]) + Erase(FlagsAfter([], file[..n]), file[n..])
  {
    Cut(file, n);
    EraseConcat([], file[..n], file[n..]);
  }

  lemma Cut(file: seq<Line>, n: nat)
    requires n <= |file|
    ensures file[..n] + file[n..] == file
  {
  }

  lemma EraseNext(file: seq<Line>, n: nat)
    requires n < |file|
    ensures var flags := FlagsAfter([], file[..n + 1]);
            && flags == Flags(FlagsAfter([], file[..n]), Classify(file[n].text))
            && Erase([], file[..n + 1]) == Erase([], file[..n]) + if true in flags then [] else [file[n]]
  {
    assert file[..n + 1] == file[..n] + [file[n]];
    EraseConcat([], file[..n], [file[n]]);
    EraseOne(FlagsAfter([], file[..n]), file[n]);
  }

  // ------------------------------------------------------------- what comes before an else-branch

  /** The lines up to the next one in an else-branch. */
  function Window(flags: seq<bool>, lines: seq<Line>): seq<Line>
    decreases |lines|
  {
    if lines == [] then []
    else
      var flags' := Flags(flags, Classify(lines[0].text));
      if true in flags' then [] else [lines[0]] + Window(flags', lines[1..])
  }

  lemma {:induction false} WindowIs(flags: seq<bool>, lines: seq<Line>)
    ensures var w := Window(flags, lines);
            && |w| <= |lines| && lines[..|w|] == w && Erase(flags, w) == w == Window(flags, w)
            && (w != [] ==> true !in FlagsAfter(flags, w))
            && (|w| < |lines| ==> true in Flags(FlagsAfter(flags, w), Classify(lines[|w|].text)))
    decreases |lines|
  {
    if lines != [] {
      var flags' := Flags(flags, Classify(lines[0].text));
      if true !in flags' {
        var w := Window(flags', lines[1..]);
        WindowIs(flags', lines[1..]);
        assert ([lines[0]] + w)[1..] == w;
        assert lines[..1 + |w|] == [lines[0]] + lines[1..][..|w|];
      }
    }
  }

  /** The kept lines start with the window. */
  lemma WindowKept(flags: seq<bool>, lines: seq<Line>)
    ensures var w := Window(flags, lines);
            && |w| <= |lines| && lines == w + lines[|w|..]
            && Erase(flags, lines) == w + Erase(FlagsAfter(flags, w), lines[|w|..])
  {
    var w := Window(flags, lines);
    WindowIs(flags, lines);
    EraseConcat(flags, w, lines[|w|..]);
  }

  // ------------------------------------------------------------- what else-branches leave to see

  /** The kept lines, each with whether an else-branch comes right after it. */
  function Outline(flags: seq<bool>, lines: seq<Line>): seq<(Line, bool)>
    decreases |lines|
  {
    if lines == [] then []
    else
      var flags' := Flags(flags, Classify(lines[0].text));
      (if true in flags' then [] else [(lines[0], StartsErased(flags', lines[1..]))]) + Outline(flags', lines[1..])
  }

  predicate StartsErased(flags: seq<bool>, lines: seq<Line>) {
    lines != [] && true in Flags(flags, Classify(lines[0].text))
  }

  function KeptLines(outline: seq<(Line, bool)>): (r: seq<Line>)
    ensures |r| == |outline| && forall i :: 0 <= i < |r| ==> r[i] == outline[i].0
  {
    seq(|outline|, i requires 0 <= i < |outline| => outline[i].0)
  }

  lemma {:induction false} OutlineKeeps(flags: seq<bool>, lines: seq<Line>)
    ensures KeptLines(Outline(flags, lines)) == Erase(flags, lines)
    decreases |lines|
  {
    if lines != [] {
      OutlineKeeps(Flags(flags, Classify(lines[0].text)), lines[1..]);
    }
  }

  lemma TakeFirst(flags: seq<bool>, lines: seq<Line>, n: nat)
    requires 0 < n <= |lines|
    ensures var flags' := Flags(flags, Classify(lines[0].text));
            && lines[1..][n - 1..] == lines[n..]
            && FlagsAfter(flags, lines[..n]) == FlagsAfter(flags', lines[1..][..n - 1])
            && Erase(flags, lines[..n])
               == (if true in flags' then [] else [lines[0]]) + Erase(flags', lines[1..][..n - 1])
  {
    assert lines[..n][1..] == lines[1..][..n - 1];
  }

  /** The rest of the outline is the outline of the rest. */
  lemma {:induction false} OutlineRest(flags: seq<bool>, lines: seq<Line>, n: nat)
    requires n <= |lines|
    ensures var k := |Erase(flags, lines[..n])|;
            && k <= |Outline(flags, lines)|
            && Outline(flags, lines)[k..] == Outline(FlagsAfter(flags, lines[..n]), lines[n..])
    decreases n
  {
    if n > 0 {
      var flags' := Flags(flags, Classify(lines[0].text));
      OutlineRest(flags', lines[1..], n - 1);
      TakeFirst(flags, lines, n);
    }
  }

  lemma OutlineFirst(flags: seq<bool>, line: Line, x: seq<Line>, y: seq<Line>)
    requires x != [] && y != [] && x[0] == y[0]
    requires var flags' := Flags(flags, Classify(line.text)); Outline(flags', x) == Outline(flags', y)
    ensures Outline(flags, [line] + x) == Outline(flags, [line] + y)
  {
    assert ([line] + x)[1..] == x && ([line] + y)[1..] == y;
  }

  lemma FirstOfBoth(a: seq<Line>, b: seq<Line>)
    requires a != []
    ensures a + b == [a[0]] + (a[1..] + b)
  {
  }

  /** Lines with the same start and the same outline can stand for each other. */
  lemma {:induction false} OutlineReplaced(flags: seq<bool>, a: seq<Line>, b: seq<Line>, b': seq<Line>)
    requires b != [] && b' != [] && b[0] == b'[0]
    requires Outline(FlagsAfter(flags, a), b) == Outline(FlagsAfter(flags, a), b')
    ensures Outline(flags, a + b) == Outline(flags, a + b')
    decreases |a|
  {
    if a == [] {
      assert a + b == b && a + b' == b';
    } else {
      FirstOfBoth(a, b);
      FirstOfBoth(a, b');
      OutlineReplaced(Flags(flags, Classify(a[0].text)), a[1..], b, b');
      OutlineFirst(flags, a[0], a[1..] + b, a[1..] + b');
    }
  }

  /** The lines of an outline up to the next else-branch. */
  function WindowOf(outline: seq<(Line, bool)>): seq<Line> {
    if outline == [] then []
    else [outline[0].0] + if outline[0].1 then [] else WindowOf(outline[1..])
  }

  predicate NoBranch(outline: seq<(Line, bool)>) {
    forall i :: 0 <= i < |outline| ==> !outline[i].1
  }

  lemma WindowOfFirst(x: (Line, bool), rest: seq<(Line, bool)>)
    ensures WindowOf([x] + rest) == [x.0] + if x.1 then [] else WindowOf(rest)
    ensures NoBranch([x] + rest) <==> !x.1 && NoBranch(rest)
  {
    var o := [x] + rest;
    assert o[1..] == rest && o[0] == x;
    assert forall i :: 0 <= i < |rest| ==> rest[i] == o[i + 1];
  }

  lemma {:induction false} OutlineWindow(flags: seq<bool>, lines: seq<Line>)
    requires !StartsErased(flags, lines)
    ensures WindowOf(Outline(flags, lines)) == Window(flags, lines)
    ensures NoBranch(Outline(flags, lines)) <==> Window(flags, lines) == lines
    decreases |lines|
  {
    if lines != [] {
      var flags' := Flags(flags, Classify(lines[0].text));
      var rest := Outline(flags', lines[1..]);
      WindowOfFirst((lines[0], StartsErased(flags', lines[1..])), rest);
      assert lines == [lines[0]] + lines[1..];
      if !StartsErased(flags', lines[1..]) {
        OutlineWindow(flags', lines[1..]);
      }
    }
  }
}

/**
 When a pushed '<' has a match: the forward scanner, which keeps tentative '<' on one stack with the
 real brackets, agrees with a reader that counts '<' outside brackets and matches brackets plainly.
 */
module TemplateCount {
  import opened BracketScan
  import opened BracketText
  import opened BracketTheorems
  import opened Common
  import opened TemplateArguments

  /** How many '<' are open outside brackets, and the open brackets. */
  datatype Count = Count(angles: nat, brackets: seq<char>)

  datatype CountAct = Next(count: Count) | Fail | Match

  /** The '>' at i belongs to "->" or to an operator name. */
  predicate IsOperatorEnd(line: string, i: nat)
    requires i < |line|
  {
    i > 0 && (line[i - 1] == '-' || EndsInOperator(line[..i - 1]))
  }

  /** Which '<' are pushed and which '>' count, in characters. */
  lemma AnglesAre(line: string, i: nat)
    requires i < |line|
    ensures IsPushed(line, i)
       <==> line[i] == '<' && (i == 0 || line[i - 1] != '<') && !NamesOperator(line[..i])
    ensures IsOperatorEnd(line, i)
       <==> i > 0 && (line[i - 1] == '-' || NamesOperator(line[..i - 1]))
  {
    OperatorIs(line[..i]);
    if i > 0 {
      OperatorIs(line[..i - 1]);
    }
  }

  /** Outside brackets a pushed '<' counts up, and '>' and the second '<' of a shift count down; only
      the '>' that comes to 0 is a match. A ';' or a closing bracket there fails. Inside brackets only
      brackets count. */
  function CountStep(line: string, i: nat, c: Count): CountAct
    requires i < |line| && c.angles > 0
  {
    if c.brackets != [] then
      match PlainStep(line[i], c.brackets)
      case Go(s) => Next(c.(brackets := s))
      case Hit => Next(c.(brackets := []))
      case Stop => Fail
    else if IsOpen(line[i]) then Next(c.(brackets := [line[i]]))
    else if IsClose(line[i]) || line[i] == ';' then Fail
    else if IsPushed(line, i) then Next(c.(angles := c.angles + 1))
    else if line[i] == '<' && i > 0 && line[i - 1] == '<' then
      if c.angles == 1 then Fail else Next(c.(angles := c.angles - 1))
    else if line[i] == '>' && !IsOperatorEnd(line, i) then
      if c.angles == 1 then Match else Next(c.(angles := c.angles - 1))
    else Next(c)
  }

  /** The position just past the match, from the character i of line n on. */
  function CountLines(lines: seq<string>, n: nat, i: nat, c: Count): Position
    requires n < |lines| && i <= |lines[n]| && c.angles > 0
    decreases |lines| - n, if n < |lines| then |lines[n]| - i else 0
  {
    if i == |lines[n]| then
      if n + 1 < |lines| then CountLines(lines, n + 1, 0, c) else NoMatch
    else
      match CountStep(lines[n], i, c)
      case Next(c') => if c'.angles > 0 then CountLines(lines, n, i + 1, c') else NoMatch
      case Match => At(n, i + 1)
      case Fail => NoMatch
  }

  // ------------------------------------------------------------- one stack for both

  /** k angle brackets, '<' for the forward scanner and '>' for the backward one. */
  function Angles(angle: char, k: nat): (s: seq<char>)
    ensures |s| == k && forall i :: 0 <= i < k ==> s[i] == angle
  {
    seq(k, _ => angle)
  }

  /** The part of the stack that started from a real bracket. */
  ghost predicate Above(angle: char, r: seq<char>, brackets: seq<char>) {
    if brackets == [] then r == [] else Rooted(r, angle) && Strip(r, angle) == brackets
  }

  ghost predicate Stands(angle: char, s: seq<char>, c: Count) {
    c.angles > 0 && exists r :: s == Angles(angle, c.angles) + r && Above(angle, r, c.brackets)
  }

  lemma {:induction false} DropTopAbove(angle: char, a: seq<char>, r: seq<char>)
    requires Rooted(r, angle)
    ensures DropTop(a + r, angle) == a + DropTop(r, angle) && DropTop(r, angle) != []
  {
    assert Last(a + r) == Last(r) && Front(a + r) == a + Front(r);
    if Last(r) == angle {
      DropTopAbove(angle, a, Front(r));
    }
  }

  /** What is below a real bracket plays no part until that bracket is closed. */
  lemma StepAbove(line: string, i: nat, a: seq<char>, r: seq<char>)
    requires i < |line| && Rooted(r, '<') && a != []
    ensures ForwardStep(line, i, a + r)
         == match ForwardStep(line, i, r)
            case Go(r') => Go(a + r')
            case Hit => Go(a)
            case Stop => Stop
  {
    var c := line[i];
    assert Last(a + r) == Last(r) && Front(a + r) == a + Front(r);
    if IsOpen(c) || c == '<' {
      assert (a + r) + [c] == a + (r + [c]);
    } else if IsClose(c) || c == ';' {
      DropTopAbove('<', a, r);
      var d := DropTop(r, '<');
      assert Last(a + d) == Last(d) && Front(a + d) == a + Front(d);
    }
  }

  lemma StandsIs(angle: char, s: seq<char>, r: seq<char>, c: Count)
    requires c.angles > 0 && s == Angles(angle, c.angles) + r && Above(angle, r, c.brackets)
    ensures Stands(angle, s, c)
  {
  }

  ghost predicate SameCount(angle: char, x: Act, y: CountAct) {
    match x
    case Go(s) => y.Next? && Stands(angle, s, y.count)
    case Stop => y == Fail
    case Hit => y == Match
  }

  lemma InsideBrackets(line: string, i: nat, r: seq<char>, c: Count)
    requires i < |line| && c.angles > 0 && c.brackets != [] && Above('<', r, c.brackets)
    ensures SameCount('<', ForwardStep(line, i, Angles('<', c.angles) + r), CountStep(line, i, c))
  {
    var a := Angles('<', c.angles);
    StepAbove(line, i, a, r);
    ForwardStepTransparent(line, i, r);
    match ForwardStep(line, i, r)
    case Go(r') =>
      StripRooted(r', '<');
      StandsIs('<', a + r', r', c.(brackets := Strip(r', '<')));
    case Hit =>
      StandsIs('<', a, [], c.(brackets := []));
      assert a + [] == a;
    case Stop =>
  }

  lemma {:induction false} DropAngles(angle: char, k: nat)
    ensures DropTop(Angles(angle, k), angle) == []
  {
    if k > 0 {
      assert Front(Angles(angle, k)) == Angles(angle, k - 1);
      DropAngles(angle, k - 1);
    }
  }

  /** One angle bracket more or less. */
  lemma AnglesStand(angle: char, k: nat)
    requires k > 0
    ensures Stands(angle, Angles(angle, k), Count(k, []))
    ensures Last(Angles(angle, k)) == angle
    ensures Stands(angle, Angles(angle, k) + [angle], Count(k + 1, []))
    ensures k > 1 ==> Stands(angle, Front(Angles(angle, k)), Count(k - 1, []))
  {
    var s := Angles(angle, k);
    assert s + [angle] == Angles(angle, k + 1) + [] && Front(s) == Angles(angle, k - 1) + [] && s == s + [];
    StandsIs(angle, s, [], Count(k, []));
    StandsIs(angle, s + [angle], [], Count(k + 1, []));
    if k > 1 {
      StandsIs(angle, Front(s), [], Count(k - 1, []));
    }
  }

  lemma OutsideBrackets(line: string, i: nat, k: nat)
    requires i < |line| && k > 0
    ensures SameCount('<', ForwardStep(line, i, Angles('<', k)), CountStep(line, i, Count(k, [])))
  {
    var c := line[i];
    DropAngles('<', k);
    AnglesStand('<', k);
    if IsOpen(c) {
      BracketOnAngles('<', k, c);
    } else if c == '<' || c == '>' {
      AngleStep(line, i, Angles('<', k), k);
    }
  }

  lemma BracketOnAngles(angle: char, k: nat, c: char)
    requires k > 0 && c != angle
    ensures Stands(angle, Angles(angle, k) + [c], Count(k, [c]))
  {
    assert Strip([c], angle) == Strip(Front([c]), angle) + [c] == [c];
    StandsIs(angle, Angles(angle, k) + [c], [c], Count(k, [c]));
  }

  /** What '<' and '>' do to angle brackets. */
  lemma AngleStep(line: string, i: nat, s: seq<char>, k: nat)
    requires i < |line| && (line[i] == '<' || line[i] == '>') && |s| == k > 0 && Last(s) == '<'
    requires Stands('<', s, Count(k, [])) && Stands('<', s + ['<'], Count(k + 1, []))
    requires k > 1 ==> Stands('<', Front(s), Count(k - 1, []))
    ensures SameCount('<', ForwardStep(line, i, s), CountStep(line, i, Count(k, [])))
  {
  }

  /** One character does to the stack what it does to the count. */
  lemma CountStepIs(line: string, i: nat, s: seq<char>, c: Count)
    requires i < |line| && Stands('<', s, c)
    ensures SameCount('<', ForwardStep(line, i, s), CountStep(line, i, c))
  {
    var r :| s == Angles('<', c.angles) + r && Above('<', r, c.brackets);
    if c.brackets == [] {
      assert s == Angles('<', c.angles);
      OutsideBrackets(line, i, c.angles);
    } else {
      InsideBrackets(line, i, r, c);
    }
  }

  lemma {:induction false} CountLinesIs(lines: seq<string>, n: nat, i: nat, s: seq<char>, c: Count)
    requires n < |lines| && i <= |lines[n]| && Stands('<', s, c)
    ensures ForwardLines(lines, n, i, s) == CountLines(lines, n, i, c)
    decreases |lines| - n, if n < |lines| then |lines[n]| - i else 0
  {
    if i < |lines[n]| {
      CountStepIs(lines[n], i, s, c);
      var act := ForwardStep(lines[n], i, s);
      if act.Go? {
        assert ForwardLines(lines, n, i, s) == ForwardLines(lines, n, i + 1, act.stack);
        CountLinesIs(lines, n, i + 1, act.stack, CountStep(lines[n], i, c).count);
      } else if act.Hit? {
        assert ForwardLines(lines, n, i, s) == At(n, i + 1);
      }
    } else if n + 1 < |lines| {
      CountLinesIs(lines, n + 1, 0, s, c);
    }
  }

  /** From a pushed '<', CloseExpression finds a match exactly where the count does, and none exactly
      when the count does not. */
  lemma TemplateMatchExactly(lines: seq<string>, n: nat, p: nat)
    requires n < |lines| && p < |lines[n]| && StartsTemplate(lines[n], p)
    ensures Close(lines, n, p) == CountLines(lines, n, p + 1, Count(1, []))
  {
    assert ForwardStep(lines[n], p, []) == Go([] + ['<']);
    assert [] + ['<'] == Angles('<', 1) + [];
    StandsIs('<', [] + ['<'], [], Count(1, []));
    CountLinesIs(lines, n, p + 1, [] + ['<'], Count(1, []));
  }
}

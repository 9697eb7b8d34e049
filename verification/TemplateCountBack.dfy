/**
 What the backward scanner finds from a '>': the mirror of TemplateCount.
 */
module TemplateCountBack {
  import opened BracketScan
  import opened BracketText
  import opened BracketTheorems
  import opened Common
  import opened TemplateCount

  /** Which '>' and '<' do not count, in characters: those of "->", of " >= ", of an operator name, and
      the second '<' of a shift. */
  lemma SkippedAre(line: string, i: nat)
    requires i < |line|
    ensures i == 0 ==> !SkipsOne(line, i)
    ensures i > 0 && line[i] == '<' ==> (SkipsOne(line, i) <==> line[i - 1] == '<')
    ensures i > 0 && line[i] == '>' ==>
              (SkipsOne(line, i)
               <==> || line[i - 1] == '-'
                    || (i + 2 < |line| && line[i - 1] in " \t\n\U{000B}\U{000C}\r" && line[i + 1] == '='
                        && line[i + 2] in " \t\n\U{000B}\U{000C}\r")
                    || NamesOperator(line[..i]))
    ensures line[i] != '<' && line[i] != '>' ==> !SkipsOne(line, i)
  {
    OperatorIs(line[..i]);
  }

  /** Outside brackets a '>' counts up and '<' counts down, unless it belongs to an operator or a
      shift; only the '<' that comes to 0 is a match. A ';' or an opening bracket there fails. Inside
      brackets only brackets count. */
  function CountBackStep(line: string, i: nat, c: Count): CountAct
    requires i < |line| && c.angles > 0
  {
    if c.brackets != [] then
      match PlainBackStep(line[i], c.brackets)
      case Go(s) => Next(c.(brackets := s))
      case Hit => Next(c.(brackets := []))
      case Stop => Fail
    else if IsClose(line[i]) then Next(c.(brackets := [line[i]]))
    else if IsOpen(line[i]) || line[i] == ';' then Fail
    else if SkipsOne(line, i) then Next(c)
    else if line[i] == '>' then Next(c.(angles := c.angles + 1))
    else if line[i] == '<' then
      if c.angles == 1 then Match else Next(c.(angles := c.angles - 1))
    else Next(c)
  }

  /** The position of the match, from the character i of line n back. */
  function CountBackLines(lines: seq<string>, n: nat, i: int, c: Count): Position
    requires n < |lines| && -1 <= i < |lines[n]| && c.angles > 0
    decreases n, i + 1
  {
    if i < 0 then
      if n > 0 then CountBackLines(lines, n - 1, |lines[n - 1]| - 1, c) else NoMatch
    else
      match CountBackStep(lines[n], i, c)
      case Next(c') =>
        if c'.angles > 0 then CountBackLines(lines, n, if SkipsOne(lines[n], i) then i - 2 else i - 1, c')
        else NoMatch
      case Match => At(n, i)
      case Fail => NoMatch
  }

  // ------------------------------------------------------------- one stack for both

  /** What is below a real bracket plays no part until that bracket is closed. */
  lemma BackStepAbove(line: string, i: nat, a: seq<char>, r: seq<char>)
    requires i < |line| && Rooted(r, '>') && a != []
    ensures BackwardStep(line, i, a + r)
         == match BackwardStep(line, i, r)
            case Go(r') => Go(a + r')
            case Hit => Go(a)
            case Stop => Stop
  {
    var c := line[i];
    assert Last(a + r) == Last(r) && Front(a + r) == a + Front(r);
    if IsClose(c) || c == '>' {
      assert (a + r) + [c] == a + (r + [c]);
    } else if IsOpen(c) || c == ';' {
      DropTopAbove('>', a, r);
      var d := DropTop(r, '>');
      assert Last(a + d) == Last(d) && Front(a + d) == a + Front(d);
    }
  }

  lemma BackInsideBrackets(line: string, i: nat, r: seq<char>, c: Count)
    requires i < |line| && c.angles > 0 && c.brackets != [] && Above('>', r, c.brackets)
    ensures SameCount('>', BackwardStep(line, i, Angles('>', c.angles) + r), CountBackStep(line, i, c))
  {
    var a := Angles('>', c.angles);
    BackStepAbove(line, i, a, r);
    BackwardStepTransparent(line, i, r);
    match BackwardStep(line, i, r)
    case Go(r') =>
      StripRooted(r', '>');
      StandsIs('>', a + r', r', c.(brackets := Strip(r', '>')));
    case Hit =>
      StandsIs('>', a, [], c.(brackets := []));
      assert a + [] == a;
    case Stop =>
  }

  lemma BackOutsideBrackets(line: string, i: nat, k: nat)
    requires i < |line| && k > 0
    ensures SameCount('>', BackwardStep(line, i, Angles('>', k)), CountBackStep(line, i, Count(k, [])))
  {
    var c := line[i];
    DropAngles('>', k);
    AnglesStand('>', k);
    if IsClose(c) {
      BracketOnAngles('>', k, c);
    }
  }

  /** One character does to the stack what it does to the count. */
  lemma CountBackStepIs(line: string, i: nat, s: seq<char>, c: Count)
    requires i < |line| && Stands('>', s, c)
    ensures SameCount('>', BackwardStep(line, i, s), CountBackStep(line, i, c))
  {
    var r :| s == Angles('>', c.angles) + r && Above('>', r, c.brackets);
    if c.brackets == [] {
      assert s == Angles('>', c.angles);
      BackOutsideBrackets(line, i, c.angles);
    } else {
      BackInsideBrackets(line, i, r, c);
    }
  }

  lemma {:induction false} CountBackLinesIs(lines: seq<string>, n: nat, i: int, s: seq<char>, c: Count)
    requires n < |lines| && -1 <= i < |lines[n]| && Stands('>', s, c)
    ensures BackwardLines(lines, n, i, s) == CountBackLines(lines, n, i, c)
    decreases n, i + 1
  {
    if i >= 0 {
      CountBackStepIs(lines[n], i, s, c);
      var act := BackwardStep(lines[n], i, s);
      if act.Go? {
        var next := if SkipsOne(lines[n], i) then i - 2 else i - 1;
        assert BackwardLines(lines, n, i, s) == BackwardLines(lines, n, next, act.stack);
        CountBackLinesIs(lines, n, next, act.stack, CountBackStep(lines[n], i, c).count);
      } else if act.Hit? {
        assert BackwardLines(lines, n, i, s) == At(n, i);
      }
    } else if n > 0 {
      CountBackLinesIs(lines, n - 1, |lines[n - 1]| - 1, s, c);
    }
  }

  /** From a '>' that belongs to no operator, ReverseCloseExpression finds a match exactly where the
      count does, and none exactly when the count does not. */
  lemma ReverseTemplateMatchExactly(lines: seq<string>, n: nat, p: nat)
    requires n < |lines| && p < |lines[n]| && lines[n][p] == '>' && !IsOperatorGreater(lines[n], p)
    ensures ReverseClose(lines, n, p) == CountBackLines(lines, n, p - 1, Count(1, []))
  {
    assert BackwardStep(lines[n], p, []) == Go([] + ['>']);
    assert [] + ['>'] == Angles('>', 1) + [];
    StandsIs('>', [] + ['>'], [], Count(1, []));
    CountBackLinesIs(lines, n, p - 1, [] + ['>'], Count(1, []));
  }
}

/**
 Template argument lists: what a successful match from a '<' encloses, and the look-ahead
 that decides whether a position lies inside such a list.
 */
module TemplateArguments {
  import opened BracketText
  import opened Common
  import opened BracketScan
  import opened BracketTheorems

  // ------------------------------------------------- a successful match

  /** The '<' at pos is taken as a tentative start: it is no shift and no operator name. */
  predicate StartsTemplate(line: string, pos: nat)
    requires pos < |line|
  {
    IsPushed(line, pos) && CanClose(line, pos)
  }

  /** From the open brackets s, the text t[i..j] closes all brackets in order, and has no ';'
      outside brackets. */
  ghost predicate Nested(t: string, i: nat, j: nat, s: seq<char>)
    requires i <= j <= |t|
    decreases j - i
  {
    if i == j then s == []
    else if IsOpen(t[i]) then Nested(t, i + 1, j, s + [t[i]])
    else if IsClose(t[i]) then s != [] && Last(s) == Mirror(t[i]) && Nested(t, i + 1, j, Front(s))
    else (t[i] == ';' ==> s != []) && Nested(t, i + 1, j, s)
  }

  /** The brackets that are open after c, when c does not break the nesting. */
  function After(c: char, s: seq<char>): seq<char> {
    if IsOpen(c) then s + [c] else if IsClose(c) && s != [] then Front(s) else s
  }

  predicate Allowed(c: char, s: seq<char>) {
    (IsClose(c) ==> s != [] && Last(s) == Mirror(c)) && (c == ';' ==> s != [])
  }

  lemma NestedStep(t: string, i: nat, j: nat, s: seq<char>)
    requires i < j <= |t|
    ensures Nested(t, i, j, s) <==> Allowed(t[i], s) && Nested(t, i + 1, j, After(t[i], s))
  {
  }

  /** A stack that starts with '<' can only be emptied by a '>'. */
  lemma TemplateStep(line: string, i: nat, s: seq<char>)
    requires i < |line| && s != [] && s[0] == '<'
    ensures match ForwardStep(line, i, s)
            case Stop => true
            case Hit => line[i] == '>' && Strip(s, '<') == []
            case Go(s') =>
              && s' != [] && s'[0] == '<'
              && Strip(s', '<') == After(line[i], Strip(s, '<')) && Allowed(line[i], Strip(s, '<'))
  {
    var c := line[i];
    if IsOpen(c) {
      StripPush(s, c, '<');
    } else if IsClose(c) || c == ';' {
      StripDropTop(s, '<');
      var r := DropTop(s, '<');
      if r != [] {
        assert r[0] == '<' && |r| > 1;
        assert Strip(r, '<') == Strip(Front(r), '<') + [Last(r)];
      }
    } else if c == '<' {
      StripPush(s, c, '<');
    } else if c == '>' && |s| == 1 {
      assert Front(s) == [];
    }
  }

  /** x is just past a '>' in the lines, and the flat text from i up to there closes s. */
  ghost predicate EndsTemplate(lines: seq<string>, i: nat, s: seq<char>, x: Position) {
    match x
    case NoMatch => true
    case At(m, e) =>
      && m < |lines| && 0 < e <= |lines[m]| && lines[m][e - 1] == '>'
      && i <= Offset(lines, m) + e - 1 < |Flat(lines)|
      && Nested(Flat(lines), i, Offset(lines, m) + e - 1, s)
  }

  lemma EndsTemplateStep(lines: seq<string>, i: nat, s: seq<char>, x: Position)
    requires i < |Flat(lines)| && Allowed(Flat(lines)[i], s)
    requires EndsTemplate(lines, i + 1, After(Flat(lines)[i], s), x)
    ensures EndsTemplate(lines, i, s, x)
  {
    if x.At? {
      NestedStep(Flat(lines), i, Offset(lines, x.line) + x.pos - 1, s);
    }
  }

  /** One character of a line, when the rest is known. */
  lemma TemplateChar(lines: seq<string>, n: nat, i: nat, s: seq<char>)
    requires n < |lines| && i < |lines[n]| && s != [] && s[0] == '<'
    requires var act := ForwardStep(lines[n], i, s);
             act.Go? ==> EndsTemplate(lines, Offset(lines, n) + i + 1, Strip(act.stack, '<'),
                                      ForwardLines(lines, n, i + 1, act.stack))
    ensures EndsTemplate(lines, Offset(lines, n) + i, Strip(s, '<'), ForwardLines(lines, n, i, s))
  {
    FlatAt(lines, n, i);
    TemplateStep(lines[n], i, s);
    var act := ForwardStep(lines[n], i, s);
    if act.Go? {
      EndsTemplateStep(lines, Offset(lines, n) + i, Strip(s, '<'), ForwardLines(lines, n, i + 1, act.stack));
      assert ForwardLines(lines, n, i, s) == ForwardLines(lines, n, i + 1, act.stack);
    } else if act.Hit? {
      assert ForwardLines(lines, n, i, s) == At(n, i + 1);
    }
  }

  lemma {:induction false} TemplateLines(lines: seq<string>, n: nat, i: nat, s: seq<char>)
    requires n < |lines| && i <= |lines[n]| && s != [] && s[0] == '<'
    ensures EndsTemplate(lines, Offset(lines, n) + i, Strip(s, '<'), ForwardLines(lines, n, i, s))
    decreases |lines| - n, if n < |lines| then |lines[n]| - i else 0
  {
    if i < |lines[n]| {
      var act := ForwardStep(lines[n], i, s);
      if act.Go? {
        TemplateStep(lines[n], i, s);
        TemplateLines(lines, n, i + 1, act.stack);
      }
      TemplateChar(lines, n, i, s);
    } else if n + 1 < |lines| {
      OffsetNext(lines, n);
      TemplateLines(lines, n + 1, 0, s);
    }
  }

  /** A template match that succeeds ends at a '>', and what it encloses has balanced brackets and
      no ';' outside them. */
  lemma TemplateMatch(lines: seq<string>, n: nat, p: nat)
    requires n < |lines| && p < |lines[n]| && StartsTemplate(lines[n], p)
    ensures EndsTemplate(lines, Offset(lines, n) + p + 1, [], Close(lines, n, p))
  {
    assert ForwardStep(lines[n], p, []) == Go([] + ['<']);
    assert Strip(['<'], '<') == Strip(Front(['<']), '<') == [];
    assert [] + ['<'] == ['<'];
    assert Close(lines, n, p) == ForwardLines(lines, n, p + 1, ['<']);
    TemplateLines(lines, n, p + 1, ['<']);
  }

  /** The '<' at i is pushed: it is no second '<' of a shift and no operator name. */
  predicate IsPushed(line: string, i: nat)
    requires i < |line|
  {
    line[i] == '<' && !(i > 0 && (line[i - 1] == '<' || EndsInOperator(line[..i])))
  }

  /** The character at i does nothing to an empty stack. */
  predicate Idle(line: string, i: nat)
    requires i < |line|
  {
    !IsOpen(line[i]) && !IsClose(line[i]) && line[i] != ';' && !IsPushed(line, i)
  }

  /** The second '<' of a shift and that of an operator name are not pushed, so the match from them
      depends on the next character that does something: an open bracket or a pushed '<' is matched in its place; after a closing
      bracket, a ';' or the end of the line there is none. */
  lemma UnpushedFindsNext(lines: seq<string>, n: nat, p: nat, q: nat)
    requires n < |lines| && p < q <= |lines[n]|
    requires lines[n][p] == '<' && !IsPushed(lines[n], p) && CanClose(lines[n], p)
    requires forall i :: p < i < q ==> Idle(lines[n], i)
    requires q < |lines[n]| ==> !Idle(lines[n], q)
    ensures var line, x := lines[n], Close(lines, n, p);
            if q < |line| && (IsOpen(line[q]) || IsPushed(line, q)) then
              x == ForwardLines(lines, n, q + 1, [line[q]]) && (CanClose(line, q) ==> x == Close(lines, n, q))
            else
              x == NoMatch
  {
    var line := lines[n];
    assert ForwardStep(line, p, []) == Go([]);
    IdleScan(line, p + 1, q);
    assert ForwardScan(line, p, []) == ForwardScan(line, q, []);
    assert Close(lines, n, p) == ForwardLines(lines, n, q, []);
    if q < |line| && (IsOpen(line[q]) || IsPushed(line, q)) {
      assert ForwardStep(line, q, []) == Go([] + [line[q]]) == Go([line[q]]);
    }
  }

  lemma {:induction false} IdleScan(line: string, i: nat, q: nat)
    requires i <= q <= |line| && forall j :: i <= j < q ==> Idle(line, j)
    ensures ForwardScan(line, i, []) == ForwardScan(line, q, [])
    decreases q - i
  {
    if i < q {
      assert Idle(line, i);
      assert ForwardStep(line, i, []) == Go([]);
      IdleScan(line, i + 1, q);
    }
  }

  // ------------------------------------------------- the look-ahead

  predicate IsToken(c: char) {
    c in "{};=[].<>"
  }

  /** The first token character at or after pos. */
  function NextToken(line: string, pos: nat): (k: nat)
    requires pos <= |line|
    ensures pos <= k <= |line|
    ensures forall i :: pos <= i < k ==> !IsToken(line[i])
    ensures k < |line| ==> IsToken(line[k])
    decreases |line| - pos
  {
    if pos == |line| || IsToken(line[pos]) then pos else NextToken(line, pos + 1)
  }

  lemma {:induction false} ForwardScanRange(line: string, i: nat, s: seq<char>)
    requires i <= |line|
    ensures match ForwardScan(line, i, s) case Found(e) => i < e <= |line| case _ => true
    decreases |line| - i
  {
    if i < |line| {
      var act := ForwardStep(line, i, s);
      if act.Go? {
        ForwardScanRange(line, i + 1, act.stack);
      }
    }
  }

  lemma {:induction false} ForwardLinesRange(lines: seq<string>, n: nat, i: nat, s: seq<char>)
    requires n < |lines| && i <= |lines[n]|
    ensures match ForwardLines(lines, n, i, s)
            case At(m, e) => n <= m < |lines| && e <= |lines[m]| && (m == n ==> i < e)
            case NoMatch => true
    decreases |lines| - n
  {
    ForwardScanRange(lines[n], i, s);
    var r := ForwardScan(lines[n], i, s);
    if r.Open? && r.stack != [] && n + 1 < |lines| {
      ForwardLinesRange(lines, n + 1, 0, r.stack);
    }
  }

  /** CloseExpression moves strictly forward from a '<' and stays inside the file. */
  lemma CloseAdvances(lines: seq<string>, n: nat, p: nat)
    requires n < |lines| && p < |lines[n]| && lines[n][p] == '<'
    ensures match Close(lines, n, p)
            case At(m, e) => n <= m < |lines| && e <= |lines[m]| && (m == n ==> p + 1 < e)
            case NoMatch => true
  {
    var act := ForwardStep(lines[n], p, []);
    if CanClose(lines[n], p) && act.Go? {
      assert ForwardLines(lines, n, p, []) == ForwardLines(lines, n, p + 1, act.stack);
      ForwardLinesRange(lines, n, p + 1, act.stack);
    }
  }

  /** Whether (n, pos) is inside template arguments: the verdict of the first token that is not
      part of a closed "<...>". */
  function InTemplate(lines: seq<string>, n: nat, pos: nat): bool
    decreases |lines| - n, if n < |lines| then |lines[n]| - pos else 0
  {
    if n >= |lines| then false
    else if pos >= |lines[n]| then InTemplate(lines, n + 1, 0)
    else
      var k := NextToken(lines[n], pos);
      if k == |lines[n]| then InTemplate(lines, n + 1, 0)
      else if lines[n][k] in "{};" then false
      else if lines[n][k] in ">=[]." then true
      else
        CloseAdvances(lines, n, k);
        match Close(lines, n, k)
        case At(m, e) => InTemplate(lines, m, e)
        case NoMatch => false
  }

  method InTemplateArgumentList(lines: seq<string>, linenum0: nat, pos0: nat) returns (r: bool)
    ensures r == InTemplate(lines, linenum0, pos0)
  {
    var linenum: nat, pos: nat := linenum0, pos0;
    while linenum < |lines|
      invariant InTemplate(lines, linenum0, pos0) == InTemplate(lines, linenum, pos)
      decreases |lines| - linenum, if linenum < |lines| then |lines[linenum]| - pos else 0
    {
      var line := lines[linenum];
      if pos >= |line| {
        linenum := linenum + 1;
        pos := 0;
        continue;
      }
      // The pattern takes the last character when no token character follows.
      var k := NextToken(line, pos);
      var token := if k < |line| then line[k] else line[|line| - 1];
      pos := if k < |line| then k + 1 else |line|;
      if k == |line| {
        assert !IsToken(token);
      }
      if token in "{};" {
        return false;
      }
      if token in ">=[]." {
        return true;
      }
      if token != '<' {
        pos := pos + 1;
        if pos >= |line| {
          linenum := linenum + 1;
          pos := 0;
        }
        continue;
      }
      CloseAdvances(lines, linenum, pos - 1);
      var _, endLine, endPos := CloseExpression(lines, linenum, pos - 1);
      if endPos < 0 {
        return false;
      }
      linenum, pos := endLine, endPos;
    }
    return false;
  }
}

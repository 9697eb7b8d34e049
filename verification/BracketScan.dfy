/**
 The two bracket scanners of cpplint, line by line and over a whole file, and the
 functions that say what they compute.
 */
module BracketScan {
  import opened BracketText
  import opened Common

  // ---------------------------------------------------------------- forward

  function ForwardStep(line: string, i: nat, s: seq<char>): Act
    requires i < |line|
  {
    var c := line[i];
    if IsOpen(c) then
      Go(s + [c])
    else if c == '<' then
      if i > 0 && line[i - 1] == '<' then
        if s == [] || Last(s) != '<' then Go(s) else if |s| == 1 then Stop else Go(Front(s))
      else if i > 0 && EndsInOperator(line[..i]) then
        Go(s)
      else
        Go(s + ['<'])
    else if IsClose(c) then
      var r := DropTop(s, '<');
      if r == [] || Last(r) != Mirror(c) then Stop else if |r| == 1 then Hit else Go(Front(r))
    else if c == '>' then
      if i > 0 && (line[i - 1] == '-' || EndsInOperator(line[..i - 1])) then
        Go(s)
      else if s == [] || Last(s) != '<' then
        Go(s)
      else if |s| == 1 then Hit else Go(Front(s))
    else if c == ';' then
      var r := DropTop(s, '<');
      if r == [] then Stop else Go(r)
    else
      Go(s)
  }

  function ForwardScan(line: string, i: nat, s: seq<char>): Scan
    requires i <= |line|
    decreases |line| - i
  {
    if i == |line| then
      Open(s)
    else
      match ForwardStep(line, i, s)
      case Go(s') => ForwardScan(line, i + 1, s')
      case Stop => Dead
      case Hit => Found(i + 1)
  }

  function ForwardLines(lines: seq<string>, n: nat, i: nat, s: seq<char>): Position
    requires n < |lines| && i <= |lines[n]|
    decreases |lines| - n
  {
    match ForwardScan(lines[n], i, s)
    case Found(e) => At(n, e)
    case Dead => NoMatch
    case Open(s') =>
      if s' != [] && n + 1 < |lines| then ForwardLines(lines, n + 1, 0, s') else NoMatch
  }

  /** The last line that such a scan reads. */
  function LastRead(lines: seq<string>, n: nat, i: nat, s: seq<char>): (r: nat)
    requires n < |lines| && i <= |lines[n]|
    ensures r < |lines|
    decreases |lines| - n
  {
    match ForwardScan(lines[n], i, s)
    case Open(s') =>
      if s' != [] && n + 1 < |lines| then LastRead(lines, n + 1, 0, s') else n
    case _ => n
  }

  /** A bracket or a '<' that does not start "<<" or "<=". */
  predicate CanClose(line: string, pos: nat)
    requires pos < |line|
  {
    && (IsOpen(line[pos]) || line[pos] == '<')
    && !(line[pos] == '<' && pos + 1 < |line| && (line[pos + 1] == '<' || line[pos + 1] == '='))
  }

  /** The position just past the bracket that closes the one at (n, pos). */
  function Close(lines: seq<string>, n: nat, pos: nat): Position
    requires n < |lines| && pos < |lines[n]|
  {
    if CanClose(lines[n], pos) then ForwardLines(lines, n, pos, []) else NoMatch
  }

  method FindEndOfExpressionInLine(line: string, startpos: nat, stack0: seq<char>) returns (r: Scan)
    requires startpos <= |line|
    ensures r == ForwardScan(line, startpos, stack0)
  {
    var stack := stack0;
    for i := startpos to |line|
      invariant ForwardScan(line, startpos, stack0) == ForwardScan(line, i, stack)
    {
      ghost var before := stack;
      var c := line[i];
      if IsOpen(c) {
        stack := stack + [c];
      } else if c == '<' {
        if i > 0 && line[i - 1] == '<' {
          if stack != [] && stack[|stack| - 1] == '<' {
            stack := stack[..|stack| - 1];
            if stack == [] {
              return Dead;
            }
          }
        } else if i > 0 && EndsInOperator(line[..i]) {
          continue;
        } else {
          stack := stack + ['<'];
        }
      } else if IsClose(c) {
        while stack != [] && stack[|stack| - 1] == '<'
          invariant DropTop(stack, '<') == DropTop(before, '<')
          decreases |stack|
        {
          stack := stack[..|stack| - 1];
        }
        if stack == [] {
          return Dead;
        }
        if stack[|stack| - 1] == Mirror(c) {
          stack := stack[..|stack| - 1];
          if stack == [] {
            return Found(i + 1);
          }
        } else {
          return Dead;
        }
      } else if c == '>' {
        if i > 0 && (line[i - 1] == '-' || EndsInOperator(line[..i - 1])) {
          continue;
        }
        if stack != [] {
          if stack[|stack| - 1] == '<' {
            stack := stack[..|stack| - 1];
            if stack == [] {
              return Found(i + 1);
            }
          }
        }
      } else if c == ';' {
        while stack != [] && stack[|stack| - 1] == '<'
          invariant DropTop(stack, '<') == DropTop(before, '<')
          decreases |stack|
        {
          stack := stack[..|stack| - 1];
        }
        if stack == [] {
          return Dead;
        }
      }
    }
    return Open(stack);
  }

  method CloseExpression(lines: seq<string>, linenum0: nat, pos: nat)
    returns (line: string, linenum: nat, endPos: int)
    requires linenum0 < |lines| && pos < |lines[linenum0]|
    ensures match Close(lines, linenum0, pos)
            case At(m, e) => m < |lines| && line == lines[m] && linenum == m && endPos == e
            case NoMatch =>
              && linenum == |lines| && endPos == -1
              && line == lines[if CanClose(lines[linenum0], pos) then LastRead(lines, linenum0, pos, []) else linenum0]
  {
    linenum := linenum0;
    line := lines[linenum];
    if !(IsOpen(line[pos]) || line[pos] == '<')
       || (line[pos] == '<' && pos + 1 < |line| && (line[pos + 1] == '<' || line[pos + 1] == '='))
    {
      return line, |lines|, -1;
    }
    var r := FindEndOfExpressionInLine(line, pos, []);
    if r.Found? {
      return line, linenum, r.pos;
    }
    ghost var whole, last := Close(lines, linenum0, pos), LastRead(lines, linenum0, pos, []);
    while r.Open? && r.stack != [] && linenum + 1 < |lines|
      invariant linenum < |lines| && line == lines[linenum] && !r.Found?
      invariant whole == if r.Open? && r.stack != [] && linenum + 1 < |lines|
                         then ForwardLines(lines, linenum + 1, 0, r.stack) else NoMatch
      invariant last == if r.Open? && r.stack != [] && linenum + 1 < |lines|
                        then LastRead(lines, linenum + 1, 0, r.stack) else linenum
      decreases |lines| - linenum
    {
      linenum := linenum + 1;
      line := lines[linenum];
      r := FindEndOfExpressionInLine(line, 0, r.stack);
      if r.Found? {
        return line, linenum, r.pos;
      }
    }
    return line, |lines|, -1;
  }

  // --------------------------------------------------------------- backward

  /** The '>' at i belongs to "->", to " >= " or to an operator name. */
  predicate IsOperatorGreater(line: string, i: nat)
    requires i < |line|
  {
    i > 0 &&
    (|| line[i - 1] == '-'
     || (i + 2 < |line| && IsSpace(line[i - 1]) && line[i] == '>' && line[i + 1] == '='
         && IsSpace(line[i + 2]))
     || EndsInOperator(line[..i]))
  }

  /** The character before i is consumed together with the one at i. */
  predicate SkipsOne(line: string, i: nat)
    requires i < |line|
  {
    || (line[i] == '>' && IsOperatorGreater(line, i))
    || (line[i] == '<' && i > 0 && line[i - 1] == '<')
  }

  function BackwardStep(line: string, i: nat, s: seq<char>): Act
    requires i < |line|
  {
    var c := line[i];
    if IsClose(c) then
      Go(s + [c])
    else if SkipsOne(line, i) then
      Go(s)
    else if c == '>' then
      Go(s + ['>'])
    else if c == '<' then
      if s == [] || Last(s) != '>' then Go(s) else if |s| == 1 then Hit else Go(Front(s))
    else if IsOpen(c) then
      var r := DropTop(s, '>');
      if r == [] || Last(r) != Mirror(c) then Stop else if |r| == 1 then Hit else Go(Front(r))
    else if c == ';' then
      var r := DropTop(s, '>');
      if r == [] then Stop else Go(r)
    else
      Go(s)
  }

  function BackwardScan(line: string, i: int, s: seq<char>): Scan
    requires -1 <= i < |line|
    decreases i + 1
  {
    if i < 0 then
      Open(s)
    else
      match BackwardStep(line, i, s)
      case Go(s') => BackwardScan(line, if SkipsOne(line, i) then i - 2 else i - 1, s')
      case Stop => Dead
      case Hit => Found(i)
  }

  function BackwardLines(lines: seq<string>, n: nat, i: int, s: seq<char>): Position
    requires n < |lines| && -1 <= i < |lines[n]|
    decreases n
  {
    match BackwardScan(lines[n], i, s)
    case Found(b) => At(n, b)
    case Dead => NoMatch
    case Open(s') =>
      if s' != [] && n > 0 then BackwardLines(lines, n - 1, |lines[n - 1]| - 1, s') else NoMatch
  }

  function LastReadBack(lines: seq<string>, n: nat, i: int, s: seq<char>): (r: nat)
    requires n < |lines| && -1 <= i < |lines[n]|
    ensures r < |lines|
    decreases n
  {
    match BackwardScan(lines[n], i, s)
    case Open(s') =>
      if s' != [] && n > 0 then LastReadBack(lines, n - 1, |lines[n - 1]| - 1, s') else n
    case _ => n
  }

  /** The position of the bracket that opens the one at (n, pos). */
  function ReverseClose(lines: seq<string>, n: nat, pos: nat): Position
    requires n < |lines| && pos < |lines[n]|
  {
    if IsClose(lines[n][pos]) || lines[n][pos] == '>' then BackwardLines(lines, n, pos, [])
    else NoMatch
  }

  method FindStartOfExpressionInLine(line: string, endpos: int, stack0: seq<char>)
    returns (r: Scan)
    requires -1 <= endpos < |line|
    ensures r == BackwardScan(line, endpos, stack0)
  {
    var stack := stack0;
    var i := endpos;
    while i >= 0
      invariant -1 <= i < |line|
      invariant BackwardScan(line, endpos, stack0) == BackwardScan(line, i, stack)
    {
      ghost var before := stack;
      var c := line[i];
      if IsClose(c) {
        stack := stack + [c];
      } else if c == '>' {
        if IsOperatorGreater(line, i) {
          i := i - 1;
        } else {
          stack := stack + ['>'];
        }
      } else if c == '<' {
        if i > 0 && line[i - 1] == '<' {
          i := i - 1;
        } else {
          if stack != [] && stack[|stack| - 1] == '>' {
            stack := stack[..|stack| - 1];
            if stack == [] {
              return Found(i);
            }
          }
        }
      } else if IsOpen(c) {
        while stack != [] && stack[|stack| - 1] == '>'
          invariant DropTop(stack, '>') == DropTop(before, '>')
          decreases |stack|
        {
          stack := stack[..|stack| - 1];
        }
        if stack == [] {
          return Dead;
        }
        if stack[|stack| - 1] == Mirror(c) {
          stack := stack[..|stack| - 1];
          if stack == [] {
            return Found(i);
          }
        } else {
          return Dead;
        }
      } else if c == ';' {
        while stack != [] && stack[|stack| - 1] == '>'
          invariant DropTop(stack, '>') == DropTop(before, '>')
          decreases |stack|
        {
          stack := stack[..|stack| - 1];
        }
        if stack == [] {
          return Dead;
        }
      }
      i := i - 1;
    }
    return Open(stack);
  }

  method ReverseCloseExpression(lines: seq<string>, linenum0: nat, pos: nat)
    returns (line: string, linenum: nat, startPos: int)
    requires linenum0 < |lines| && pos < |lines[linenum0]|
    ensures match ReverseClose(lines, linenum0, pos)
            case At(m, b) => m < |lines| && line == lines[m] && linenum == m && startPos == b
            case NoMatch =>
              && linenum == 0 && startPos == -1
              && line == lines[if IsClose(lines[linenum0][pos]) || lines[linenum0][pos] == '>'
                               then LastReadBack(lines, linenum0, pos, []) else linenum0]
  {
    linenum := linenum0;
    line := lines[linenum];
    if !(IsClose(line[pos]) || line[pos] == '>') {
      return line, 0, -1;
    }
    var r := FindStartOfExpressionInLine(line, pos, []);
    if r.Found? {
      return line, linenum, r.pos;
    }
    ghost var whole, last := ReverseClose(lines, linenum0, pos), LastReadBack(lines, linenum0, pos, []);
    while r.Open? && r.stack != [] && linenum > 0
      invariant linenum < |lines| && line == lines[linenum] && !r.Found?
      invariant whole == if r.Open? && r.stack != [] && linenum > 0
                         then BackwardLines(lines, linenum - 1, |lines[linenum - 1]| - 1, r.stack)
                         else NoMatch
      invariant last == if r.Open? && r.stack != [] && linenum > 0
                        then LastReadBack(lines, linenum - 1, |lines[linenum - 1]| - 1, r.stack)
                        else linenum
      decreases linenum
    {
      linenum := linenum - 1;
      line := lines[linenum];
      r := FindStartOfExpressionInLine(line, |line| - 1, r.stack);
      if r.Found? {
        return line, linenum, r.pos;
      }
    }
    return line, 0, -1;
  }
}

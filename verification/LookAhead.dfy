/**
 How far the look-ahead for template arguments reads: what its verdict says, which lines it depends
 on, and which lines could change it.
 */
module LookAhead {
  import opened BracketScan
  import opened BracketText
  import opened Common
  import opened TemplateArguments

  // ------------------------------------------------------------- what the verdict says

  /** From (n, pos) up to (m, k) there is no token. */
  ghost predicate Clear(lines: seq<string>, n: nat, pos: nat, m: nat, k: nat) {
    && (n < m || (n == m && pos <= k))
    && forall i, j ::
         (n <= i <= m && i < |lines| && 0 <= j < |lines[i]| && (i == n ==> pos <= j) && (i == m ==> j < k)) ==>
           lines[i][j] !in "{};=[].<>"
  }

  /** And none up to the end of the file. */
  ghost predicate ClearToEnd(lines: seq<string>, n: nat, pos: nat) {
    forall i, j ::
      (n <= i < |lines| && 0 <= j < |lines[i]| && (i == n ==> pos <= j)) ==> lines[i][j] !in "{};=[].<>"
  }

  /** From (n, pos) the closed "<...>" that start at opens, with no token before or between them, lead
      to (i, j). */
  ghost predicate Skips(lines: seq<string>, n: nat, pos: nat, opens: seq<(nat, nat)>, i: nat, j: nat)
    decreases |opens|
  {
    if opens == [] then i == n && j == pos
    else
      var (a, b) := opens[0];
      && a < |lines| && b < |lines[a]| && lines[a][b] == '<' && Clear(lines, n, pos, a, b)
      && var x := Close(lines, a, b);
         x.At? && Skips(lines, x.line, x.pos, opens[1..], i, j)
  }

  /** The first token outside closed "<...>" is there, and it is one of '>', '=', '[', ']', '.'. */
  ghost predicate LooksLikeArgument(lines: seq<string>, n: nat, pos: nat) {
    exists opens: seq<(nat, nat)>, i: nat, j: nat ::
      Skips(lines, n, pos, opens, i, j) && TokenSaysYes(lines, i, j)
  }

  ghost predicate TokenSaysYes(lines: seq<string>, i: nat, j: nat) {
    exists m: nat, k: nat ::
      m < |lines| && k < |lines[m]| && Clear(lines, i, j, m, k) && lines[m][k] in ">=[]."
  }

  /** It is one of '{', '}', ';', or a '<' that is not closed, or there is none. */
  ghost predicate LooksLikeDeclaration(lines: seq<string>, n: nat, pos: nat) {
    exists opens: seq<(nat, nat)>, i: nat, j: nat ::
      Skips(lines, n, pos, opens, i, j) && (ClearToEnd(lines, i, j) || TokenSaysNo(lines, i, j))
  }

  ghost predicate TokenSaysNo(lines: seq<string>, i: nat, j: nat) {
    exists m: nat, k: nat ::
      && m < |lines| && k < |lines[m]| && Clear(lines, i, j, m, k)
      && (lines[m][k] in "{};" || (lines[m][k] == '<' && Close(lines, m, k) == NoMatch))
  }

  /** A clear stretch plays no part. */
  lemma {:induction false} ClearKeeps(lines: seq<string>, n: nat, pos: nat, m: nat, k: nat)
    requires Clear(lines, n, pos, m, k) && m < |lines| && k < |lines[m]|
    ensures InTemplate(lines, n, pos) == InTemplate(lines, m, k)
    decreases m - n, k - pos
  {
    if n < m {
      assert pos >= |lines[n]| || NextToken(lines[n], pos) == |lines[n]|;
      ClearKeeps(lines, n + 1, 0, m, k);
    } else if pos < k {
      assert NextToken(lines[n], pos) == NextToken(lines[n], pos + 1);
      ClearKeeps(lines, n, pos + 1, m, k);
    }
  }

  lemma {:induction false} ClearToEndSaysNo(lines: seq<string>, n: nat, pos: nat)
    requires ClearToEnd(lines, n, pos)
    ensures !InTemplate(lines, n, pos)
    decreases |lines| - n
  {
    if n < |lines| {
      assert pos >= |lines[n]| || NextToken(lines[n], pos) == |lines[n]|;
      ClearToEndSaysNo(lines, n + 1, 0);
    }
  }

  /** Nor do closed "<...>". */
  lemma {:induction false} SkipsKeep(lines: seq<string>, n: nat, pos: nat, opens: seq<(nat, nat)>, i: nat, j: nat)
    requires Skips(lines, n, pos, opens, i, j)
    ensures InTemplate(lines, n, pos) == InTemplate(lines, i, j)
    decreases |opens|
  {
    if opens != [] {
      var (a, b) := opens[0];
      var x := Close(lines, a, b);
      ClearKeeps(lines, n, pos, a, b);
      CloseAdvances(lines, a, b);
      assert NextToken(lines[a], b) == b;
      SkipsKeep(lines, x.line, x.pos, opens[1..], i, j);
    }
  }

  lemma TokenVerdict(lines: seq<string>, i: nat, j: nat)
    ensures TokenSaysYes(lines, i, j) ==> InTemplate(lines, i, j)
    ensures TokenSaysNo(lines, i, j) ==> !InTemplate(lines, i, j)
  {
    forall m: nat, k: nat | m < |lines| && k < |lines[m]| && Clear(lines, i, j, m, k)
      ensures InTemplate(lines, i, j) == InTemplate(lines, m, k)
    {
      ClearKeeps(lines, i, j, m, k);
    }
    forall m: nat, k: nat | m < |lines| && k < |lines[m]| && IsToken(lines[m][k])
      ensures NextToken(lines[m], k) == k
    {
    }
  }

  /** The look-ahead always comes to one of the two. */
  lemma {:induction false} ComesToAnEnd(lines: seq<string>, n: nat, pos: nat)
    ensures LooksLikeArgument(lines, n, pos) || LooksLikeDeclaration(lines, n, pos)
    decreases |lines| - n, if n < |lines| then |lines[n]| - pos else 0
  {
    assert Skips(lines, n, pos, [], n, pos);
    if n >= |lines| {
      assert ClearToEnd(lines, n, pos);
    } else if pos >= |lines[n]| || NextToken(lines[n], pos) == |lines[n]| {
      ComesToAnEnd(lines, n + 1, 0);
      FromLineBefore(lines, n, pos);
    } else {
      var k := NextToken(lines[n], pos);
      assert Clear(lines, n, pos, n, k);
      if lines[n][k] in ">=[]." {
        assert TokenSaysYes(lines, n, pos);
      } else if lines[n][k] in "{};" || Close(lines, n, k) == NoMatch {
        assert TokenSaysNo(lines, n, pos);
      } else {
        CloseAdvances(lines, n, k);
        var x := Close(lines, n, k);
        ComesToAnEnd(lines, x.line, x.pos);
        FromSkipped(lines, n, pos, k);
      }
    }
  }

  lemma SkipsFirst(lines: seq<string>, n: nat, pos: nat, opens: seq<(nat, nat)>, i: nat, j: nat, k: nat)
    requires n < |lines| && k < |lines[n]| && lines[n][k] == '<' && Clear(lines, n, pos, n, k)
    requires Close(lines, n, k).At? && Skips(lines, Close(lines, n, k).line, Close(lines, n, k).pos, opens, i, j)
    ensures Skips(lines, n, pos, [(n, k)] + opens, i, j)
  {
    assert ([(n, k)] + opens)[1..] == opens;
  }

  /** What is found after a closed "<...>" is found from before it. */
  lemma FromSkipped(lines: seq<string>, n: nat, pos: nat, k: nat)
    requires n < |lines| && k < |lines[n]| && lines[n][k] == '<' && Clear(lines, n, pos, n, k)
    requires Close(lines, n, k).At?
    ensures var x := Close(lines, n, k);
            && (LooksLikeArgument(lines, x.line, x.pos) ==> LooksLikeArgument(lines, n, pos))
            && (LooksLikeDeclaration(lines, x.line, x.pos) ==> LooksLikeDeclaration(lines, n, pos))
  {
    var x := Close(lines, n, k);
    forall opens: seq<(nat, nat)>, i: nat, j: nat | Skips(lines, x.line, x.pos, opens, i, j)
      ensures Skips(lines, n, pos, [(n, k)] + opens, i, j)
    {
      SkipsFirst(lines, n, pos, opens, i, j, k);
    }
  }

  /** A stretch that is clear from the next line on is clear from the end of this one. */
  lemma ClearFromLineBefore(lines: seq<string>, n: nat, pos: nat, m: nat, k: nat)
    requires n < |lines| && (pos >= |lines[n]| || NextToken(lines[n], pos) == |lines[n]|)
    ensures Clear(lines, n + 1, 0, m, k) ==> Clear(lines, n, pos, m, k)
    ensures ClearToEnd(lines, n + 1, 0) ==> ClearToEnd(lines, n, pos)
  {
  }

  lemma FromLineBefore(lines: seq<string>, n: nat, pos: nat)
    requires n < |lines| && (pos >= |lines[n]| || NextToken(lines[n], pos) == |lines[n]|)
    ensures LooksLikeArgument(lines, n + 1, 0) ==> LooksLikeArgument(lines, n, pos)
    ensures LooksLikeDeclaration(lines, n + 1, 0) ==> LooksLikeDeclaration(lines, n, pos)
  {
    forall m: nat, k: nat
      ensures Clear(lines, n + 1, 0, m, k) ==> Clear(lines, n, pos, m, k)
    {
      ClearFromLineBefore(lines, n, pos, m, k);
    }
    ClearFromLineBefore(lines, n, pos, 0, 0);
    assert Skips(lines, n, pos, [], n, pos);
    if LooksLikeArgument(lines, n + 1, 0) {
      var opens: seq<(nat, nat)>, i: nat, j: nat :|
        Skips(lines, n + 1, 0, opens, i, j) && TokenSaysYes(lines, i, j);
      assert opens != [] ==> Skips(lines, n, pos, opens, i, j);
    }
    if LooksLikeDeclaration(lines, n + 1, 0) {
      var opens: seq<(nat, nat)>, i: nat, j: nat :|
        Skips(lines, n + 1, 0, opens, i, j) && (ClearToEnd(lines, i, j) || TokenSaysNo(lines, i, j));
      assert opens != [] ==> Skips(lines, n, pos, opens, i, j);
    }
  }

  /** The verdict, both ways. */
  lemma VerdictIs(lines: seq<string>, n: nat, pos: nat)
    ensures InTemplate(lines, n, pos) <==> LooksLikeArgument(lines, n, pos)
    ensures !InTemplate(lines, n, pos) <==> LooksLikeDeclaration(lines, n, pos)
  {
    ComesToAnEnd(lines, n, pos);
    if LooksLikeArgument(lines, n, pos) {
      var opens: seq<(nat, nat)>, i: nat, j: nat :|
        Skips(lines, n, pos, opens, i, j) && TokenSaysYes(lines, i, j);
      SkipsKeep(lines, n, pos, opens, i, j);
      TokenVerdict(lines, i, j);
    }
    if LooksLikeDeclaration(lines, n, pos) {
      var opens: seq<(nat, nat)>, i: nat, j: nat :|
        Skips(lines, n, pos, opens, i, j) && (ClearToEnd(lines, i, j) || TokenSaysNo(lines, i, j));
      SkipsKeep(lines, n, pos, opens, i, j);
      TokenVerdict(lines, i, j);
      if ClearToEnd(lines, i, j) {
        ClearToEndSaysNo(lines, i, j);
      }
    }
  }

  // ------------------------------------------------------------- which lines it depends on

  /** What the look-ahead knows when it has read the given lines and no more. */
  datatype Look = Yes | No | More

  /** The scan is still inside brackets after the last line. */
  predicate RunsOut(lines: seq<string>, n: nat, i: nat, s: seq<char>)
    requires n < |lines| && i <= |lines[n]|
    decreases |lines| - n
  {
    match ForwardScan(lines[n], i, s)
    case Open(s') => s' != [] && (n + 1 < |lines| ==> RunsOut(lines, n + 1, 0, s'))
    case _ => false
  }

  function LookAt(lines: seq<string>, n: nat, pos: nat): Look
    decreases |lines| - n, if n < |lines| then |lines[n]| - pos else 0
  {
    if n >= |lines| then More
    else if pos >= |lines[n]| then LookAt(lines, n + 1, 0)
    else
      var k := NextToken(lines[n], pos);
      if k == |lines[n]| then LookAt(lines, n + 1, 0)
      else if lines[n][k] in "{};" then No
      else if lines[n][k] in ">=[]." then Yes
      else
        CloseAdvances(lines, n, k);
        match Close(lines, n, k)
        case At(m, e) => LookAt(lines, m, e)
        case NoMatch => if CanClose(lines[n], k) && RunsOut(lines, n, k, []) then More else No
  }

  /** At the end of the file, an undecided look-ahead says no. */
  lemma {:induction false} VerdictOfLook(lines: seq<string>, n: nat, pos: nat)
    ensures InTemplate(lines, n, pos) <==> LookAt(lines, n, pos) == Yes
    decreases |lines| - n, if n < |lines| then |lines[n]| - pos else 0
  {
    if n < |lines| {
      if pos >= |lines[n]| || NextToken(lines[n], pos) == |lines[n]| {
        VerdictOfLook(lines, n + 1, 0);
      } else {
        var k := NextToken(lines[n], pos);
        if lines[n][k] == '<' {
          CloseAdvances(lines, n, k);
          var x := Close(lines, n, k);
          if x.At? {
            VerdictOfLook(lines, x.line, x.pos);
          }
        }
      }
    }
  }

  lemma {:induction false} ScanIsLocal(a: seq<string>, b: seq<string>, n: nat, i: nat, s: seq<char>)
    requires n < |a| && i <= |a[n]|
    ensures (a + b)[n] == a[n]
    ensures !RunsOut(a, n, i, s) ==>
              !RunsOut(a + b, n, i, s) && ForwardLines(a + b, n, i, s) == ForwardLines(a, n, i, s)
    decreases |a| - n
  {
    var r := ForwardScan(a[n], i, s);
    if r.Open? && r.stack != [] && n + 1 < |a| {
      ScanIsLocal(a, b, n + 1, 0, r.stack);
    }
  }

  lemma {:induction false} RunsOutIsNoMatch(lines: seq<string>, n: nat, i: nat, s: seq<char>)
    requires n < |lines| && i <= |lines[n]| && RunsOut(lines, n, i, s)
    ensures ForwardLines(lines, n, i, s) == NoMatch
    decreases |lines| - n
  {
    var r := ForwardScan(lines[n], i, s);
    if n + 1 < |lines| {
      RunsOutIsNoMatch(lines, n + 1, 0, r.stack);
    }
  }

  /** A look-ahead that is decided by the lines a is the same in every file that goes on from a. */
  lemma {:induction false} LookIsLocal(a: seq<string>, b: seq<string>, n: nat, pos: nat)
    requires LookAt(a, n, pos) != More
    ensures LookAt(a + b, n, pos) == LookAt(a, n, pos)
    decreases |a| - n, if n < |a| then |a[n]| - pos else 0
  {
    assert (a + b)[n] == a[n];
    if pos >= |a[n]| || NextToken(a[n], pos) == |a[n]| {
      LookIsLocal(a, b, n + 1, 0);
    } else {
      var k := NextToken(a[n], pos);
      if a[n][k] == '<' {
        CloseAdvances(a, n, k);
        ScanIsLocal(a, b, n, k, []);
        if RunsOut(a, n, k, []) {
          RunsOutIsNoMatch(a, n, k, []);
        }
        var x := Close(a, n, k);
        if x.At? {
          LookIsLocal(a, b, x.line, x.pos);
        }
      }
    }
  }

  lemma {:induction false} ScanShift(c: seq<string>, lines: seq<string>, n: nat, i: nat, s: seq<char>)
    requires n < |lines| && i <= |lines[n]|
    ensures (c + lines)[|c| + n] == lines[n]
    ensures ForwardLines(c + lines, |c| + n, i, s)
         == match ForwardLines(lines, n, i, s) case At(m, e) => At(|c| + m, e) case NoMatch => NoMatch
    decreases |lines| - n
  {
    var r := ForwardScan(lines[n], i, s);
    if r.Open? && r.stack != [] && n + 1 < |lines| {
      ScanShift(c, lines, n + 1, 0, r.stack);
    }
  }

  /** The lines before it play no part. */
  lemma {:induction false} LookShift(c: seq<string>, lines: seq<string>, n: nat, pos: nat)
    ensures InTemplate(c + lines, |c| + n, pos) == InTemplate(lines, n, pos)
    decreases |lines| - n, if n < |lines| then |lines[n]| - pos else 0
  {
    if n < |lines| {
      assert (c + lines)[|c| + n] == lines[n];
      if pos >= |lines[n]| || NextToken(lines[n], pos) == |lines[n]| {
        LookShift(c, lines, n + 1, 0);
      } else {
        var k := NextToken(lines[n], pos);
        if lines[n][k] == '<' {
          CloseAdvances(lines, n, k);
          ScanShift(c, lines, n, k, []);
          var x := Close(lines, n, k);
          if x.At? {
            LookShift(c, lines, x.line, x.pos);
          }
        }
      }
    }
  }

  // ------------------------------------------------------------- which lines could change it

  /** The open brackets after the last line. */
  function OpenAtEnd(lines: seq<string>, n: nat, i: nat, s: seq<char>): (r: seq<char>)
    requires n < |lines| && i <= |lines[n]| && RunsOut(lines, n, i, s)
    ensures r != []
    decreases |lines| - n
  {
    var s' := ForwardScan(lines[n], i, s).stack;
    if n + 1 < |lines| then OpenAtEnd(lines, n + 1, 0, s') else s'
  }

  /** The brackets that an undecided look-ahead is inside of when it has read all lines. */
  function LeftOpen(lines: seq<string>, n: nat, pos: nat): seq<char>
    requires LookAt(lines, n, pos) == More
    decreases |lines| - n, if n < |lines| then |lines[n]| - pos else 0
  {
    if n >= |lines| then []
    else if pos >= |lines[n]| then LeftOpen(lines, n + 1, 0)
    else
      var k := NextToken(lines[n], pos);
      if k == |lines[n]| then LeftOpen(lines, n + 1, 0)
      else
        CloseAdvances(lines, n, k);
        match Close(lines, n, k)
        case At(m, e) => LeftOpen(lines, m, e)
        case NoMatch => OpenAtEnd(lines, n, k, [])
  }

  /** The verdict of a look-ahead that comes to the start of lines inside the brackets s. */
  predicate GoesOn(lines: seq<string>, s: seq<char>) {
    if s == [] then InTemplate(lines, 0, 0)
    else
      lines != [] && match ForwardLines(lines, 0, 0, s)
                     case At(m, e) => InTemplate(lines, m, e)
                     case NoMatch => false
  }

  lemma {:induction false} ScanGoesOn(a: seq<string>, b: seq<string>, n: nat, i: nat, s: seq<char>)
    requires n < |a| && i <= |a[n]| && RunsOut(a, n, i, s)
    ensures (a + b)[n] == a[n]
    ensures ForwardLines(a + b, n, i, s)
         == if b == [] then NoMatch
            else match ForwardLines(b, 0, 0, OpenAtEnd(a, n, i, s))
                 case At(m, e) => At(|a| + m, e)
                 case NoMatch => NoMatch
    decreases |a| - n
  {
    var s' := ForwardScan(a[n], i, s).stack;
    if n + 1 < |a| {
      ScanGoesOn(a, b, n + 1, 0, s');
    } else if b != [] {
      ScanShift(a, b, 0, 0, s');
    }
  }

  lemma {:induction false} LookGoesOn(a: seq<string>, b: seq<string>, n: nat, pos: nat)
    requires LookAt(a, n, pos) == More && (n < |a| || (n == |a| && pos == 0))
    ensures InTemplate(a + b, n, pos) <==> GoesOn(b, LeftOpen(a, n, pos))
    decreases |a| - n, if n < |a| then |a[n]| - pos else 0
  {
    if n == |a| {
      LookShift(a, b, 0, 0);
    } else {
      assert (a + b)[n] == a[n];
      if pos >= |a[n]| || NextToken(a[n], pos) == |a[n]| {
        LookGoesOn(a, b, n + 1, 0);
      } else {
        var k := NextToken(a[n], pos);
        CloseAdvances(a, n, k);
        var x := Close(a, n, k);
        if x.At? {
          if RunsOut(a, n, k, []) {
            RunsOutIsNoMatch(a, n, k, []);
          }
          ScanIsLocal(a, b, n, k, []);
          LookGoesOn(a, b, x.line, x.pos);
        } else {
          ScanGoesOn(a, b, n, k, []);
          var y := if b == [] then NoMatch else ForwardLines(b, 0, 0, OpenAtEnd(a, n, k, []));
          if y.At? {
            LookShift(a, b, y.line, y.pos);
          }
        }
      }
    }
  }

  predicate IsOpener(c: char) {
    IsOpen(c) || c == '<'
  }

  predicate Openers(s: seq<char>) {
    forall i :: 0 <= i < |s| ==> IsOpener(s[i])
  }

  lemma {:induction false} DropTopOpeners(s: seq<char>)
    requires Openers(s)
    ensures Openers(DropTop(s, '<'))
  {
    if s != [] && Last(s) == '<' {
      DropTopOpeners(Front(s));
    }
  }

  lemma {:induction false} ScanOpeners(line: string, i: nat, s: seq<char>)
    requires i <= |line| && Openers(s)
    ensures ForwardScan(line, i, s).Open? ==> Openers(ForwardScan(line, i, s).stack)
    decreases |line| - i
  {
    if i < |line| {
      DropTopOpeners(s);
      var act := ForwardStep(line, i, s);
      if act.Go? {
        ScanOpeners(line, i + 1, act.stack);
      }
    }
  }

  lemma {:induction false} EndOpeners(lines: seq<string>, n: nat, i: nat, s: seq<char>)
    requires n < |lines| && i <= |lines[n]| && RunsOut(lines, n, i, s) && Openers(s)
    ensures Openers(OpenAtEnd(lines, n, i, s))
    decreases |lines| - n
  {
    ScanOpeners(lines[n], i, s);
    if n + 1 < |lines| {
      EndOpeners(lines, n + 1, 0, ForwardScan(lines[n], i, s).stack);
    }
  }

  lemma {:induction false} LeftOpeners(lines: seq<string>, n: nat, pos: nat)
    requires LookAt(lines, n, pos) == More
    ensures Openers(LeftOpen(lines, n, pos))
    decreases |lines| - n, if n < |lines| then |lines[n]| - pos else 0
  {
    if n < |lines| {
      if pos >= |lines[n]| || NextToken(lines[n], pos) == |lines[n]| {
        LeftOpeners(lines, n + 1, 0);
      } else {
        var k := NextToken(lines[n], pos);
        CloseAdvances(lines, n, k);
        var x := Close(lines, n, k);
        if x.At? {
          LeftOpeners(lines, x.line, x.pos);
        } else {
          EndOpeners(lines, n, k, []);
        }
      }
    }
  }

  function Closer(c: char): char {
    if c == '<' then '>' else Mirror(c)
  }

  /** What closes the brackets s, innermost first. */
  function Closing(s: seq<char>): (r: string)
    ensures |r| == |s| && forall i :: 0 <= i < |s| ==> r[i] == Closer(s[|s| - 1 - i])
  {
    seq(|s|, i requires 0 <= i < |s| => Closer(s[|s| - 1 - i]))
  }

  lemma ClosingStep(s: seq<char>, c: char, i: nat)
    requires Openers(s) && i < |s|
    ensures ForwardStep(Closing(s) + [c], i, s[..|s| - i])
         == if i == |s| - 1 then Hit else Go(s[..|s| - (i + 1)])
  {
    var line, r := Closing(s) + [c], s[..|s| - i];
    assert line[i] == Closer(Last(r)) && Front(r) == s[..|s| - (i + 1)];
    if i > 0 {
      assert IsOpener(s[|s| - i]) && line[i - 1] == Closer(s[|s| - i]);
      OperatorEnd(line[..i - 1]);
      if i > 1 {
        assert IsOpener(s[|s| - (i - 1)]) && line[i - 2] == Closer(s[|s| - (i - 1)]);
      }
    }
  }

  lemma {:induction false} ClosingCloses(s: seq<char>, c: char, i: nat)
    requires Openers(s) && i < |s|
    ensures ForwardScan(Closing(s) + [c], i, s[..|s| - i]) == Found(|s|)
    decreases |s| - i
  {
    ClosingStep(s, c, i);
    if i < |s| - 1 {
      ClosingCloses(s, c, i + 1);
    }
  }

  predicate IsPlain(c: char) {
    IsWord(c) || c == '#'
  }

  lemma {:induction false} PlainLine(line: string, i: nat, s: seq<char>)
    requires i <= |line| && forall j :: i <= j < |line| ==> IsPlain(line[j])
    ensures NextToken(line, i) == |line| && ForwardScan(line, i, s) == Open(s)
    decreases |line| - i
  {
    if i < |line| {
      PlainLine(line, i + 1, s);
    }
  }

  /** After the lines "#else" and s closed up, a token decides. */
  lemma BranchDecides(s: seq<char>, c: char, rest: seq<string>)
    requires Openers(s) && (c == '>' || c == ';')
    ensures GoesOn(["#else", Closing(s) + [c]] + rest, s) <==> c == '>'
  {
    var lines := ["#else", Closing(s) + [c]] + rest;
    assert lines[0] == "#else" && lines[1] == Closing(s) + [c];
    PlainLine("#else", 0, s);
    assert NextToken(lines[1], |s|) == |s|;
    assert InTemplate(lines, 1, |s|) <==> c == '>';
    if s == [] {
      assert InTemplate(lines, 0, 0) == InTemplate(lines, 1, 0);
    } else {
      ClosingCloses(s, c, 0);
      assert s[..|s|] == s;
      assert ForwardLines(lines, 1, 0, s) == At(1, |s|);
      assert ForwardLines(lines, 0, 0, s) == At(1, |s|);
    }
  }

  /** The line of an else-branch that turns the verdict over. */
  function TurningLine(w: seq<string>, end: nat, kept: seq<string>): string
    requires LookAt(w, 0, end) == More
  {
    Closing(LeftOpen(w, 0, end)) + [if InTemplate(w + kept, 0, end) then ';' else '>']
  }

  lemma TurningLineTurns(w: seq<string>, end: nat, rest: seq<string>, kept: seq<string>)
    requires w != [] && LookAt(w, 0, end) == More
    ensures var line := TurningLine(w, end, kept);
            && InTemplate(w + (["#else", line] + rest), 0, end) != InTemplate(w + kept, 0, end)
            && line != [] && line[0] != '#' && !IsSpace(line[0])
  {
    var s := LeftOpen(w, 0, end);
    var c := if InTemplate(w + kept, 0, end) then ';' else '>';
    LeftOpeners(w, 0, end);
    BranchDecides(s, c, rest);
    LookGoesOn(w, ["#else", Closing(s) + [c]] + rest, 0, end);
    if s != [] {
      assert IsOpener(Last(s)) && Closing(s)[0] == Closer(Last(s));
    }
  }

  /** When the lines w do not decide, and only then, what comes between w and the kept lines after it
      can change the verdict. */
  lemma DecidedExactly(w: seq<string>, end: nat, kept: seq<string>)
    requires w != []
    ensures LookAt(w, 0, end) != More
       <==> forall branch: seq<string> :: InTemplate(w + (branch + kept), 0, end) == InTemplate(w + kept, 0, end)
  {
    if LookAt(w, 0, end) != More {
      forall branch: seq<string>
        ensures InTemplate(w + (branch + kept), 0, end) == InTemplate(w + kept, 0, end)
      {
        LookIsLocal(w, branch + kept, 0, end);
        LookIsLocal(w, kept, 0, end);
        VerdictOfLook(w + (branch + kept), 0, end);
        VerdictOfLook(w + kept, 0, end);
      }
    } else {
      var branch := ["#else", TurningLine(w, end, kept)];
      TurningLineTurns(w, end, kept, kept);
      assert InTemplate(w + (branch + kept), 0, end) != InTemplate(w + kept, 0, end);
    }
  }
}

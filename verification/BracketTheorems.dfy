/**
 What the two scanners find from a round, square or curly bracket: exactly what a plain
 typed-bracket matcher finds, which knows nothing of '<', '>', ';' or operators.
 */
module BracketTheorems {
  import opened BracketText
  import opened Common
  import opened BracketScan

  // ------------------------------------------------- the plain matcher

  function PlainStep(c: char, s: seq<char>): Act {
    if IsOpen(c) then Go(s + [c])
    else if IsClose(c) then
      if s == [] || Last(s) != Mirror(c) then Stop else if |s| == 1 then Hit else Go(Front(s))
    else Go(s)
  }

  function PlainScan(t: string, i: nat, s: seq<char>): Scan
    requires i <= |t|
    decreases |t| - i
  {
    if i == |t| then Open(s)
    else
      match PlainStep(t[i], s)
      case Go(s') => PlainScan(t, i + 1, s')
      case Stop => Dead
      case Hit => Found(i + 1)
  }

  function PlainBackStep(c: char, s: seq<char>): Act {
    if IsClose(c) then Go(s + [c])
    else if IsOpen(c) then
      if s == [] || Last(s) != Mirror(c) then Stop else if |s| == 1 then Hit else Go(Front(s))
    else Go(s)
  }

  function PlainBackScan(t: string, i: int, s: seq<char>): Scan
    requires -1 <= i < |t|
    decreases i + 1
  {
    if i < 0 then Open(s)
    else
      match PlainBackStep(t[i], s)
      case Go(s') => PlainBackScan(t, i - 1, s')
      case Stop => Dead
      case Hit => Found(i)
  }

  // ------------------------------------------------- angle brackets are transparent

  /** s without its tentative a's. */
  function Strip(s: seq<char>, a: char): seq<char> {
    if s == [] then [] else if Last(s) == a then Strip(Front(s), a) else Strip(Front(s), a) + [Last(s)]
  }

  lemma StripPush(s: seq<char>, c: char, a: char)
    ensures Strip(s + [c], a) == if c == a then Strip(s, a) else Strip(s, a) + [c]
  {
    assert Front(s + [c]) == s;
  }

  lemma {:induction false} StripDropTop(s: seq<char>, a: char)
    ensures Strip(DropTop(s, a), a) == Strip(s, a)
    ensures DropTop(s, a) != [] ==> Last(DropTop(s, a)) != a && Last(DropTop(s, a)) == Last(Strip(s, a))
    ensures |DropTop(s, a)| <= |s| && DropTop(s, a) == s[..|DropTop(s, a)|]
    ensures DropTop(s, a) == [] ==> Strip(s, a) == []
  {
    if s != [] && Last(s) == a {
      StripDropTop(Front(s), a);
    }
  }

  /** A stack that started from a real bracket keeps it at the bottom. */
  predicate Rooted(s: seq<char>, a: char) {
    s != [] && s[0] != a
  }

  lemma {:induction false} StripRooted(s: seq<char>, a: char)
    requires Rooted(s, a)
    ensures Strip(s, a) != [] && Strip(s, a)[0] == s[0]
    ensures |s| > 1 && Last(s) != a ==> |Strip(s, a)| > 1
    ensures |Strip(s, a)| <= |s|
  {
    if |s| > 1 {
      StripRooted(Front(s), a);
    }
  }

  /** What a bracket finds below the tentative a's at the top. */
  lemma StripTop(s: seq<char>, a: char)
    requires Rooted(s, a)
    ensures var r := DropTop(s, a);
            && Rooted(r, a) && Strip(r, a) == Strip(s, a) != [] && Last(r) == Last(Strip(s, a))
            && (|r| == 1 <==> |Strip(s, a)| == 1)
            && (|r| > 1 ==> Rooted(Front(r), a) && Strip(Front(r), a) == Front(Strip(s, a)))
  {
    StripDropTop(s, a);
    StripRooted(s, a);
    var r := DropTop(s, a);
    if r != [] {
      StripRooted(r, a);
      assert Strip(r, a) == Strip(Front(r), a) + [Last(r)];
    }
  }

  ghost predicate SameAct(x: Act, y: Act, a: char) {
    match x
    case Go(s) => Rooted(s, a) && y == Go(Strip(s, a))
    case Stop => y == Stop
    case Hit => y == Hit
  }

  ghost predicate SameScan(x: Scan, y: Scan, a: char) {
    match x
    case Open(s) => Rooted(s, a) && y == Open(Strip(s, a))
    case Found(e) => y == x
    case Dead => y == x
  }

  lemma ForwardStepTransparent(line: string, i: nat, s: seq<char>)
    requires i < |line| && Rooted(s, '<')
    ensures SameAct(ForwardStep(line, i, s), PlainStep(line[i], Strip(s, '<')), '<')
  {
    if IsOpen(line[i]) || line[i] == '<' {
      StripPush(s, line[i], '<');
    } else if IsClose(line[i]) || line[i] == ';' {
      StripTop(s, '<');
    }
  }

  lemma {:induction false} ForwardTransparent(line: string, i: nat, s: seq<char>)
    requires i <= |line| && Rooted(s, '<')
    ensures SameScan(ForwardScan(line, i, s), PlainScan(line, i, Strip(s, '<')), '<')
    decreases |line| - i
  {
    if i < |line| {
      ForwardStepTransparent(line, i, s);
      var act := ForwardStep(line, i, s);
      if act.Go? {
        ForwardTransparent(line, i + 1, act.stack);
      }
    }
  }

  lemma BackwardStepTransparent(line: string, i: nat, s: seq<char>)
    requires i < |line| && Rooted(s, '>')
    ensures SameAct(BackwardStep(line, i, s), PlainBackStep(line[i], Strip(s, '>')), '>')
  {
    if IsClose(line[i]) || line[i] == '>' {
      StripPush(s, line[i], '>');
    } else if IsOpen(line[i]) || line[i] == ';' {
      StripTop(s, '>');
    }
  }

  /** The backward scanner never skips a bracket. */
  lemma SkippedIsNoBracket(line: string, i: nat)
    requires i < |line| && SkipsOne(line, i)
    ensures i > 0 && !IsOpen(line[i - 1]) && !IsClose(line[i - 1])
  {
    if line[i] == '>' {
      OperatorEnd(line[..i]);
    }
  }

  lemma {:induction false} BackwardTransparent(line: string, i: int, s: seq<char>)
    requires -1 <= i < |line| && Rooted(s, '>')
    ensures SameScan(BackwardScan(line, i, s), PlainBackScan(line, i, Strip(s, '>')), '>')
    decreases i + 1
  {
    if i >= 0 {
      BackwardStepTransparent(line, i, s);
      var act := BackwardStep(line, i, s);
      if act.Go? {
        if SkipsOne(line, i) {
          SkippedIsNoBracket(line, i);
          assert PlainBackStep(line[i - 1], Strip(s, '>')) == Go(Strip(s, '>'));
          BackwardTransparent(line, i - 2, act.stack);
        } else {
          BackwardTransparent(line, i - 1, act.stack);
        }
      }
    }
  }

  // ------------------------------------------------- line ends do not matter

  lemma {:induction false} PlainScanRange(t: string, i: nat, s: seq<char>)
    requires i <= |t| && s != []
    ensures match PlainScan(t, i, s)
            case Found(e) => i < e <= |t| && IsClose(t[e - 1])
            case Dead => true
            case Open(s') => s' != []
    decreases |t| - i
  {
    if i < |t| {
      var act := PlainStep(t[i], s);
      if act.Go? {
        PlainScanRange(t, i + 1, act.stack);
      }
    }
  }

  /** Scanning line n of the flat text is scanning line n. */
  lemma {:induction false} PlainScanLine(lines: seq<string>, n: nat, i: nat, s: seq<char>)
    requires n < |lines| && i <= |lines[n]|
    ensures Offset(lines, n) + i <= Offset(lines, n + 1) <= |Flat(lines)|
    ensures PlainScan(Flat(lines), Offset(lines, n) + i, s) ==
            match PlainScan(lines[n], i, s)
            case Found(e) => Found(Offset(lines, n) + e)
            case Dead => Dead
            case Open(s') => PlainScan(Flat(lines), Offset(lines, n + 1), s')
    decreases |lines[n]| - i
  {
    OffsetNext(lines, n);
    OffsetMonotonic(lines, n, n + 1);
    if i < |lines[n]| {
      FlatAt(lines, n, i);
      var act := PlainStep(lines[n][i], s);
      if act.Go? {
        PlainScanLine(lines, n, i + 1, act.stack);
      }
    }
  }

  /** A forward result over lines and a forward result over the flat text are the same place. */
  ghost predicate SameEnd(lines: seq<string>, x: Position, y: Scan) {
    match x
    case At(m, e) =>
      m < |lines| && 0 < e <= |lines[m]| && IsClose(lines[m][e - 1]) && y == Found(Offset(lines, m) + e)
    case NoMatch => !y.Found?
  }

  lemma {:induction false} ForwardLinesFlat(lines: seq<string>, n: nat, i: nat, s: seq<char>)
    requires n < |lines| && i <= |lines[n]| && Rooted(s, '<')
    ensures Offset(lines, n) + i <= |Flat(lines)|
    ensures SameEnd(lines, ForwardLines(lines, n, i, s),
                    PlainScan(Flat(lines), Offset(lines, n) + i, Strip(s, '<')))
    decreases |lines| - n
  {
    ForwardTransparent(lines[n], i, s);
    StripRooted(s, '<');
    PlainScanLine(lines, n, i, Strip(s, '<'));
    PlainScanRange(lines[n], i, Strip(s, '<'));
    var r := ForwardScan(lines[n], i, s);
    if r.Open? {
      if n + 1 < |lines| {
        ForwardLinesFlat(lines, n + 1, 0, r.stack);
      } else {
        OffsetMonotonic(lines, n + 1, n + 1);
      }
    }
  }

  lemma CloseFromBracket(lines: seq<string>, n: nat, p: nat)
    requires n < |lines| && p < |lines[n]| && IsOpen(lines[n][p])
    ensures Close(lines, n, p) == ForwardLines(lines, n, p + 1, [lines[n][p]])
    ensures Strip([lines[n][p]], '<') == [lines[n][p]]
  {
    assert Strip([lines[n][p]], '<') == Strip(Front([lines[n][p]]), '<') + [lines[n][p]];
    assert ForwardStep(lines[n], p, []) == Go([] + [lines[n][p]]) == Go([lines[n][p]]);
  }

  lemma PlainFromBracket(t: string, i: nat)
    requires i < |t| && IsOpen(t[i])
    ensures PlainScan(t, i, []) == PlainScan(t, i + 1, [t[i]])
  {
    assert [] + [t[i]] == [t[i]];
  }

  /** From a bracket, CloseExpression finds what the plain matcher finds in the concatenated
      lines: '<', '>', ';' and line ends make no difference. */
  lemma CloseIsPlain(lines: seq<string>, n: nat, p: nat)
    requires n < |lines| && p < |lines[n]| && IsOpen(lines[n][p])
    ensures Offset(lines, n) + p < |Flat(lines)|
    ensures SameEnd(lines, Close(lines, n, p), PlainScan(Flat(lines), Offset(lines, n) + p, []))
  {
    FlatAt(lines, n, p);
    CloseFromBracket(lines, n, p);
    PlainFromBracket(Flat(lines), Offset(lines, n) + p);
    ForwardLinesFlat(lines, n, p + 1, [lines[n][p]]);
  }

  lemma {:induction false} PlainBackRange(t: string, i: int, s: seq<char>)
    requires -1 <= i < |t| && s != []
    ensures match PlainBackScan(t, i, s)
            case Found(b) => b <= i && IsOpen(t[b])
            case Dead => true
            case Open(s') => s' != []
    decreases i + 1
  {
    if i >= 0 {
      var act := PlainBackStep(t[i], s);
      if act.Go? {
        PlainBackRange(t, i - 1, act.stack);
      }
    }
  }

  lemma {:induction false} PlainBackLine(lines: seq<string>, n: nat, i: int, s: seq<char>)
    requires n < |lines| && -1 <= i < |lines[n]|
    ensures Offset(lines, n) + i < |Flat(lines)|
    ensures PlainBackScan(Flat(lines), Offset(lines, n) + i, s) ==
            match PlainBackScan(lines[n], i, s)
            case Found(b) => Found(Offset(lines, n) + b)
            case Dead => Dead
            case Open(s') => PlainBackScan(Flat(lines), Offset(lines, n) - 1, s')
    decreases i + 1
  {
    OffsetNext(lines, n);
    OffsetMonotonic(lines, n, n + 1);
    if i >= 0 {
      FlatAt(lines, n, i);
      var act := PlainBackStep(lines[n][i], s);
      if act.Go? {
        PlainBackLine(lines, n, i - 1, act.stack);
      }
    } else {
      OffsetMonotonic(lines, n, n);
    }
  }

  ghost predicate SameStart(lines: seq<string>, x: Position, y: Scan) {
    match x
    case At(m, b) =>
      m < |lines| && b < |lines[m]| && IsOpen(lines[m][b]) && y == Found(Offset(lines, m) + b)
    case NoMatch => !y.Found?
  }

  lemma {:induction false} BackwardLinesFlat(lines: seq<string>, n: nat, i: int, s: seq<char>)
    requires n < |lines| && -1 <= i < |lines[n]| && Rooted(s, '>')
    ensures Offset(lines, n) + i < |Flat(lines)|
    ensures SameStart(lines, BackwardLines(lines, n, i, s),
                      PlainBackScan(Flat(lines), Offset(lines, n) + i, Strip(s, '>')))
    decreases n
  {
    BackwardTransparent(lines[n], i, s);
    StripRooted(s, '>');
    PlainBackLine(lines, n, i, Strip(s, '>'));
    PlainBackRange(lines[n], i, Strip(s, '>'));
    var r := BackwardScan(lines[n], i, s);
    if r.Open? && n > 0 {
      OffsetNext(lines, n - 1);
      BackwardLinesFlat(lines, n - 1, |lines[n - 1]| - 1, r.stack);
    }
  }

  /** From a closing bracket, ReverseCloseExpression finds what the plain backward matcher finds
      in the concatenated lines. */
  lemma ReverseCloseIsPlain(lines: seq<string>, n: nat, p: nat)
    requires n < |lines| && p < |lines[n]| && IsClose(lines[n][p])
    ensures Offset(lines, n) + p < |Flat(lines)|
    ensures SameStart(lines, ReverseClose(lines, n, p),
                      PlainBackScan(Flat(lines), Offset(lines, n) + p, []))
  {
    FlatAt(lines, n, p);
    var c := lines[n][p];
    assert [] + [c] == [c] && Strip([c], '>') == Strip(Front([c]), '>') + [c] == [c];
    assert BackwardLines(lines, n, p, []) == BackwardLines(lines, n, p - 1, [c]);
    assert PlainBackScan(Flat(lines), Offset(lines, n) + p, [])
        == PlainBackScan(Flat(lines), Offset(lines, n) + p - 1, [c]);
    BackwardLinesFlat(lines, n, p - 1, [c]);
  }

  // ------------------------------------------------- forward and backward are inverse

  lemma MirrorPush(s: seq<char>, c: char)
    ensures MirrorAll(s + [c]) == MirrorAll(s) + [Mirror(c)]
    ensures s != [] ==> MirrorAll(Front(s)) == Front(MirrorAll(s))
  {
  }

  ghost predicate OpensOnly(s: seq<char>) {
    forall c :: c in s ==> IsOpen(c)
  }

  /** While the forward matcher is on its way to j, the backward matcher coming from j passes
      with the mirrored stack. */
  lemma {:induction false} BackwardMirrorsForward(t: string, k: nat, s: seq<char>, j: nat)
    requires 0 < k <= |t| && j < |t| && s != [] && OpensOnly(s)
    requires PlainScan(t, k, s) == Found(j + 1)
    ensures PlainBackScan(t, j, []) == PlainBackScan(t, k - 1, MirrorAll(s))
    decreases |t| - k
  {
    var c := t[k];
    var act := PlainStep(c, s);
    StepBack(s, c);
    if act.Go? {
      BackwardMirrorsForward(t, k + 1, act.stack, j);
    }
  }

  /** A backward step undoes a forward step, on the mirrored stacks. */
  lemma StepBack(s: seq<char>, c: char)
    requires s != [] && OpensOnly(s)
    ensures match PlainStep(c, s)
            case Go(s') => s' != [] && OpensOnly(s') && PlainBackStep(c, MirrorAll(s')) == Go(MirrorAll(s))
            case Hit => PlainBackStep(c, []) == Go(MirrorAll(s))
            case Stop => true
  {
    MirrorPush(s, c);
    if IsClose(c) {
      if |s| == 1 {
        assert MirrorAll(s) == [Mirror(s[0])] && [] + [c] == [c];
      } else {
        assert MirrorAll(s) == MirrorAll(Front(s)) + [Mirror(Last(s))];
      }
    } else if IsOpen(c) {
      assert Front(MirrorAll(s) + [Mirror(c)]) == MirrorAll(s);
    }
  }

  ghost predicate ClosesOnly(s: seq<char>) {
    forall c :: c in s ==> IsClose(c)
  }

  lemma {:induction false} ForwardMirrorsBackward(t: string, k: int, s: seq<char>, i: nat)
    requires -1 <= k < |t| - 1 && i < |t| && s != [] && ClosesOnly(s)
    requires PlainBackScan(t, k, s) == Found(i)
    ensures PlainScan(t, i, []) == PlainScan(t, k + 1, MirrorAll(s))
    decreases k + 1
  {
    var c := t[k];
    var act := PlainBackStep(c, s);
    StepForth(s, c);
    if act.Go? {
      ForwardMirrorsBackward(t, k - 1, act.stack, i);
    }
  }

  /** A forward step undoes a backward step, on the mirrored stacks. */
  lemma StepForth(s: seq<char>, c: char)
    requires s != [] && ClosesOnly(s)
    ensures match PlainBackStep(c, s)
            case Go(s') => s' != [] && ClosesOnly(s') && PlainStep(c, MirrorAll(s')) == Go(MirrorAll(s))
            case Hit => PlainStep(c, []) == Go(MirrorAll(s))
            case Stop => true
  {
    MirrorPush(s, c);
    if IsOpen(c) {
      if |s| == 1 {
        assert MirrorAll(s) == [Mirror(s[0])] && [] + [c] == [c];
      } else {
        assert MirrorAll(s) == MirrorAll(Front(s)) + [Mirror(Last(s))];
      }
    } else if IsClose(c) {
      assert Front(MirrorAll(s) + [Mirror(c)]) == MirrorAll(s);
    }
  }

  lemma PlainInverse(t: string, i: nat, j: nat)
    requires i < |t| && j < |t| && IsOpen(t[i]) && IsClose(t[j])
    ensures PlainScan(t, i, []) == Found(j + 1) <==> PlainBackScan(t, j, []) == Found(i)
  {
    assert PlainScan(t, i, []) == PlainScan(t, i + 1, [t[i]]) by {
      assert [] + [t[i]] == [t[i]];
    }
    assert PlainBackScan(t, j, []) == PlainBackScan(t, j - 1, [t[j]]) by {
      assert [] + [t[j]] == [t[j]];
    }
    if PlainScan(t, i, []) == Found(j + 1) {
      BackwardMirrorsForward(t, i + 1, [t[i]], j);
      assert MirrorAll([t[i]]) == [Mirror(t[i])];
    }
    if PlainBackScan(t, j, []) == Found(i) {
      ForwardMirrorsBackward(t, j - 1, [t[j]], i);
      assert MirrorAll([t[j]]) == [Mirror(t[j])];
    }
  }

  /** The two scanners are inverse to each other, over any number of lines and with any text
      between the brackets. */
  lemma ScannersAreInverse(lines: seq<string>, n: nat, p: nat, m: nat, q: nat)
    requires n < |lines| && p < |lines[n]| && IsOpen(lines[n][p])
    requires m < |lines| && q < |lines[m]| && IsClose(lines[m][q])
    ensures Close(lines, n, p) == At(m, q + 1) <==> ReverseClose(lines, m, q) == At(n, p)
  {
    var t := Flat(lines);
    var i, j := Offset(lines, n) + p, Offset(lines, m) + q;
    FlatAt(lines, n, p);
    FlatAt(lines, m, q);
    CloseIsPlain(lines, n, p);
    ReverseCloseIsPlain(lines, m, q);
    PlainInverse(t, i, j);
    var x, y := Close(lines, n, p), ReverseClose(lines, m, q);
    if x.At? && PlainScan(t, i, []) == Found(j + 1) {
      OffsetInjective(lines, x.line, x.pos - 1, m, q);
    }
    if y.At? && PlainBackScan(t, j, []) == Found(i) {
      OffsetInjective(lines, y.line, y.pos, n, p);
    }
  }

  /** Whatever CloseExpression finds from a bracket, ReverseCloseExpression undoes. */
  lemma CloseRoundTrip(lines: seq<string>, n: nat, p: nat)
    requires n < |lines| && p < |lines[n]| && IsOpen(lines[n][p])
    ensures match Close(lines, n, p)
            case At(m, e) =>
              && m < |lines| && 0 < e <= |lines[m]|
              && lines[m][e - 1] == (if lines[n][p] == '(' then ')' else if lines[n][p] == '[' then ']' else '}')
              && ReverseClose(lines, m, e - 1) == At(n, p)
            case NoMatch => true
  {
    CloseIsPlain(lines, n, p);
    var x := Close(lines, n, p);
    if x.At? {
      var m, q := x.line, x.pos - 1;
      ScannersAreInverse(lines, n, p, m, q);
      ReverseCloseMatches(lines, m, q);
    }
  }

  lemma {:induction false} PlainBackKind(t: string, i: int, s: seq<char>)
    requires -1 <= i < |t| && s != []
    ensures match PlainBackScan(t, i, s)
            case Found(b) => b <= i && s[0] == Mirror(t[b])
            case Dead => true
            case Open(s') => true
    decreases i + 1
  {
    if i >= 0 {
      var act := PlainBackStep(t[i], s);
      if act.Go? {
        PlainBackKind(t, i - 1, act.stack);
      }
    }
  }

  lemma ReverseCloseMatches(lines: seq<string>, m: nat, q: nat)
    requires m < |lines| && q < |lines[m]| && IsClose(lines[m][q])
    ensures match ReverseClose(lines, m, q)
            case At(n, p) => n < |lines| && p < |lines[n]| && lines[m][q] == Mirror(lines[n][p])
            case NoMatch => true
  {
    ReverseCloseIsPlain(lines, m, q);
    FlatAt(lines, m, q);
    var c := lines[m][q];
    assert PlainBackScan(Flat(lines), Offset(lines, m) + q, [])
        == PlainBackScan(Flat(lines), Offset(lines, m) + q - 1, [c]) by {
      assert [] + [c] == [c];
    }
    PlainBackKind(Flat(lines), Offset(lines, m) + q - 1, [c]);
    var y := ReverseClose(lines, m, q);
    if y.At? {
      FlatAt(lines, y.line, y.pos);
    }
  }

  /** And the other way round. */
  lemma ReverseRoundTrip(lines: seq<string>, m: nat, q: nat)
    requires m < |lines| && q < |lines[m]| && IsClose(lines[m][q])
    ensures match ReverseClose(lines, m, q)
            case At(n, p) => n < |lines| && p < |lines[n]| && Close(lines, n, p) == At(m, q + 1)
            case NoMatch => true
  {
    ReverseCloseIsPlain(lines, m, q);
    var y := ReverseClose(lines, m, q);
    if y.At? {
      ScannersAreInverse(lines, y.line, y.pos, m, q);
    }
  }

  // ------------------------------------------------- splitting lines

  /** Cutting the text into lines elsewhere, or not at all, moves no match. */
  lemma LineSplitInvariance(lines: seq<string>, n: nat, p: nat, lines': seq<string>, n': nat, p': nat)
    requires n < |lines| && p < |lines[n]| && IsOpen(lines[n][p])
    requires n' < |lines'| && p' < |lines'[n']| && IsOpen(lines'[n'][p'])
    requires Flat(lines) == Flat(lines') && Offset(lines, n) + p == Offset(lines', n') + p'
    ensures match (Close(lines, n, p), Close(lines', n', p'))
            case (At(m, e), At(m', e')) =>
              m < |lines| && m' < |lines'| && Offset(lines, m) + e == Offset(lines', m') + e'
            case (NoMatch, NoMatch) => true
            case _ => false
  {
    CloseIsPlain(lines, n, p);
    CloseIsPlain(lines', n', p');
  }

  lemma CloseOneLine(text: string, p: nat)
    requires p < |text| && IsOpen(text[p])
    ensures match Close([text], 0, p)
            case At(m, e) =>
              m == 0 && p < e - 1 < |text| && PlainScan(text, p + 1, [text[p]]) == Found(e)
            case NoMatch => !PlainScan(text, p + 1, [text[p]]).Found?
  {
    assert Flat([text]) == text + [] == text;
    assert PlainScan(text, p, []) == PlainScan(text, p + 1, [text[p]]) by {
      assert [] + [text[p]] == [text[p]];
    }
    CloseIsPlain([text], 0, p);
    PlainScanRange(text, p + 1, [text[p]]);
  }
}

/**
 What the bracket matchers find, in terms of a grammar of balanced text and of nothing else:
   B ::= (nothing) | other B | "(" B ")" B | "[" B "]" B | "{" B "}" B
 */
module Balanced {
  import opened BracketScan
  import opened BracketText
  import opened BracketTheorems
  import opened Common

  predicate IsPair(a: char, b: char) {
    (a == '(' && b == ')') || (a == '[' && b == ']') || (a == '{' && b == '}')
  }

  /** t[i..j] is balanced. */
  ghost predicate B(t: string, i: nat, j: nat)
    requires i <= j <= |t|
    decreases j - i
  {
    || i == j
    || (t[i] !in "()[]{}" && B(t, i + 1, j))
    || exists k :: i < k < j && IsPair(t[i], t[k]) && B(t, i + 1, k) && B(t, k + 1, j)
  }

  lemma Brackets(c: char)
    ensures IsOpen(c) <==> c in "([{"
    ensures IsClose(c) <==> c in ")]}"
    ensures forall d :: IsPair(c, d) <==> IsOpen(c) && d == Mirror(c)
    ensures forall d :: IsPair(d, c) <==> IsClose(c) && d == Mirror(c)
  {
  }

  /** The plain matcher passes over balanced text. */
  lemma {:induction false} PassBalanced(t: string, i: nat, j: nat, s: seq<char>)
    requires i <= j <= |t| && B(t, i, j) && s != []
    ensures PlainScan(t, i, s) == PlainScan(t, j, s)
    decreases j - i
  {
    if i < j {
      Brackets(t[i]);
      if t[i] !in "()[]{}" && B(t, i + 1, j) {
        PassBalanced(t, i + 1, j, s);
      } else {
        var k :| i < k < j && IsPair(t[i], t[k]) && B(t, i + 1, k) && B(t, k + 1, j);
        PassBalanced(t, i + 1, k, s + [t[i]]);
        Brackets(t[k]);
        assert Last(s + [t[i]]) == t[i] && Front(s + [t[i]]) == s;
        PassBalanced(t, k + 1, j, s);
      }
    }
  }

  lemma PairAndRest(t: string, i: nat, k: nat, j: nat)
    requires i < k < j <= |t| && IsPair(t[i], t[k]) && B(t, i + 1, k) && B(t, k + 1, j)
    ensures B(t, i, j)
  {
  }

  lemma OtherAndRest(t: string, i: nat, j: nat)
    requires i < j <= |t| && t[i] !in "()[]{}" && B(t, i + 1, j)
    ensures B(t, i, j)
  {
  }

  lemma PlainNext(t: string, i: nat, s: seq<char>)
    requires i < |t| && s != [] && PlainScan(t, i, s).Found?
    ensures t[i] in "([{" ==> PlainScan(t, i, s) == PlainScan(t, i + 1, s + [t[i]])
    ensures t[i] in ")]}" ==>
              && IsPair(Last(s), t[i])
              && PlainScan(t, i, s) == if |s| == 1 then Found(i + 1) else PlainScan(t, i + 1, Front(s))
    ensures t[i] !in "()[]{}" ==> PlainScan(t, i, s) == PlainScan(t, i + 1, s)
  {
    Brackets(t[i]);
    Brackets(Last(s));
  }

  /** When the plain matcher closes everything, the bracket at the top is closed after balanced text. */
  lemma {:induction false} TopCloses(t: string, i: nat, s: seq<char>) returns (j: nat)
    requires i <= |t| && s != [] && PlainScan(t, i, s).Found?
    ensures i <= j < |t| && B(t, i, j) && IsPair(Last(s), t[j])
    ensures PlainScan(t, i, s) == if |s| == 1 then Found(j + 1) else PlainScan(t, j + 1, Front(s))
    decreases |t| - i
  {
    PlainNext(t, i, s);
    if t[i] in "([{" {
      var s' := s + [t[i]];
      assert Last(s') == t[i] && Front(s') == s;
      var k := TopCloses(t, i + 1, s');
      j := TopCloses(t, k + 1, s);
      PairAndRest(t, i, k, j);
    } else if t[i] in ")]}" {
      j := i;
    } else {
      j := TopCloses(t, i + 1, s);
      OtherAndRest(t, i, j);
    }
  }

  /** From a bracket, the plain matcher stops at j if and only if a balanced text and the other
      bracket of the pair follow. */
  lemma PlainIsBalanced(t: string, i: nat, j: nat)
    requires i < |t| && j < |t| && t[i] in "([{"
    ensures PlainScan(t, i, []) == Found(j + 1) <==> i < j && IsPair(t[i], t[j]) && B(t, i + 1, j)
  {
    Brackets(t[i]);
    Brackets(t[j]);
    PlainFromBracket(t, i);
    if PlainScan(t, i + 1, [t[i]]) == Found(j + 1) {
      var k := TopCloses(t, i + 1, [t[i]]);
    }
    if i < j && IsPair(t[i], t[j]) && B(t, i + 1, j) {
      PassBalanced(t, i + 1, j, [t[i]]);
    }
  }

  /** Between the two positions lies balanced text, and the positions hold a pair of brackets. */
  ghost predicate Encloses(lines: seq<string>, n: nat, p: nat, m: nat, q: nat)
    requires n < |lines| && p < |lines[n]| && m < |lines| && q < |lines[m]|
  {
    FlatAt(lines, n, p);
    FlatAt(lines, m, q);
    var i, j := Offset(lines, n) + p, Offset(lines, m) + q;
    i < j && IsPair(lines[n][p], lines[m][q]) && B(Flat(lines), i + 1, j)
  }

  /** CloseExpression leads from a bracket to just past (m, q) if and only if the text in between is
      balanced and the two are a pair. */
  lemma CloseIsBalanced(lines: seq<string>, n: nat, p: nat, m: nat, q: nat)
    requires n < |lines| && p < |lines[n]| && lines[n][p] in "([{"
    requires m < |lines| && q < |lines[m]|
    ensures Close(lines, n, p) == At(m, q + 1) <==> Encloses(lines, n, p, m, q)
  {
    var t, i, j := Flat(lines), Offset(lines, n) + p, Offset(lines, m) + q;
    Brackets(lines[n][p]);
    FlatAt(lines, n, p);
    FlatAt(lines, m, q);
    CloseIsPlain(lines, n, p);
    PlainIsBalanced(t, i, j);
    var x := Close(lines, n, p);
    if x.At? && PlainScan(t, i, []) == Found(j + 1) {
      OffsetInjective(lines, x.line, x.pos - 1, m, q);
    }
  }

  /** And when it finds nothing, there is nothing. */
  lemma CloseNone(lines: seq<string>, n: nat, p: nat)
    requires n < |lines| && p < |lines[n]| && lines[n][p] in "([{"
    ensures Close(lines, n, p) == NoMatch
       <==> forall m, q | 0 <= m < |lines| && 0 <= q < |lines[m]| :: !Encloses(lines, n, p, m, q)
  {
    Brackets(lines[n][p]);
    CloseIsPlain(lines, n, p);
    var x := Close(lines, n, p);
    if x.At? {
      CloseIsBalanced(lines, n, p, x.line, x.pos - 1);
    } else {
      forall m, q | 0 <= m < |lines| && 0 <= q < |lines[m]|
        ensures !Encloses(lines, n, p, m, q)
      {
        CloseIsBalanced(lines, n, p, m, q);
      }
    }
  }

  /** ReverseCloseExpression leads from a bracket back to (n, p) if and only if the same holds. */
  lemma ReverseCloseIsBalanced(lines: seq<string>, n: nat, p: nat, m: nat, q: nat)
    requires m < |lines| && q < |lines[m]| && lines[m][q] in ")]}"
    requires n < |lines| && p < |lines[n]|
    ensures ReverseClose(lines, m, q) == At(n, p) <==> Encloses(lines, n, p, m, q)
  {
    Brackets(lines[m][q]);
    Brackets(lines[n][p]);
    if IsOpen(lines[n][p]) {
      ScannersAreInverse(lines, n, p, m, q);
      CloseIsBalanced(lines, n, p, m, q);
    } else {
      ReverseCloseMatches(lines, m, q);
    }
  }

  lemma ReverseCloseNone(lines: seq<string>, m: nat, q: nat)
    requires m < |lines| && q < |lines[m]| && lines[m][q] in ")]}"
    ensures ReverseClose(lines, m, q) == NoMatch
       <==> forall n, p | 0 <= n < |lines| && 0 <= p < |lines[n]| :: !Encloses(lines, n, p, m, q)
  {
    Brackets(lines[m][q]);
    ReverseCloseMatches(lines, m, q);
    var y := ReverseClose(lines, m, q);
    if y.At? {
      ReverseCloseIsBalanced(lines, y.line, y.pos, m, q);
    } else {
      forall n, p | 0 <= n < |lines| && 0 <= p < |lines[n]|
        ensures !Encloses(lines, n, p, m, q)
      {
        ReverseCloseIsBalanced(lines, n, p, m, q);
      }
    }
  }

  /** The scanners refuse to start anywhere but at a bracket, and at a '<' that starts "<<" or "<=". */
  lemma NoStart(lines: seq<string>, n: nat, p: nat)
    requires n < |lines| && p < |lines[n]|
    ensures lines[n][p] !in "([{<" ==> Close(lines, n, p) == NoMatch
    ensures lines[n][p] == '<' && p + 1 < |lines[n]| && lines[n][p + 1] in "<=" ==> Close(lines, n, p) == NoMatch
    ensures lines[n][p] !in ")]}>" ==> ReverseClose(lines, n, p) == NoMatch
  {
  }

  lemma BalancedInside(text: string, start: nat)
    requires 0 < start <= |text| && text[start - 1] in "([{"
    ensures IsOpen(text[start - 1])
    ensures forall j | start <= j < |text| ::
              PlainScan(text, start, [text[start - 1]]) == Found(j + 1)
              <==> IsPair(text[start - 1], text[j]) && B(text, start, j)
  {
    Brackets(text[start - 1]);
    PlainFromBracket(text, start - 1);
    forall j | start <= j < |text|
      ensures PlainScan(text, start, [text[start - 1]]) == Found(j + 1)
         <==> IsPair(text[start - 1], text[j]) && B(text, start, j)
    {
      PlainIsBalanced(text, start - 1, j);
    }
  }

  /** The text after the bracket that ends at start, up to its closing bracket. It agrees with
      CloseExpression on the same line, although its loop keeps no tentative '<'. */
  method GetTextInside(text: string, start: nat) returns (r: Option<string>)
    requires 0 < start <= |text| && text[start - 1] in "([{"
    ensures match Close([text], 0, start - 1)
            case At(_, e) => start <= e - 1 < |text| && r == Some(text[start..e - 1])
            case NoMatch => r == None
    ensures match r
            case Some(inside) =>
              exists j :: start <= j < |text| && inside == text[start..j]
                && IsPair(text[start - 1], text[j]) && B(text, start, j)
            case None =>
              forall j :: start <= j < |text| ==> !(IsPair(text[start - 1], text[j]) && B(text, start, j))
  {
    BalancedInside(text, start);
    CloseOneLine(text, start - 1);
    var stack := [Mirror(text[start - 1])];
    var position := start;
    ghost var opens := [text[start - 1]];
    ghost var whole := PlainScan(text, start, opens);
    while stack != [] && position < |text|
      invariant start <= position <= |text|
      invariant stack == MirrorAll(opens) && OpensOnly(opens)
      invariant opens == [] ==> whole == Found(position)
      invariant opens != [] ==> whole == PlainScan(text, position, opens)
      decreases |text| - position
    {
      var c := text[position];
      MirrorPush(opens, c);
      assert Last(opens) in opens && stack[|stack| - 1] == Mirror(Last(opens));
      if c == stack[|stack| - 1] {
        stack := stack[..|stack| - 1];
        opens := Front(opens);
      } else if IsClose(c) {
        return None;
      } else if IsOpen(c) {
        stack := stack + [Mirror(c)];
        opens := opens + [c];
      }
      position := position + 1;
    }
    if stack != [] {
      return None;
    }
    return Some(text[start..position - 1]);
  }
}

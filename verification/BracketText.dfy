/**
 Characters, stacks and positions shared by the two bracket scanners.
 */
module BracketText {
  import opened Common

  /** What scanning one line yields: Found(e) is the pair (e, None), Dead is (-1, None) and
      Open(s) is (-1, s). */
  datatype Scan = Found(pos: nat) | Dead | Open(stack: seq<char>)

  /** What one character does to a scan. */
  datatype Act = Go(stack: seq<char>) | Stop | Hit

  /** A position in a list of lines, or no position at all. */
  datatype Position = At(line: nat, pos: nat) | NoMatch

  predicate IsOpen(c: char) {
    c == '(' || c == '[' || c == '{'
  }

  predicate IsClose(c: char) {
    c == ')' || c == ']' || c == '}'
  }

  predicate IsSpace(c: char) {
    c == ' ' || '\t' <= c <= '\r'
  }

  predicate IsWord(c: char) {
    'a' <= c <= 'z' || 'A' <= c <= 'Z' || '0' <= c <= '9' || c == '_'
  }

  /** The bracket on the other side of c. */
  function Mirror(c: char): char {
    match c
    case '(' => ')'
    case '[' => ']'
    case '{' => '}'
    case ')' => '('
    case ']' => '['
    case '}' => '{'
    case _ => c
  }

  function MirrorAll(s: seq<char>): (r: seq<char>)
    ensures |r| == |s|
    ensures forall i :: 0 <= i < |s| ==> r[i] == Mirror(s[i])
  {
    seq(|s|, i requires 0 <= i < |s| => Mirror(s[i]))
  }

  /** s without the run of a's at its top. */
  function DropTop(s: seq<char>, a: char): seq<char> {
    if s != [] && Last(s) == a then DropTop(Front(s), a) else s
  }

  function TrimLeft(s: string): string {
    if s != [] && IsSpace(s[0]) then TrimLeft(s[1..]) else s
  }

  function TrimRight(s: string): string {
    if s != [] && IsSpace(s[|s| - 1]) then TrimRight(s[..|s| - 1]) else s
  }

  /** s ends in the word "operator" and spaces: the pattern \boperator\s*$. */
  predicate EndsInOperator(s: string) {
    var t := TrimRight(s);
    |t| >= 8 && t[|t| - 8..] == "operator" && (|t| == 8 || !IsWord(t[|t| - 9]))
  }

  lemma OperatorEnd(s: string)
    ensures EndsInOperator(s) ==> s != [] && (s[|s| - 1] == 'r' || IsSpace(s[|s| - 1]))
  {
    if EndsInOperator(s) && !IsSpace(s[|s| - 1]) {
      assert s[|s| - 8..][7] == 'r';
    }
  }

  predicate Spaces(s: string) {
    forall c :: c in s ==> c in " \t\n\U{000B}\U{000C}\r"
  }

  lemma {:induction false} TrimLeftIs(s: string) returns (k: nat)
    ensures k <= |s| && TrimLeft(s) == s[k..] && Spaces(s[..k]) && (k < |s| ==> !IsSpace(s[k]))
  {
    if s != [] && IsSpace(s[0]) {
      k := TrimLeftIs(s[1..]);
      assert s[..k + 1] == [s[0]] + s[1..][..k] && s[1..][k..] == s[k + 1..];
      k := k + 1;
    } else {
      k := 0;
    }
  }

  lemma {:induction false} TrimRightIs(s: string) returns (k: nat)
    ensures k <= |s| && TrimRight(s) == s[..k] && Spaces(s[k..]) && (k > 0 ==> !IsSpace(s[k - 1]))
  {
    if s != [] && IsSpace(s[|s| - 1]) {
      var n := |s| - 1;
      k := TrimRightIs(s[..n]);
      assert s[k..] == s[..n][k..] + [s[n]] && s[..n][..k] == s[..k];
    } else {
      k := |s|;
    }
  }

  lemma NoSpaceInSpaces(line: string, k: nat, i: nat, j: nat)
    requires k <= j < i <= |line| && Spaces(line[k..i])
    ensures IsSpace(line[j])
  {
    assert line[j] in line[k..i];
  }

  lemma SpaceIs(c: char)
    ensures IsSpace(c) <==> c in " \t\n\U{000B}\U{000C}\r"
  {
  }

  lemma LowerIs(c: char)
    ensures 'a' <= c <= 'z' <==> c in "abcdefghijklmnopqrstuvwxyz"
  {
    if 'a' <= c <= 'z' {
      assert c == "abcdefghijklmnopqrstuvwxyz"[c as int - 'a' as int];
    }
  }

  lemma UpperIs(c: char)
    ensures 'A' <= c <= 'Z' <==> c in "ABCDEFGHIJKLMNOPQRSTUVWXYZ"
  {
    if 'A' <= c <= 'Z' {
      assert c == "ABCDEFGHIJKLMNOPQRSTUVWXYZ"[c as int - 'A' as int];
    }
  }

  lemma WordIs(c: char)
    ensures IsWord(c)
       <==> c in "abcdefghijklmnopqrstuvwxyz" || c in "ABCDEFGHIJKLMNOPQRSTUVWXYZ" || c in "0123456789_"
  {
    LowerIs(c);
    UpperIs(c);
  }

  /** The word "operator" is at position k of s, and after it only spaces. */
  predicate OperatorAt(s: string, k: nat) {
    && k + 8 <= |s| && s[k..k + 8] == "operator" && Spaces(s[k + 8..])
    && (k > 0 ==> var c := s[k - 1]; !('a' <= c <= 'z' || 'A' <= c <= 'Z' || '0' <= c <= '9' || c == '_'))
  }

  lemma OperatorBeforeSpaces(s: string, k: nat, n: nat)
    requires OperatorAt(s, k) && n <= |s| && Spaces(s[n..]) && (n > 0 ==> !IsSpace(s[n - 1]))
    ensures n == k + 8
  {
    assert s[k + 7] == s[k..k + 8][7] == 'r';
    if n < k + 8 {
      NoSpaceInSpaces(s, n, |s|, k + 7);
    }
    if n > k + 8 {
      NoSpaceInSpaces(s, k + 8, |s|, n - 1);
    }
  }

  ghost predicate NamesOperator(s: string) {
    exists k: nat :: OperatorAt(s, k)
  }

  lemma OperatorIs(s: string)
    ensures EndsInOperator(s) <==> NamesOperator(s)
  {
    var n := TrimRightIs(s);
    if n >= 8 {
      assert s[..n][n - 8..] == s[n - 8..n];
      assert EndsInOperator(s) <==> OperatorAt(s, n - 8);
    }
    if k: nat :| OperatorAt(s, k) {
      OperatorBeforeSpaces(s, k, n);
    }
  }

  /** All lines, one after the other. */
  function Flat(lines: seq<string>): string {
    if lines == [] then [] else lines[0] + Flat(lines[1..])
  }

  /** Where line n starts in the flat text. */
  function Offset(lines: seq<string>, n: nat): nat
    requires n <= |lines|
  {
    if n == 0 then 0 else |lines[0]| + Offset(lines[1..], n - 1)
  }

  lemma {:induction false} FlatAt(lines: seq<string>, n: nat, i: nat)
    requires n < |lines| && i < |lines[n]|
    ensures Offset(lines, n) + i < |Flat(lines)|
    ensures Flat(lines)[Offset(lines, n) + i] == lines[n][i]
  {
    if n > 0 {
      FlatAt(lines[1..], n - 1, i);
    }
  }

  lemma {:induction false} OffsetNext(lines: seq<string>, n: nat)
    requires n < |lines|
    ensures Offset(lines, n + 1) == Offset(lines, n) + |lines[n]|
  {
    if n > 0 {
      OffsetNext(lines[1..], n - 1);
    }
  }

  lemma {:induction false} OffsetMonotonic(lines: seq<string>, n: nat, m: nat)
    requires n <= m <= |lines|
    ensures Offset(lines, n) <= Offset(lines, m) <= Offset(lines, |lines|) == |Flat(lines)|
    decreases lines
  {
    if lines != [] {
      if n == 0 {
        OffsetMonotonic(lines[1..], 0, if m == 0 then 0 else m - 1);
      } else {
        OffsetMonotonic(lines[1..], n - 1, m - 1);
      }
    }
  }

  lemma OffsetBefore(lines: seq<string>, n: nat, i: nat, m: nat)
    requires n < |lines| && i < |lines[n]| && m < |lines|
    ensures n < m ==> Offset(lines, n) + i < Offset(lines, m)
  {
    if n < m {
      OffsetNext(lines, n);
      OffsetMonotonic(lines, n + 1, m);
    }
  }

  /** A character has only one line and column. */
  lemma OffsetInjective(lines: seq<string>, n: nat, i: nat, m: nat, j: nat)
    requires n < |lines| && i < |lines[n]| && m < |lines| && j < |lines[m]|
    requires Offset(lines, n) + i == Offset(lines, m) + j
    ensures n == m && i == j
  {
    OffsetBefore(lines, n, i, m);
    OffsetBefore(lines, m, j, n);
  }
}

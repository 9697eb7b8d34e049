/**
 RemoveMultiLineComments: the lines of every terminated multi-line comment are blanked out in
 place.
 */
module Comments {
  import opened BracketText
  import opened Common

  /** The line without spaces at both ends. */
  function Trim(line: string): string {
    TrimRight(TrimLeft(line))
  }

  /** The characters a and b are at position i. */
  predicate BothAt(s: string, i: nat, a: char, b: char) {
    i + 1 < |s| && s[i] == a && s[i + 1] == b
  }

  /** The line starts a comment that goes beyond it. */
  predicate IsStart(line: string) {
    var s := Trim(line);
    |s| >= 2 && s[0] == '/' && s[1] == '*' && !exists i :: 2 <= i < |s| && BothAt(s, i, '*', '/')
  }

  predicate IsEnd(line: string) {
    var s := Trim(line);
    |s| >= 2 && BothAt(s, |s| - 2, '*', '/')
  }

  lemma BlankIsNoStart()
    ensures !IsStart("/**/")
  {
    assert TrimLeft("/**/") == "/**/" && TrimRight("/**/") == "/**/";
    assert BothAt("/**/", 2, '*', '/');
  }

  /** A stripped line is what is between the spaces at both ends. */
  lemma TrimIs(line: string) returns (a: nat, b: nat)
    ensures a <= b <= |line| && Trim(line) == line[a..b] && Spaces(line[..a]) && Spaces(line[b..])
    ensures a < b ==> !IsSpace(line[a]) && !IsSpace(line[b - 1])
  {
    a := TrimLeftIs(line);
    var k := TrimRightIs(line[a..]);
    b := a + k;
    assert line[a..][..k] == line[a..b] && line[a..][k..] == line[b..];
  }

  // The line is spaces and then the two characters that open a comment, and it does not close it.
  ghost predicate StartsComment(line: string) {
    exists k :: 0 <= k < |line| && BothAt(line, k, '/', '*') && Spaces(line[..k])
      && forall i :: k + 2 <= i < |line| ==> !BothAt(line, i, '*', '/')
  }

  // The line ends in the two characters that close a comment, and spaces.
  ghost predicate EndsComment(line: string) {
    exists k :: 0 <= k < |line| && BothAt(line, k, '*', '/') && Spaces(line[k + 2..])
  }

  lemma StartIs(line: string)
    ensures IsStart(line) <==> StartsComment(line)
  {
    var a, b := TrimIs(line);
    if IsStart(line) {
      forall i | a + 2 <= i < |line|
        ensures !BothAt(line, i, '*', '/')
      {
        if i + 1 < b {
          assert !BothAt(line[a..b], i - a, '*', '/');
        } else if i + 1 < |line| {
          NoSpaceInSpaces(line, b, |line|, i + 1);
        }
      }
      assert BothAt(line, a, '/', '*');
    }
    if StartsComment(line) {
      var k :| 0 <= k < |line| && BothAt(line, k, '/', '*') && Spaces(line[..k])
        && forall i :: k + 2 <= i < |line| ==> !BothAt(line, i, '*', '/');
      SameStart(line, a, b, k);
      forall i | 2 <= i < b - a
        ensures !BothAt(line[a..b], i, '*', '/')
      {
        assert !BothAt(line, a + i, '*', '/');
      }
    }
  }

  /** The first character that is no space, and the one after it, are inside the stripped line. */
  lemma SameStart(line: string, a: nat, b: nat, k: nat)
    requires a <= b <= |line| && Spaces(line[..a]) && Spaces(line[b..]) && (a < b ==> !IsSpace(line[a]))
    requires k + 1 < |line| && Spaces(line[..k]) && !IsSpace(line[k]) && !IsSpace(line[k + 1])
    ensures k == a && a + 2 <= b
  {
    if k < a {
      NoSpaceInSpaces(line, 0, a, k);
    }
    if b <= k + 1 {
      NoSpaceInSpaces(line, b, |line|, k + 1);
    }
    if a < k {
      NoSpaceInSpaces(line, 0, k, a);
    }
  }

  lemma EndIs(line: string)
    ensures IsEnd(line) <==> EndsComment(line)
  {
    var a, b := TrimIs(line);
    if IsEnd(line) {
      assert BothAt(line, b - 2, '*', '/');
      assert line[b - 2 + 2..] == line[b..];
    }
    if EndsComment(line) {
      var k :| 0 <= k < |line| && BothAt(line, k, '*', '/') && Spaces(line[k + 2..]);
      SameEnd(line, a, b, k);
    }
  }

  lemma SameEnd(line: string, a: nat, b: nat, k: nat)
    requires a <= b <= |line| && Spaces(line[..a]) && Spaces(line[b..]) && (a < b ==> !IsSpace(line[b - 1]))
    requires k + 1 < |line| && !IsSpace(line[k]) && !IsSpace(line[k + 1]) && Spaces(line[k + 2..])
    ensures a <= k && b == k + 2
  {
    if k < a {
      NoSpaceInSpaces(line, 0, a, k);
    }
    if b <= k + 1 {
      NoSpaceInSpaces(line, b, |line|, k + 1);
    }
    if k + 2 < b {
      NoSpaceInSpaces(line, k + 2, |line|, b - 1);
    }
  }

  // ------------------------------------------------------------- what is blanked

  /** Reading the lines from the top, a comment is open before line j. */
  predicate Open(lines: seq<string>, j: nat)
    requires j <= |lines|
  {
    j > 0 && (Open(lines, j - 1) || IsStart(lines[j - 1])) && !IsEnd(lines[j - 1])
  }

  /** Some line from j on ends a comment. */
  ghost predicate EndsLater(lines: seq<string>, j: nat) {
    exists e :: j <= e < |lines| && IsEnd(lines[e])
  }

  /** Line j is part of a comment that ends. */
  ghost predicate Commented(lines: seq<string>, j: nat)
    requires j < |lines|
  {
    (Open(lines, j) || IsStart(lines[j])) && EndsLater(lines, j)
  }

  /** out is lines with exactly the terminated comments blanked. */
  ghost predicate IsCleaned(lines: seq<string>, out: seq<string>) {
    && |out| == |lines|
    && forall j :: 0 <= j < |lines| ==> out[j] == if Commented(lines, j) then "/**/" else lines[j]
  }

  /** A comment that never ends starts at line b. */
  ghost predicate NeverEnds(lines: seq<string>, b: nat) {
    b < |lines| && !Open(lines, b) && IsStart(lines[b]) && !EndsLater(lines, b)
  }

  ghost predicate AllEnd(lines: seq<string>) {
    forall b :: !NeverEnds(lines, b)
  }

  lemma {:induction false} StaysClosed(lines: seq<string>, i: nat, k: nat)
    requires i <= k <= |lines| && !Open(lines, i)
    requires forall j :: i <= j < k ==> !IsStart(lines[j])
    ensures !Open(lines, k)
    decreases k - i
  {
    if i < k {
      StaysClosed(lines, i, k - 1);
    }
  }

  lemma {:induction false} StaysOpen(lines: seq<string>, b: nat, k: nat)
    requires b < k <= |lines| && (Open(lines, b) || IsStart(lines[b]))
    requires forall j :: b <= j < k ==> !IsEnd(lines[j])
    ensures Open(lines, k)
    decreases k - b
  {
    if b + 1 < k {
      StaysOpen(lines, b, k - 1);
    }
  }

  // ------------------------------------------------------------- idempotence

  /** After cleaning, only a comment that never ends is still open. */
  lemma {:induction false} OpenAfterCleaning(lines: seq<string>, out: seq<string>, k: nat)
    requires IsCleaned(lines, out) && k <= |lines|
    ensures Open(out, k) ==> Open(lines, k) && !EndsLater(lines, k)
  {
    if k > 0 && Open(out, k) {
      OpenAfterCleaning(lines, out, k - 1);
      BlankIsNoStart();
      assert !EndsLater(lines, k - 1);
    }
  }

  /** Removing comments again changes nothing, also when the last comment is unterminated. */
  lemma Idempotent(lines: seq<string>, out: seq<string>, again: seq<string>)
    requires IsCleaned(lines, out) && IsCleaned(out, again)
    ensures again == out
  {
    forall j | 0 <= j < |out|
      ensures !Commented(out, j)
    {
      OpenAfterCleaning(lines, out, j);
      BlankIsNoStart();
      if Open(out, j) || IsStart(out[j]) {
        assert !EndsLater(lines, j);
        forall e | j <= e < |out|
          ensures !IsEnd(out[e])
        {
          assert !IsEnd(lines[e]) && !EndsLater(lines, e);
        }
      }
    }
  }

  // ------------------------------------------------------------- the methods

  method FindNextMultiLineCommentStart(lines: array<string>, lineix0: nat) returns (lineix: nat)
    requires lineix0 <= lines.Length
    ensures lineix0 <= lineix <= lines.Length
    ensures forall j :: lineix0 <= j < lineix ==> !IsStart(lines[j])
    ensures lineix < lines.Length ==> IsStart(lines[lineix])
  {
    lineix := lineix0;
    while lineix < lines.Length
      invariant lineix0 <= lineix <= lines.Length
      invariant forall j :: lineix0 <= j < lineix ==> !IsStart(lines[j])
    {
      if IsStart(lines[lineix]) {
        return;
      }
      lineix := lineix + 1;
    }
  }

  method FindNextMultiLineCommentEnd(lines: array<string>, lineix0: nat) returns (lineix: nat)
    requires lineix0 <= lines.Length
    ensures lineix0 <= lineix <= lines.Length
    ensures forall j :: lineix0 <= j < lineix ==> !IsEnd(lines[j])
    ensures lineix < lines.Length ==> IsEnd(lines[lineix])
  {
    lineix := lineix0;
    while lineix < lines.Length
      invariant lineix0 <= lineix <= lines.Length
      invariant forall j :: lineix0 <= j < lineix ==> !IsEnd(lines[j])
    {
      if IsEnd(lines[lineix]) {
        return;
      }
      lineix := lineix + 1;
    }
  }

  method RemoveMultiLineCommentsFromRange(lines: array<string>, begin: nat, end: nat)
    requires begin <= end <= lines.Length
    modifies lines
    ensures forall j :: 0 <= j < lines.Length ==>
              lines[j] == if begin <= j < end then "/**/" else old(lines[j])
  {
    for i := begin to end
      invariant forall j :: 0 <= j < lines.Length ==>
                  lines[j] == if begin <= j < i then "/**/" else old(lines[j])
    {
      lines[i] := "/**/";
    }
  }

  /** From line i on nothing has been done, and before it everything. */
  ghost predicate CleanedUpTo(lines: seq<string>, i: nat, out: seq<string>) {
    && i <= |lines| == |out|
    && (forall j :: 0 <= j < i ==> out[j] == if Commented(lines, j) then "/**/" else lines[j])
    && (forall j :: i <= j < |lines| ==> out[j] == lines[j])
    && !Open(lines, i)
    && (forall b :: 0 <= b < i ==> !NeverEnds(lines, b))
  }

  /** The lines from i up to the next start are in no comment. */
  lemma SkipToStart(lines: seq<string>, i: nat, b: nat, out: seq<string>)
    requires CleanedUpTo(lines, i, out) && i <= b <= |lines|
    requires forall j :: i <= j < b ==> !IsStart(lines[j])
    ensures CleanedUpTo(lines, b, out) && forall j :: b <= j < |lines| ==> out[j] == lines[j]
  {
    forall j | i <= j <= b
      ensures !Open(lines, j)
    {
      StaysClosed(lines, i, j);
    }
  }

  /** The lines from a start to the next end are in a comment. */
  lemma BlankToEnd(lines: seq<string>, b: nat, e: nat, before: seq<string>, out: seq<string>)
    requires CleanedUpTo(lines, b, before) && b <= e < |lines| == |out|
    requires IsStart(lines[b]) && IsEnd(lines[e]) && forall j :: b <= j < e ==> !IsEnd(lines[j])
    requires forall j :: 0 <= j < |lines| ==> out[j] == if b <= j < e + 1 then "/**/" else before[j]
    ensures CleanedUpTo(lines, e + 1, out)
  {
    forall j | b <= j <= e
      ensures Commented(lines, j)
    {
      if b < j {
        StaysOpen(lines, b, j);
      }
    }
  }

  /** From a start that no end follows on, nothing is blanked. */
  lemma NoEnd(lines: seq<string>, b: nat, out: seq<string>)
    requires CleanedUpTo(lines, b, out) && forall j :: b <= j < |lines| ==> !IsEnd(lines[j])
    requires b < |lines| ==> IsStart(lines[b])
    ensures IsCleaned(lines, out)
    ensures if b < |lines| then NeverEnds(lines, b) else AllEnd(lines)
  {
  }

  /** Everything is done, and error is the line to report: that of a comment that never ends. */
  ghost predicate Finished(lines: seq<string>, out: seq<string>, error: Option<nat>) {
    && IsCleaned(lines, out)
    && match error
       case None => AllEnd(lines)
       case Some(n) => n > 0 && NeverEnds(lines, n - 1)
  }

  /** One turn of the loop of RemoveMultiLineComments: the next comment, if it ends, is blanked. */
  method RemoveNext(lines: array<string>, lineix: nat, ghost before: seq<string>)
    returns (finished: bool, error: Option<nat>, next: nat)
    requires CleanedUpTo(before, lineix, lines[..])
    modifies lines
    ensures finished ==> Finished(before, lines[..], error)
    ensures !finished ==> error == None && lineix < next && CleanedUpTo(before, next, lines[..])
  {
    ghost var now := lines[..];
    var begin := FindNextMultiLineCommentStart(lines, lineix);
    // from the end of the file, where no comment starts, this finds nothing
    var end := FindNextMultiLineCommentEnd(lines, begin);
    SkipToStart(before, lineix, begin, now);
    if end >= lines.Length {
      NoEnd(before, begin, now);
      return true, if begin < lines.Length then Some(begin + 1) else None, end;
    }
    RemoveMultiLineCommentsFromRange(lines, begin, end + 1);
    BlankToEnd(before, begin, end, now, lines[..]);
    return false, None, end + 1;
  }

  /** The lines are cleaned in place; error is what is reported. */
  method RemoveMultiLineComments(lines: array<string>) returns (error: Option<nat>)
    modifies lines
    ensures Finished(old(lines[..]), lines[..], error)
  {
    error := None;
    var lineix: nat := 0;
    var finished := false;
    while !finished && lineix < lines.Length
      invariant if finished then Finished(old(lines[..]), lines[..], error)
                else error == None && CleanedUpTo(old(lines[..]), lineix, lines[..])
      decreases !finished, lines.Length - lineix
    {
      finished, error, lineix := RemoveNext(lines, lineix, old(lines[..]));
    }
    if !finished {
      NoEnd(old(lines[..]), lineix, lines[..]);
    }
  }
}

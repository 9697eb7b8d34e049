/**
 The last line of a class, as it is looked for when its head is seen: the first line from there on
 at which as many braces have been closed as opened. This reads on into else-branches too.
 */
module ClassEnds {
  import opened Common
  import opened ElseBranches
  import opened Erasing
  import opened Nesting
  import Scopes
  import opened UndecidedHeads

  function Depth(text: string): int {
    Count(text, '{') - Count(text, '}')
  }

  function Depths(lines: seq<Line>): int {
    if lines == [] then 0 else Depth(lines[0].text) + Depths(lines[1..])
  }

  /** The number of the first line at which the braces balance, when depth of them are open before
      the lines. */
  function EndLine(lines: seq<Line>, depth: int): Option<nat>
    decreases |lines|
  {
    if lines == [] then None
    else
      var d := depth + Depth(lines[0].text);
      if d == 0 then Some(lines[0].num) else EndLine(lines[1..], d)
  }

  /** last_line of a class whose head is the first of the lines. */
  function LastLine(lines: seq<Line>): nat {
    var e := EndLine(lines, 0);
    if e.Some? then e.value else 0
  }

  /** How many braces are open after the first n lines. */
  function Balance(lines: seq<Line>, n: nat): int
    requires n <= |lines|
  {
    if n == 0 then 0
    else
      var text := lines[n - 1].text;
      Balance(lines, n - 1) + multiset(text)['{'] - multiset(text)['}']
  }

  lemma {:induction false} EndLineIs(lines: seq<Line>, i: nat)
    requires i <= |lines|
    requires forall j :: 0 < j <= i ==> Balance(lines, j) != 0
    ensures EndLine(lines, 0) == EndLine(lines[i..], Balance(lines, i))
  {
    if i > 0 {
      EndLineIs(lines, i - 1);
      Scopes.CountIs(lines[i - 1].text, '{');
      Scopes.CountIs(lines[i - 1].text, '}');
      assert lines[i - 1..][1..] == lines[i..];
    }
  }

  /** The last line is the first one after which as many '}' as '{' have come, if there is one. */
  lemma LastLineIs(lines: seq<Line>, i: nat)
    requires i <= |lines| && forall j :: 0 < j <= i ==> Balance(lines, j) != 0
    requires i < |lines| ==> Balance(lines, i + 1) == 0
    ensures LastLine(lines) == if i < |lines| then lines[i].num else 0
  {
    EndLineIs(lines, i);
    if i < |lines| {
      Scopes.CountIs(lines[i].text, '{');
      Scopes.CountIs(lines[i].text, '}');
    }
  }

  method CountChar(s: string, c: char) returns (n: nat)
    ensures n == Count(s, c)
  {
    n := 0;
    for i := 0 to |s|
      invariant n + Count(s[i..], c) == Count(s, c)
    {
      if s[i] == c {
        n := n + 1;
      }
      assert s[i..][1..] == s[i + 1..];
    }
  }

  method FindLastLine(file: seq<Line>, linenum: nat) returns (r: nat)
    requires linenum < |file|
    ensures r == LastLine(file[linenum..])
  {
    var depth: int := 0;
    for i := linenum to |file|
      invariant EndLine(file[i..], depth) == EndLine(file[linenum..], 0)
    {
      var opens := CountChar(file[i].text, '{');
      var closes := CountChar(file[i].text, '}');
      depth := depth + opens - closes;
      assert file[i..][1..] == file[i + 1..];
      if depth == 0 {
        return file[i].num;
      }
    }
    return 0;
  }

  lemma {:induction false} EndOfBoth(a: seq<Line>, b: seq<Line>, depth: int)
    ensures EndLine(a + b, depth) == if EndLine(a, depth).Some? then EndLine(a, depth)
                                     else EndLine(b, depth + Depths(a))
    decreases |a|
  {
    if a == [] {
      assert a + b == b;
    } else {
      assert (a + b)[1..] == a[1..] + b;
      EndOfBoth(a[1..], b, depth + Depth(a[0].text));
    }
  }

  /** The braces of the class balance before the next else-branch, or there is none. */
  predicate EndDecided(flags: seq<bool>, lines: seq<Line>) {
    Window(flags, lines) == lines || EndLine(Window(flags, lines), 0).Some?
  }

  lemma DecidedEnd(flags: seq<bool>, lines: seq<Line>)
    requires EndDecided(flags, lines)
    ensures LastLine(lines) == LastLine(Erase(flags, lines))
  {
    var w := Window(flags, lines);
    WindowIs(flags, lines);
    WindowKept(flags, lines);
    if w != lines {
      EndOfBoth(w, lines[|w|..], 0);
      EndOfBoth(w, Erase(FlagsAfter(flags, w), lines[|w|..]), 0);
    }
  }

  function Repeat(c: char, n: nat): (s: string)
    ensures |s| == n && forall i :: 0 <= i < n ==> s[i] == c
  {
    seq(n, _ => c)
  }

  lemma {:induction false} CountRepeat(c: char, d: char, n: nat)
    ensures Count(Repeat(c, n), d) == if c == d then n else 0
  {
    if n > 0 {
      assert Repeat(c, n)[1..] == Repeat(c, n - 1);
      CountRepeat(c, d, n - 1);
    }
  }

  /** The braces that balance depth open ones. */
  function Balancing(depth: int): string {
    if depth > 0 then Repeat('}', depth) else Repeat('{', -depth)
  }

  lemma BalancingDepth(depth: int)
    ensures Depth(Balancing(depth)) == -depth
  {
    CountRepeat('}', '{', if depth > 0 then depth else 0);
    CountRepeat('}', '}', if depth > 0 then depth else 0);
    CountRepeat('{', '{', if depth > 0 then 0 else -depth);
    CountRepeat('{', '}', if depth > 0 then 0 else -depth);
  }

  lemma {:induction false} OpenAtEnd(lines: seq<Line>, depth: int)
    requires lines != [] && EndLine(lines, depth) == None
    ensures depth + Depths(lines) != 0
    decreases |lines|
  {
    if |lines| > 1 {
      OpenAtEnd(lines[1..], depth + Depth(lines[0].text));
    } else {
      assert lines[1..] == [];
    }
  }

  /** When they are still open there, an else-branch of one line closes the class. */
  lemma ClosedInBranch(flags: seq<bool>, lines: seq<Line>) returns (lines': seq<Line>)
    requires Window(flags, lines) != [] && !EndDecided(flags, lines)
    ensures !StartsErased(flags, lines') && Outline(flags, lines') == Outline(flags, lines)
    ensures LastLine(lines') != LastLine(Erase(flags, lines))
  {
    var w := Window(flags, lines);
    WindowIs(flags, lines);
    var depth, num := Depths(w), LastLine(Erase(flags, lines)) + 1;
    OpenAtEnd(w, 0);
    var text := Balancing(depth);
    lines' := WithBranch(flags, lines, num, text);
    BranchIsErased(flags, lines, num, text);
    BranchEnds(w, lines[|w|..], num, depth);
    assert lines'[0] == lines[0];
  }

  lemma BranchEnds(w: seq<Line>, rest: seq<Line>, num: nat, depth: int)
    requires EndLine(w, 0) == None && depth == Depths(w) != 0
    ensures LastLine(w + ([BareLine(num, "#else", []), BareLine(num, Balancing(depth), [])] + rest)) == num
  {
    var first, second := BareLine(num, "#else", []), BareLine(num, Balancing(depth), []);
    var branch := [first, second] + rest;
    EndOfBoth(w, branch, 0);
    CountNone("#else", '{');
    CountNone("#else", '}');
    BalancingDepth(depth);
    assert branch[1..][0] == second;
  }

  /** The last line of a class is found before the next else-branch exactly when nothing that could
      stand in else-branches there changes it. */
  lemma EndDecidedExactly(flags: seq<bool>, lines: seq<Line>)
    requires Window(flags, lines) != [] && Window(flags, lines) != lines
    ensures EndDecided(flags, lines)
       <==> forall lines' | !StartsErased(flags, lines') && Outline(flags, lines') == Outline(flags, lines) ::
              LastLine(lines') == LastLine(Erase(flags, lines))
  {
    if EndDecided(flags, lines) {
      assert !StartsErased(flags, lines);
      forall lines' | !StartsErased(flags, lines') && Outline(flags, lines') == Outline(flags, lines)
        ensures LastLine(lines') == LastLine(Erase(flags, lines))
      {
        SameOutline(flags, lines, lines');
        DecidedEnd(flags, lines');
      }
    } else {
      var lines' := ClosedInBranch(flags, lines);
    }
  }

  /** A kept class head whose end is found before the next else-branch has the same last line in the
      reading without else-branches. */
  lemma SameLastLine(file: seq<Line>, n: nat)
    requires n < |file| && IsKept(file, n) && EndDecided(FlagsAt(file, n), file[n..])
    ensures LastLine(file[n..]) == LastLine(Erase([], file)[KeptBefore(file, n)..])
  {
    ErasePrefix(file, n);
    DecidedEnd(FlagsAt(file, n), file[n..]);
    assert Erase([], file)[KeptBefore(file, n)..] == Erase(FlagsAt(file, n), file[n..]);
  }
}

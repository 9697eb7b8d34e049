/**
 What #if, #else, #elif and #endif do to the block stack, over a whole conditional.
 */
module Conditionals {
  import BracketText
  import opened Common
  import opened ElseBranches
  import opened Erasing
  import opened Nesting

  // ------------------------------------------------------------- which lines are directives

  lemma {:induction false} TrimSpaces(a: string, s: string)
    requires BracketText.Spaces(a) && (s != [] ==> !BracketText.IsSpace(s[0]))
    ensures BracketText.TrimLeft(a + s) == s
  {
    if a == [] {
      assert a + s == s;
    } else {
      assert (a + s)[1..] == a[1..] + s;
      assert a[0] in a;
      TrimSpaces(a[1..], s);
    }
  }

  lemma {:induction false} WordThen(word: string, rest: string)
    requires forall c :: c in word ==> BracketText.IsWord(c)
    requires rest != [] ==> !BracketText.IsWord(rest[0])
    ensures FirstWord(word + rest) == word
  {
    if word == [] {
      assert word + rest == rest;
    } else {
      assert (word + rest)[1..] == word[1..] + rest;
      assert word[0] in word;
      WordThen(word[1..], rest);
    }
  }

  /** Spaces, '#', spaces and a whole word make a directive, when it is one of the six words. */
  lemma DirectiveIs(a: string, b: string, word: string, rest: string)
    requires BracketText.Spaces(a) && BracketText.Spaces(b)
    requires forall c :: c in word ==> BracketText.IsWord(c)
    requires rest != [] ==> !BracketText.IsWord(rest[0]) && (word == [] ==> !BracketText.IsSpace(rest[0]))
    ensures Classify(a + ("#" + (b + (word + rest))))
         == if word == "if" || word == "ifdef" || word == "ifndef" then If
            else if word == "else" || word == "elif" then Else
            else if word == "endif" then Endif
            else Other
  {
    var tail := word + rest;
    assert word != [] ==> tail[0] == word[0] && word[0] in word;
    TrimSpaces(a, "#" + (b + tail));
    assert ("#" + (b + tail))[1..] == b + tail;
    TrimSpaces(b, tail);
    WordThen(word, rest);
  }

  /** A line whose first character that is no space is not '#' is no directive. */
  lemma NoDirective(a: string, s: string)
    requires BracketText.Spaces(a) && (s != [] ==> !BracketText.IsSpace(s[0]) && s[0] != '#')
    ensures Classify(a + s) == Other
  {
    TrimSpaces(a, s);
  }

  // ------------------------------------------------------------- a conditional

  /** The states before each line and at the end, and the directives of the lines. */
  ghost predicate IsTrace(states: seq<State>, directives: seq<Directive>) {
    && |states| == |directives| + 1
    && forall k :: 0 <= k < |directives| ==>
         states[k + 1].conditionals == Preprocess(states[k], directives[k]).conditionals
  }

  /** How many conditionals are open before line k. */
  function OpenAt(states: seq<State>, k: nat): nat
    requires k < |states|
  {
    |states[k].conditionals|
  }

  /** Line m is an #if, and its conditional is still open before line n. */
  ghost predicate Within(states: seq<State>, directives: seq<Directive>, m: nat, n: nat) {
    && IsTrace(states, directives) && m < n < |states| && directives[m] == If
    && forall k :: m < k <= n ==> OpenAt(states, k) > OpenAt(states, m)
  }

  /** Line e is an #else or #elif of the conditional that starts at line m. */
  predicate IsElseOf(states: seq<State>, directives: seq<Directive>, m: nat, e: nat)
    requires m < |states| && e < |directives| < |states|
  {
    directives[e] == Else && OpenAt(states, e) == OpenAt(states, m) + 1
  }

  /** e is the first of them before line n, or n. */
  ghost predicate IsFirstElse(states: seq<State>, directives: seq<Directive>, m: nat, e: nat, n: nat)
    requires m < e <= n <= |directives| < |states|
  {
    && (forall k :: m < k < e ==> !IsElseOf(states, directives, m, k))
    && (e < n ==> IsElseOf(states, directives, m, e))
  }

  /** What the checkpoint of the conditional holds before line n. */
  ghost predicate Checkpointed(states: seq<State>, m: nat, e: nat, n: nat)
    requires m < e <= n < |states|
  {
    var d := OpenAt(states, m);
    && d < |states[n].conditionals|
    && states[n].conditionals[d]
       == (if e < n then Conditional(states[m].stack, states[e].stack, true)
           else Conditional(states[m].stack, [], false))
  }

  lemma {:induction false} CheckpointAt(states: seq<State>, directives: seq<Directive>, m: nat, e: nat, n: nat)
    requires Within(states, directives, m, n) && m < e <= n && IsFirstElse(states, directives, m, e, n)
    ensures Checkpointed(states, m, e, n)
  {
    assert states[n - 1 + 1].conditionals == Preprocess(states[n - 1], directives[n - 1]).conditionals;
    if n > m + 1 {
      assert OpenAt(states, n - 1) > OpenAt(states, m) && OpenAt(states, n) > OpenAt(states, m);
      if e == n {
        assert !IsElseOf(states, directives, m, n - 1);
        CheckpointAt(states, directives, m, n - 1, n - 1);
      } else {
        CheckpointAt(states, directives, m, e, n - 1);
      }
    }
  }

  lemma FirstElseExists(states: seq<State>, directives: seq<Directive>, m: nat, n: nat) returns (e: nat)
    requires m < n <= |directives| < |states|
    ensures m < e <= n && IsFirstElse(states, directives, m, e, n)
  {
    e := m + 1;
    while e < n && !IsElseOf(states, directives, m, e)
      invariant m < e <= n
      invariant forall k :: m < k < e ==> !IsElseOf(states, directives, m, k)
    {
      e := e + 1;
    }
  }

  /** Every #else and #elif brings the stack from before its #if back. */
  lemma ElseTakesBack(states: seq<State>, directives: seq<Directive>, m: nat, n: nat)
    requires n < |directives| && Within(states, directives, m, n) && IsElseOf(states, directives, m, n)
    ensures Preprocess(states[n], directives[n]).stack == states[m].stack
  {
    var e := FirstElseExists(states, directives, m, n);
    CheckpointAt(states, directives, m, e, n);
  }

  /** The #endif of a conditional goes on with the stack from before its first #else, and without an
      #else with the stack there is. */
  lemma EndifGoesOn(states: seq<State>, directives: seq<Directive>, m: nat, e: nat, n: nat)
    requires n < |directives| && Within(states, directives, m, n) && directives[n] == Endif
    requires OpenAt(states, n) == OpenAt(states, m) + 1
    requires m < e <= n && IsFirstElse(states, directives, m, e, n)
    ensures Preprocess(states[n], directives[n]).stack == states[e].stack
    ensures |Preprocess(states[n], directives[n]).conditionals| == OpenAt(states, m)
  {
    CheckpointAt(states, directives, m, e, n);
  }

  /** Stray ones, and lines that are no directives, do nothing of this kind. */
  lemma StraysDoNothing(s: State, directive: Directive)
    requires directive == Other || (s.conditionals == [] && directive != If)
    ensures Preprocess(s, directive) == s
  {
  }

  // ------------------------------------------------------------- the lines of a file

  function Directives(file: seq<Line>): (r: seq<Directive>)
    ensures |r| == |file| && forall k :: 0 <= k < |file| ==> r[k] == Classify(file[k].text)
  {
    seq(|file|, k requires 0 <= k < |file| => Classify(file[k].text))
  }

  ghost function States(file: seq<Line>): (r: seq<State>)
    ensures |r| == |file| + 1 && forall k :: 0 <= k <= |file| ==> r[k] == Reading(file, k)
  {
    seq(|file| + 1, k requires 0 <= k <= |file| => Reading(file, k))
  }

  lemma NextConditionals(file: seq<Line>, k: nat)
    requires k < |file|
    ensures Reading(file, k + 1).conditionals
         == Preprocess(Reading(file, k), Classify(file[k].text)).conditionals
  {
    NextReading(file, k);
  }

  lemma FileIsTrace(file: seq<Line>)
    ensures IsTrace(States(file), Directives(file))
  {
    var states, directives := States(file), Directives(file);
    forall k | 0 <= k < |directives|
      ensures states[k + 1].conditionals == Preprocess(states[k], directives[k]).conditionals
    {
      NextConditionals(file, k);
    }
  }

  /** As many conditionals are open before line k as its directives say. */
  ghost predicate OpenAsFlagged(file: seq<Line>, k: nat)
    requires k <= |file|
  {
    |Reading(file, k).conditionals| == |FlagsAt(file, k)|
  }

  /** How many conditionals are open before a line can be read off the text. */
  lemma {:induction false} OpenIs(file: seq<Line>, k: nat)
    requires k <= |file|
    ensures OpenAsFlagged(file, k)
  {
    if k == 0 {
      OpenStart(file);
    } else {
      OpenIs(file, k - 1);
      OpenNext(file, k - 1, k);
    }
  }

  lemma OpenStart(file: seq<Line>)
    ensures OpenAsFlagged(file, 0)
  {
  }

  lemma OpenNext(file: seq<Line>, k: nat, k': nat)
    requires k < |file| && k' == k + 1 && OpenAsFlagged(file, k)
    ensures OpenAsFlagged(file, k')
  {
    KeptNext(file, k);
    NextConditionals(file, k);
    FlagsOpen(FlagsAt(file, k), Reading(file, k), Classify(file[k].text));
  }

  lemma FlagsOpen(flags: seq<bool>, s: State, directive: Directive)
    requires |flags| == |s.conditionals|
    ensures |Flags(flags, directive)| == |Preprocess(s, directive).conditionals|
  {
  }

  /** The stack that the rest of line n is read with. */
  lemma StackOfLine(file: seq<Line>, n: nat)
    requires n < |file|
    ensures Reading(file, n + 1).stack
         == UpdateStack(Preprocess(Reading(file, n), Classify(file[n].text)).stack, file[n], IsArgument(file, n))
  {
    NextReading(file, n);
  }
}

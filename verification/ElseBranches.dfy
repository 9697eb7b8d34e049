/**
 Else-branches are erased: the nesting state after a file is that after the same file without
 its else-branches, as long as no look-ahead for template arguments reads into one.
 */
module ElseBranches {
  import opened Common
  import opened Erasing
  import opened LookAhead
  import opened Nesting
  import opened TemplateArguments

  // ------------------------------------------------------------- simulation

  /** The outermost conditional whose else-branch we are in. */
  function FirstElse(flags: seq<bool>): (d: nat)
    requires true in flags
    ensures d < |flags| && flags[d] && forall i :: 0 <= i < d ==> !flags[i]
  {
    if flags[0] then 0 else 1 + FirstElse(flags[1..])
  }

  ghost predicate Tracks(flags: seq<bool>, s: State) {
    && |flags| == |s.conditionals|
    && (forall i :: 0 <= i < |flags| ==> s.conditionals[i].seenElse == flags[i])
    && (forall i :: 0 <= i < |flags| && !flags[i] ==> s.conditionals[i].beforeElse == [])
  }

  /** full has read every line, small only those outside else-branches. */
  ghost predicate Simulates(flags: seq<bool>, full: State, small: State) {
    && Tracks(flags, full)
    && if true !in flags then small == full
       else
         var d := FirstElse(flags);
         && small.stack == full.conditionals[d].beforeElse
         && small.conditionals ==
            full.conditionals[..d] + [Conditional(full.conditionals[d].beforeIf, [], false)]
  }

  lemma TracksUpdate(flags: seq<bool>, s: State, line: Line, isArgument: bool)
    requires Tracks(flags, s)
    ensures Tracks(Flags(flags, Classify(line.text)), Update(s, line, isArgument))
  {
  }

  lemma FirstElseIs(flags: seq<bool>, d: nat)
    requires d < |flags| && flags[d] && forall i :: 0 <= i < d ==> !flags[i]
    ensures true in flags && FirstElse(flags) == d
  {
  }

  /** The outermost open else-branch ends exactly with the #endif of its conditional. */
  lemma ElseStaysOpen(flags: seq<bool>, d: Directive)
    requires true in flags
    ensures var k, flags' := FirstElse(flags), Flags(flags, d);
            if true in flags' then k < |flags'| && FirstElse(flags') == k && flags'[..k] == flags[..k]
            else d == Endif && k == |flags| - 1
  {
    var k, flags' := FirstElse(flags), Flags(flags, d);
    if k < |flags'| {
      FirstElseIs(flags', k);
    }
  }

  lemma EnterElse(flags: seq<bool>, s: State, line: Line, isArgument: bool)
    requires Tracks(flags, s) && true !in flags
    requires true in Flags(flags, Classify(line.text))
    ensures Simulates(Flags(flags, Classify(line.text)), Update(s, line, isArgument), s)
  {
    TracksUpdate(flags, s, line, isArgument);
    var flags' := Flags(flags, Classify(line.text));
    FirstElseIs(flags', |flags| - 1);
    assert s.conditionals == Front(s.conditionals) + [Last(s.conditionals)];
  }

  lemma StayInElse(flags: seq<bool>, full: State, small: State, line: Line, isArgument: bool)
    requires Simulates(flags, full, small) && true in flags
    requires true in Flags(flags, Classify(line.text))
    ensures Simulates(Flags(flags, Classify(line.text)), Update(full, line, isArgument), small)
  {
    TracksUpdate(flags, full, line, isArgument);
    ElseStaysOpen(flags, Classify(line.text));
    var d := FirstElse(flags);
    assert Update(full, line, isArgument).conditionals[..d] == full.conditionals[..d];
  }

  /** A kept line, the #endif of an else-branch too, has the same effect in both readings. */
  lemma KeptLine(flags: seq<bool>, full: State, small: State, line: Line, isArgument: bool)
    requires Simulates(flags, full, small) && true !in Flags(flags, Classify(line.text))
    ensures Tracks(Flags(flags, Classify(line.text)), Update(full, line, isArgument))
    ensures Update(full, line, isArgument) == Update(small, line, isArgument)
  {
    TracksUpdate(flags, full, line, isArgument);
    if true in flags {
      var d := FirstElse(flags);
      var directive := Classify(line.text);
      ElseStaysOpen(flags, directive);
      assert Front(small.conditionals) == full.conditionals[..d] == Front(full.conditionals);
      assert Preprocess(small, directive) == Preprocess(full, directive);
    }
  }

  // ------------------------------------------------------------- both readings of a file

  function FlagsAt(file: seq<Line>, n: nat): seq<bool>
    requires n <= |file|
  {
    FlagsAfter([], file[..n])
  }

  /** Line n is in no else-branch. */
  predicate IsKept(file: seq<Line>, n: nat)
    requires n < |file|
  {
    true !in FlagsAt(file, n + 1)
  }

  /** How many of the first n lines are kept. */
  function KeptBefore(file: seq<Line>, n: nat): (k: nat)
    requires n <= |file|
    ensures k <= |Erase([], file)|
  {
    ErasePrefix(file, n);
    |Erase([], file[..n])|
  }

  lemma KeptNext(file: seq<Line>, n: nat)
    requires n < |file|
    ensures FlagsAt(file, n + 1) == Flags(FlagsAt(file, n), Classify(file[n].text))
    ensures !IsKept(file, n) ==> KeptBefore(file, n + 1) == KeptBefore(file, n)
    ensures IsKept(file, n) ==>
              && KeptBefore(file, n + 1) == KeptBefore(file, n) + 1
              && KeptBefore(file, n) < |Erase([], file)| && Erase([], file)[KeptBefore(file, n)] == file[n]
  {
    EraseNext(file, n);
    ErasePrefix(file, n + 1);
  }

  /** The file has been read up to line n, and the file without else-branches as far as that. */
  ghost predicate InStep(file: seq<Line>, n: nat)
    requires n <= |file|
  {
    Simulates(FlagsAt(file, n), Reading(file, n), Reading(Erase([], file), KeptBefore(file, n)))
  }

  /** The kept line n does the same with the verdict of its look-ahead in the file and with the one
      in the file without else-branches. */
  ghost predicate SameEffect(file: seq<Line>, n: nat)
    requires n < |file| && IsKept(file, n)
  {
    KeptNext(file, n);
    var kept, k := Erase([], file), KeptBefore(file, n);
    Update(Reading(kept, k), file[n], IsArgument(file, n)) == Update(Reading(kept, k), file[n], IsArgument(kept, k))
  }

  /** One line keeps the readings in step unless a kept line has two effects. */
  lemma StepTogether(file: seq<Line>, n: nat)
    requires n < |file| && InStep(file, n)
    ensures InStep(file, n + 1) <==> (IsKept(file, n) ==> SameEffect(file, n))
  {
    KeptNext(file, n);
    var flags, line := FlagsAt(file, n), file[n];
    var kept, k := Erase([], file), KeptBefore(file, n);
    var full, small, v := Reading(file, n), Reading(kept, k), IsArgument(file, n);
    if !IsKept(file, n) {
      if true in flags {
        StayInElse(flags, full, small, line, v);
      } else {
        EnterElse(flags, full, line, v);
      }
    } else {
      KeptLine(flags, full, small, line, v);
      NextReading(kept, k);
    }
  }

  ghost predicate InStepThroughout(file: seq<Line>) {
    forall n :: 0 <= n <= |file| ==> InStep(file, n)
  }

  ghost predicate SameEffects(file: seq<Line>) {
    forall n :: 0 <= n < |file| && IsKept(file, n) ==> SameEffect(file, n)
  }

  lemma {:induction false} StepsTogether(file: seq<Line>, n: nat)
    requires n <= |file| && SameEffects(file)
    ensures InStep(file, n)
  {
    if n > 0 {
      StepsTogether(file, n - 1);
      StepTogether(file, n - 1);
    }
  }

  /** The two readings stay in step exactly as long as no look-ahead makes a difference. */
  lemma InStepExactly(file: seq<Line>)
    ensures InStepThroughout(file) <==> SameEffects(file)
  {
    if InStepThroughout(file) {
      forall n | 0 <= n < |file| && IsKept(file, n)
        ensures SameEffect(file, n)
      {
        assert InStep(file, n) && InStep(file, n + 1);
        StepTogether(file, n);
      }
    }
    if SameEffects(file) {
      forall n | 0 <= n <= |file|
        ensures InStep(file, n)
      {
        StepsTogether(file, n);
      }
    }
  }

  // ------------------------------------------------------------- when look-aheads make no difference

  /** At the head of an outline: when the line has a class head, the look-ahead from it is decided by
      the lines before the next else-branch, or there is none. */
  predicate HeadDecided(outline: seq<(Line, bool)>) {
    outline != [] && outline[0].0.classDecl.Some? ==>
      NoBranch(outline) || LookAt(Texts(WindowOf(outline)), 0, outline[0].0.classDecl.value.end) != More
  }

  /** All look-aheads from kept class heads are decided before they come to an else-branch. */
  predicate HeadsDecided(file: seq<Line>) {
    forall k :: 0 <= k < |Outline([], file)| ==> HeadDecided(Outline([], file)[k..])
  }

  /** The stack lets a class head in line k through. */
  predicate MeetsClass(kept: seq<Line>, k: nat)
    requires k < |kept|
  {
    var s := Preprocess(Reading(kept, k), Classify(kept[k].text)).stack;
    SeesClass(BeforeClass(s, kept[k]), kept[k])
  }

  /** The same for the look-aheads that happen when the file is read without else-branches. */
  predicate SeenHeadsDecided(file: seq<Line>) {
    forall k :: 0 <= k < |Outline([], file)| && MeetsClass(KeptLines(Outline([], file)), k) ==>
      HeadDecided(Outline([], file)[k..])
  }

  /** Line k does the same with either verdict. */
  predicate VerdictIsIdle(kept: seq<Line>, k: nat)
    requires k < |kept|
  {
    var s := Preprocess(Reading(kept, k), Classify(kept[k].text)).stack;
    UpdateStack(s, kept[k], false) == UpdateStack(s, kept[k], true)
  }

  /** The same for the look-aheads whose verdict makes a difference. */
  predicate MattersDecided(file: seq<Line>) {
    forall k :: 0 <= k < |Outline([], file)| && !VerdictIsIdle(KeptLines(Outline([], file)), k) ==>
      HeadDecided(Outline([], file)[k..])
  }

  /** A class head that the stack does not let through makes no difference. */
  lemma UnseenIsIdle(kept: seq<Line>, k: nat)
    requires k < |kept| && !MeetsClass(kept, k)
    ensures VerdictIsIdle(kept, k)
  {
  }

  lemma SeenIsEnough(file: seq<Line>)
    requires SeenHeadsDecided(file)
    ensures MattersDecided(file)
  {
    var kept := KeptLines(Outline([], file));
    forall k | 0 <= k < |kept| && !VerdictIsIdle(kept, k)
      ensures HeadDecided(Outline([], file)[k..])
    {
      if !MeetsClass(kept, k) {
        UnseenIsIdle(kept, k);
      }
    }
  }

  lemma TextsConcat(a: seq<Line>, b: seq<Line>)
    ensures Texts(a + b) == Texts(a) + Texts(b)
  {
  }

  /** The verdict at the start of lines is that without the else-branches. */
  lemma DecidedVerdict(flags: seq<bool>, lines: seq<Line>, end: nat)
    requires Window(flags, lines) == lines || LookAt(Texts(Window(flags, lines)), 0, end) != More
    ensures InTemplate(Texts(lines), 0, end) == InTemplate(Texts(Erase(flags, lines)), 0, end)
  {
    var w := Window(flags, lines);
    WindowIs(flags, lines);
    WindowKept(flags, lines);
    if w != lines {
      var a, b := lines[|w|..], Erase(FlagsAfter(flags, w), lines[|w|..]);
      TextsConcat(w, a);
      TextsConcat(w, b);
      LookIsLocal(Texts(w), Texts(a), 0, end);
      LookIsLocal(Texts(w), Texts(b), 0, end);
      VerdictOfLook(Texts(lines), 0, end);
      VerdictOfLook(Texts(Erase(flags, lines)), 0, end);
    }
  }

  /** Only the rest of the file counts for a look-ahead. */
  lemma ArgumentOfRest(file: seq<Line>, n: nat, before: seq<Line>, rest: seq<Line>)
    requires file == before + rest && n == |before| < |file|
    ensures file[n] == rest[0]
    ensures IsArgument(file, n) <==>
              rest[0].classDecl.Some? && InTemplate(Texts(rest), 0, rest[0].classDecl.value.end)
  {
    TextsConcat(before, rest);
    if rest[0].classDecl.Some? {
      LookShift(Texts(before), Texts(rest), 0, rest[0].classDecl.value.end);
    }
  }

  /** The outline from the kept line n on. */
  lemma OutlineAt(file: seq<Line>, n: nat)
    requires n < |file| && IsKept(file, n)
    ensures var k := KeptBefore(file, n);
            && k < |Outline([], file)| && Outline([], file)[k..] == Outline(FlagsAt(file, n), file[n..])
            && Outline([], file)[k].0 == file[n] && KeptLines(Outline([], file)) == Erase([], file)
  {
    KeptNext(file, n);
    OutlineKeeps([], file);
    OutlineRest([], file, n);
  }

  /** The two verdicts of a kept class head, from what is left of the file. */
  lemma VerdictsOfRest(file: seq<Line>, n: nat)
    requires n < |file| && IsKept(file, n) && file[n].classDecl.Some?
    ensures var end := file[n].classDecl.value.end;
            && IsArgument(file, n) == InTemplate(Texts(file[n..]), 0, end)
            && KeptBefore(file, n) < |Erase([], file)|
            && IsArgument(Erase([], file), KeptBefore(file, n))
               == InTemplate(Texts(Erase(FlagsAt(file, n), file[n..])), 0, end)
  {
    KeptNext(file, n);
    ErasePrefix(file, n);
    ArgumentOfRest(file, n, file[..n], file[n..]);
    ArgumentOfRest(Erase([], file), KeptBefore(file, n), Erase([], file[..n]), Erase(FlagsAt(file, n), file[n..]));
  }

  lemma DecidedSameEffect(file: seq<Line>, n: nat)
    requires n < |file| && IsKept(file, n) && HeadDecided(Outline(FlagsAt(file, n), file[n..]))
    ensures SameEffect(file, n)
  {
    KeptNext(file, n);
    if file[n].classDecl.Some? {
      VerdictsOfRest(file, n);
      OutlineWindow(FlagsAt(file, n), file[n..]);
      DecidedVerdict(FlagsAt(file, n), file[n..], file[n].classDecl.value.end);
    }
  }

  lemma IdleSameEffect(file: seq<Line>, n: nat)
    requires n < |file| && IsKept(file, n) && KeptBefore(file, n) < |Erase([], file)|
    requires Erase([], file)[KeptBefore(file, n)] == file[n] && VerdictIsIdle(Erase([], file), KeptBefore(file, n))
    ensures SameEffect(file, n)
  {
  }

  lemma DecidedSameEffects(file: seq<Line>)
    requires MattersDecided(file)
    ensures SameEffects(file)
  {
    forall n | 0 <= n < |file| && IsKept(file, n)
      ensures SameEffect(file, n)
    {
      KeptNext(file, n);
      OutlineAt(file, n);
      if VerdictIsIdle(Erase([], file), KeptBefore(file, n)) {
        IdleSameEffect(file, n);
      } else {
        DecidedSameEffect(file, n);
      }
    }
  }

  /** Else-branches are erased, whatever the lines say and however the conditionals nest. When the
      look-aheads from kept class heads are decided before they come to an else-branch, at least
      those whose verdict makes a difference, the readings with and without else-branches stay in
      step; then both stacks end the same exactly when the file does not end inside an else-branch. */
  lemma ElseBranchesErased(file: seq<Line>)
    ensures HeadsDecided(file) ==> SeenHeadsDecided(file)
    ensures SeenHeadsDecided(file) ==> MattersDecided(file)
    ensures MattersDecided(file) ==> InStepThroughout(file)
    ensures InStepThroughout(file) ==>
              (Reading(file, |file|) == Reading(Erase([], file), |Erase([], file)|)
               <==> true !in FlagsAfter([], file))
    ensures WellNested(file, 0, false) ==> true !in FlagsAfter([], file)
  {
    if SeenHeadsDecided(file) {
      SeenIsEnough(file);
    }
    if MattersDecided(file) {
      DecidedSameEffects(file);
      InStepExactly(file);
    }
    if InStepThroughout(file) {
      EndInStep(file);
    }
    if WellNested(file, 0, false) {
      NestedFlags([], file, 0);
    }
  }

  lemma EndInStep(file: seq<Line>)
    requires InStep(file, |file|)
    ensures Reading(file, |file|) == Reading(Erase([], file), |Erase([], file)|)
       <==> true !in FlagsAfter([], file)
  {
    assert file[..|file|] == file;
    var full, small := Reading(file, |file|), Reading(Erase([], file), |Erase([], file)|);
    var flags := FlagsAfter([], file);
    if true in flags {
      assert small.conditionals[FirstElse(flags)].seenElse != full.conditionals[FirstElse(flags)].seenElse;
    }
  }
}

# Verified models of MyCmake

The repository holds a database logging component written in C++, and the `cpplint.py` style checker
that its build uses. This project models the parts of both that decide something, and proves what
they promise.

- **Bracket matching in cpplint** (`BracketText`, `BracketScan`, `BracketTheorems`,
  `Balanced`, `TemplateArguments`, `TemplateCount`, `TemplateCountBack`). Two scanners look for the other end of a bracket, forward and backward, over
  any number of lines. They treat `<` and `>` as tentative: a stack entry that shifts, arrows,
  `operator<`, `;` and other brackets may take away again. From `( [ {` and `) ] }` the scanners are
  shown to find exactly what a matcher finds that ignores all of that, to be inverse to each other,
  not to depend on where lines end, and to enclose exactly the texts of a grammar of balanced brackets.
  From a pushed `<` or `>` the scanners find exactly what a reader finds that counts them outside
  brackets.
- **The nesting state of cpplint** (`Nesting`, `Scopes`, `FileScopes`, `Conditionals`, `Erasing`,
  `LookAhead`, `ElseBranches`, `UndecidedHeads`, `ClassEnds`, `NestingHeap`). Balanced braces and
  declarations, over any number of lines, leave the same blocks open. Blocks are objects that lines update in place; `#if`, `#else` and
  `#endif` save and restore deep copies of the block stack. At a class head the code looks ahead, over
  any number of lines, whether the head is a template argument. As long as these look-aheads are
  decided before they come to an else-branch, the state after a file is that of the file without its
  else-branches; where they are not, else-branches can be found that change it.
- **Text cleaning in cpplint** (`CollapseStrings`, `Comments`).
- **The circular buffer pool** (`RingArithmetic`, `RingPool`, `RingCirculation`). Put and Get are two
  to four atomic steps each; all interleavings of any number of putting threads and one getting
  thread are covered, also after the 32-bit counters have wrapped.
- **The latched buffer pool** (`LatchedPool`), with any number of putting and draining threads.
- **The LRU cache** (`KeyList`, `Cache`, `LruSpec`, `LruTheorems`): a hash map whose entries hold list
  nodes, over a doubly linked list; it refines a move-to-front sequence, about which the theorems on
  whole runs are proved.
- **The elastic log buffer** (`LogBuffer`).

Code that works step by step is a `method` with the loops of the source, or a `class` with its fields,
proved equal to a function; the theorems are about that function. Protocols are state machines whose
steps are the atomic actions of the source.

## Where the code and its documentation or expected use differ

- The comment on `UpdatePreprocessor` says that the lines from `#else` to `#endif` do not affect the
  nesting stack. They can, because `InTemplateArgumentList` reads on past the line it is asked about,
  also into else-branches. In the well-nested file with the lines `#if X`, `class A`, `#else`, `>`,
  `#endif`, `{` the reading of the whole file ends inside a plain block, and the reading without the
  else-branch inside class A (`UndecidedHeads.ElseBranchChangesStack`). The comment holds when every
  look-ahead from a class head outside else-branches is decided by the lines before the next
  else-branch (`ElseBranches.ElseBranchesErased`). The condition looks only at the kept lines and at
  where else-branches stand between them. Without the look-aheads whose verdict makes no difference
  it is exact: it holds if and only if both readings stay in step whatever the else-branches contain
  (`UndecidedHeads.DecidedExactlyForAll`). For one given content, a different verdict need not show in
  the stack: a forward declaration is taken back on its own line
  (`UndecidedHeads.ForwardDeclarationCancels`). What is exact then is that the readings agree after
  every line if and only if no kept line has another effect with the other verdict
  (`ElseBranches.InStepExactly`).
- The constructor of a class block looks for the last line of the class in the same way, over all
  following lines, else-branches included. That field is the same without else-branches if the braces
  of the class balance before the next else-branch (`ClassEnds.SameLastLine`); if they do not, an
  else-branch of one line changes it (`ClassEnds.EndDecidedExactly`). Nothing that builds the stack
  reads the field, and it is not a part of the blocks compared above.
- A block keeps the number of the line it starts on. The readings with and without else-branches agree
  in it because erased files are taken with the line numbers of the whole file.
- With `BUFFER_POOL_SIZE` defined as the bare text `1024 * 8`, `GetSize` in `src/logging` is right
  exactly when the pool is empty or full (`RingArithmetic.GetSizeUnparenthesisedExact`). The version
  in `NotFinishedYet/logging/bufferpool` is exact for every pool size that is a power of two up to
  2^30; its header does not define the size, so the size is a parameter. It reads head and then tail,
  and returns their difference as long as no Get has drawn a ticket beyond that head
  (`RingArithmetic.GetSizeTwoLoads`); while a Get waits on an empty pool, it returns one less than the
  pool size (`RingArithmetic.GetSizeWhileWaiting`).
- "Assume enough place" in `CircularBufferPool::Put` is needed (`RingPool.RoomIsNeeded`), and holds by
  itself when a fixed stock of at most N buffers circulates (`RingCirculation.RoomIsImplied`). A Put
  may start one buffer earlier, while a Get has moved its buffer and not returned
  (`RingPool.PutIsSafeExactly`); in the version whose Get then wipes its slot, that buffer can be lost
  (`RingPool.EarlyPut`).
- `LogBufferPool::Put` looks at the size before it takes the latch. That is enough for at most one
  putting thread and for no more: with two, an index past the end can be drawn
  (`LatchedPool.InBoundsExactly`). A store there is in no slot, so conservation holds in all runs under
  the same condition.
- The doubling loop of `LogBuffer::WriteData` ends for records of up to 2^63 bytes
  (`LogBuffer.LoopEnds`); from a capacity that is a power of two, as the default one is, it ends for no
  longer ones (`LogBuffer.LoopEndsExactly`). No object in memory is longer, and `WriteData` is stated
  for these.

## Model

| member | source | states |
|---|---|---|
| BracketScan.FindEndOfExpressionInLine | build_support/cpplint.py:1744-1819 | the loop that pushes and pops one stack returns what ForwardScan says: found just past a bracket, dead, or still open with its stack |
| BracketScan.CloseExpression | build_support/cpplint.py:1845-1863 | scanning on from line to line returns the line, its number and the position past the closing bracket, or the line last read, the number of lines and -1 |
| BracketScan.FindStartOfExpressionInLine | build_support/cpplint.py:1866-1940 | the backward loop, with its extra step over the first character of an operator, returns what BackwardScan says |
| BracketScan.ReverseCloseExpression | build_support/cpplint.py:1960-1978 | scanning back from line to line returns the line, its number and the position of the opening bracket, or the line last read, 0 and -1 |
| BracketTheorems.ForwardStepTransparent | build_support/cpplint.py:1757-1816 | with a real bracket at the bottom of the stack, one character does to the stack without its tentative `<` what it does in a matcher that ignores `<`, `>` and `;` |
| BracketTheorems.BackwardStepTransparent | build_support/cpplint.py:1883-1936 | the same for one backward step and tentative `>` |
| BracketTheorems.SkippedIsNoBracket | build_support/cpplint.py:1892-1903 | the character that the backward scanner skips is never a bracket |
| BracketTheorems.ForwardTransparent | build_support/cpplint.py:1744-1819 | a whole line scanned forward gives the result of the plain matcher, found, dead or open with the same brackets |
| BracketTheorems.BackwardTransparent | build_support/cpplint.py:1866-1940 | a whole line scanned backward, skips included, gives the result of the plain backward matcher |
| BracketTheorems.CloseIsPlain | build_support/cpplint.py:1822-1863 | from `( [ {` CloseExpression finds exactly the position that the plain matcher finds in the concatenated lines, and nothing when that finds nothing |
| BracketTheorems.ReverseCloseIsPlain | build_support/cpplint.py:1943-1978 | the same from `) ] }` for ReverseCloseExpression |
| BracketTheorems.PlainInverse | build_support/cpplint.py:1776-1793 | the plain forward matcher leads from i to j if and only if the backward one leads from j to i |
| BracketTheorems.ScannersAreInverse | build_support/cpplint.py:1822-1978 | CloseExpression leads from (n,p) to just past (m,q) if and only if ReverseCloseExpression leads from (m,q) to (n,p), over any lines and any text between |
| BracketTheorems.CloseRoundTrip | build_support/cpplint.py:1838-1863 | whatever CloseExpression finds is the bracket of the same kind, and ReverseCloseExpression goes back from it |
| BracketTheorems.ReverseRoundTrip | build_support/cpplint.py:1954-1978 | whatever ReverseCloseExpression finds, CloseExpression goes back from |
| BracketTheorems.LineSplitInvariance | build_support/cpplint.py:1854-1860 | two ways to cut the same text into lines give the same match |
| Balanced.CloseIsBalanced | build_support/cpplint.py:1822-1863 | from `(`, `[` or `{` CloseExpression leads to just past a position if and only if the two hold a pair `()`, `[]` or `{}` and the text in between is of the grammar of balanced brackets |
| Balanced.CloseNone | build_support/cpplint.py:1861-1863 | it finds nothing if and only if there is no such position |
| Balanced.ReverseCloseIsBalanced | build_support/cpplint.py:1943-1978 | the same backward from `)`, `]` or `}` |
| Balanced.ReverseCloseNone | build_support/cpplint.py:1976-1978 | and nothing is found backward if and only if there is nothing |
| Balanced.NoStart | build_support/cpplint.py:1840-1847 | no match from any other character, nor from the `<` of `<<` and `<=` |
| Balanced.GetTextInside | build_support/cpplint.py:4901-4921 | the second matcher returns the balanced text up to the other bracket of the pair, and none exactly when there is no such text; it agrees with CloseExpression on the same line |
| TemplateArguments.TemplateMatch | build_support/cpplint.py:1762-1816 | from a `<` that is really pushed, a match ends at a `>`, encloses balanced brackets and has no `;` outside them |
| TemplateCount.TemplateMatchExactly | build_support/cpplint.py:1757-1816 | from a pushed `<`, over any lines, there is a match exactly where a count of the `<` outside brackets comes to 0 at a `>`, and none exactly when the count fails or the file ends |
| TemplateCount.CountStepIs | build_support/cpplint.py:1757-1816 | one character does to the one stack of brackets and tentative `<` what it does to the count and the plain brackets |
| TemplateCount.AnglesAre | build_support/cpplint.py:1762-1796 | which `<` are pushed and which `>` close nothing, in characters |
| BracketText.OperatorIs | build_support/cpplint.py:1766 | the text ends in the whole word operator and spaces |
| TemplateArguments.UnpushedFindsNext | build_support/cpplint.py:1764-1769 | from the second `<` of a shift or that of an operator name, the match is that of the next open bracket or pushed `<` in the line, and there is none if a closing bracket, a `;` or the end of the line comes first |
| TemplateCountBack.ReverseTemplateMatchExactly | build_support/cpplint.py:1887-1936 | from a `>` that belongs to no operator, backward over any lines, there is a match exactly where a count of the `>` outside brackets comes to 0 at a `<` |
| TemplateCountBack.SkippedAre | build_support/cpplint.py:1889-1903 | which `>` and `<` the backward scanner passes over, in characters |
| TemplateArguments.CloseAdvances | build_support/cpplint.py:2747-2754 | from a `<`, CloseExpression moves strictly forward and stays within the lines |
| TemplateArguments.InTemplateArgumentList | build_support/cpplint.py:2715-2755 | the loop ends on every input and returns the verdict of the first token outside closed templates |
| LookAhead.VerdictIs | build_support/cpplint.py:2715-2755 | the verdict is true if and only if the first of the characters `{ } ; = [ ] . < >` outside closed `<...>` is one of `> = [ ] .`, and false if and only if it is one of `{ } ;` or a `<` without a match, or there is none |
| LookAhead.LookIsLocal | build_support/cpplint.py:2715-2755 | a look-ahead that some lines decide has the same verdict however the file goes on |
| LookAhead.LookShift | build_support/cpplint.py:2715-2755 | the lines before it play no part |
| LookAhead.LookGoesOn | build_support/cpplint.py:2747-2754 | an undecided look-ahead goes on in the following lines with exactly the brackets it is inside of |
| LookAhead.DecidedExactly | build_support/cpplint.py:2715-2755 | some lines decide the verdict if and only if nothing put after them changes it, whatever follows |
| ElseBranches.EnterElse | build_support/cpplint.py:2782-2793 | at the first #else the kept stack is that of the file read without the branch |
| ElseBranches.StayInElse | build_support/cpplint.py:2782-2793 | inside an else-branch, nested conditionals and further #elif included, the kept stack does not change |
| ElseBranches.KeptLine | build_support/cpplint.py:2797-2808 | a line outside else-branches, the #endif of one too, has the same effect in both readings |
| ElseBranches.StepTogether | build_support/cpplint.py:2767-2811 | one line keeps both readings of a file in step if and only if its effect is the same with the verdict in the file and the one without else-branches |
| ElseBranches.InStepExactly | build_support/cpplint.py:2767-2811 | the readings are in step after every line if and only if no kept line has another effect with the other verdict |
| ElseBranches.DecidedVerdict | build_support/cpplint.py:2715-2755 | a look-ahead that is decided before the next else-branch has the same verdict without else-branches |
| ElseBranches.ElseBranchesErased | build_support/cpplint.py:2757-2811 | for any lines whatever whose look-aheads from class heads are decided before an else-branch, or at least those whose verdict makes a difference, both readings stay in step, and both stacks equal those of the file without else-branches if and only if the file does not end inside one; well-nested files never do |
| Erasing.EraseConditional | build_support/cpplint.py:2767-2773 | erasing keeps the #if, erases within the first branch, drops everything from the first #else or #elif, and keeps the #endif |
| UndecidedHeads.HeadDecidedExactly | build_support/cpplint.py:2903 | the lines before an else-branch decide the look-ahead from a class head if and only if no lines with the same outline, whatever their else-branches contain, give another verdict |
| UndecidedHeads.OpenHeadMatters | build_support/cpplint.py:2903-2906 | either verdict on a class head that ends its line leaves another stack |
| UndecidedHeads.ForwardDeclarationCancels | build_support/cpplint.py:2955-2967 | either verdict on a forward declaration leaves the same stack if and only if no head before it waits for its brace |
| UndecidedHeads.UndecidedBreaksStep | build_support/cpplint.py:2767-2773 | for a kept class head whose verdict makes a difference and is undecided before an else-branch, a file with the same outline whose readings fall out of step |
| UndecidedHeads.DecidedExactlyForAll | build_support/cpplint.py:2767-2773 | for every file, all look-aheads whose verdict makes a difference are decided before else-branches if and only if both readings of every file with the same outline stay in step |
| UndecidedHeads.ElseBranchChangesStack | build_support/cpplint.py:2767-2773 | well-nested files that end inside a plain block when read in full and inside a class without the else-branch |
| UndecidedHeads.ElseDecidesHappens | build_support/cpplint.py:2767-2773 | the text of one such file |
| ClassEnds.FindLastLine | build_support/cpplint.py:2517-2525 | the loop returns the first line at which the braces from the class head on balance, or 0 |
| ClassEnds.LastLineIs | build_support/cpplint.py:2517-2525 | that is the first line after which as many `}` as `{` have come |
| ClassEnds.SameLastLine | build_support/cpplint.py:2517-2525 | a class whose braces balance before the next else-branch has the same last line in both readings |
| ClassEnds.EndDecidedExactly | build_support/cpplint.py:2517-2525 | the braces balance before the next else-branch if and only if no lines with the same outline give another last line |
| Scopes.BalancedPasses | build_support/cpplint.py:2940-2976 | balanced braces with semicolons anywhere leave the stack as it is |
| Scopes.UnmatchedCloses | build_support/cpplint.py:2971-2975 | a `}` without a `{` before it closes exactly the innermost block |
| Scopes.BraceOpens | build_support/cpplint.py:2949-2957 | which block a `{` opens |
| Scopes.HeadCompletes | build_support/cpplint.py:2946-2970 | a head that waits for its brace gets it, or is taken back by `;`, `)` and `}` |
| Scopes.HeadOpens | build_support/cpplint.py:2890-2906 | which block a class head opens, exactly when no parentheses are open and the verdict is no |
| Scopes.NamespacesOpen | build_support/cpplint.py:2864-2879 | the namespaces of a line open one block each, with their names and braces |
| Scopes.InnerLine | build_support/cpplint.py:2838-2933 | all that a line without declarations and tokens does to the innermost block |
| Scopes.ParensAddUp | build_support/cpplint.py:2840-2843 | the parentheses of all lines add up |
| Scopes.AsmExactly | build_support/cpplint.py:2845-2859 | a block is inside of inline assembly if and only if some line started it and parentheses have been open after every line since |
| FileScopes.ScopeRestores | build_support/cpplint.py:2814-2976 | lines whose braces, namespaces and class heads are balanced leave exactly the same blocks open |
| FileScopes.BlockEnds | build_support/cpplint.py:2971-2975 | such lines and one `}` more end exactly the innermost block |
| FileScopes.TwoLines | build_support/cpplint.py:2940-2976 | after a `{` and a `}` on two lines no block is open |
| Conditionals.DirectiveIs | build_support/cpplint.py:2778-2797 | spaces, `#`, spaces and one of six whole words make a directive |
| Conditionals.ElseTakesBack | build_support/cpplint.py:2782-2793 | every #else and #elif brings the stack from before its #if back |
| Conditionals.EndifGoesOn | build_support/cpplint.py:2797-2808 | #endif goes on with the stack from before the first #else, and without one with the stack there is |
| Conditionals.StraysDoNothing | build_support/cpplint.py:2794-2811 | an #else or #endif without an #if changes nothing |
| NestingHeap.DeepCopy | build_support/cpplint.py:2781-2793 | a copy has the same values in objects of its own |
| NestingHeap.NestingState.SeeIf | build_support/cpplint.py:2778-2781 | saving the stack refines Preprocess and shares no block with it |
| NestingHeap.NestingState.SeeElse | build_support/cpplint.py:2782-2796 | keeping the stack once and going back to the one before the #if refines Preprocess |
| NestingHeap.NestingState.SeeEndif | build_support/cpplint.py:2797-2811 | the kept list becomes live without a copy, and no checkpoint still refers to its blocks |
| NestingHeap.NestingState.CountParentheses | build_support/cpplint.py:2840-2859 | the update in place of the innermost block reaches no checkpoint |
| NestingHeap.NestingState.OpenNamespaces | build_support/cpplint.py:2864-2879 | the namespace loop refines AfterNamespaces |
| NestingHeap.NestingState.OpenClass | build_support/cpplint.py:2890-2906 | a class head opens a block unless parentheses are open or the look-ahead over the file being read takes it for an argument |
| NestingHeap.NestingState.ConsumeTokens | build_support/cpplint.py:2940-2976 | the loop over braces, semicolons and parentheses refines AfterTokens |
| NestingHeap.NestingState.UpdateLine | build_support/cpplint.py:2814-2976 | one line updates the objects exactly as Update updates the value, and keeps the separation of all lists |
| NestingHeap.NestingState.UpdateFile | build_support/cpplint.py:2814-2976 | a whole file leaves the state of Reading, to which the theorems on else-branches apply |
| CollapseStrings.CollapseStrings | build_support/cpplint.py:1699-1741 | the loop ends, although the separator branch may take nothing after the quote, and returns Collapse |
| CollapseStrings.NumberInside | build_support/cpplint.py:1727 | a number before a quote cannot reach back over a character that is in no word |
| CollapseStrings.CollapseTwice | build_support/cpplint.py:1700-1741 | collapsed text stays as it is behind any text without quotes, also a number |
| CollapseStrings.Idempotent | build_support/cpplint.py:1699-1741 | collapsing twice is collapsing once |
| CollapseStrings.UnchangedWhenEmpty | build_support/cpplint.py:1708-1739 | a line stays as it is if and only if its closed literals are empty and its numbers have no separators |
| CollapseStrings.CollapsedIsEmpty | build_support/cpplint.py:1678-1686 | after collapsing, every closed literal is empty |
| CollapseStrings.LiteralCollapses | build_support/cpplint.py:1708-1739 | of a closed literal the quotes stay and the rest goes, and what is before it stays |
| CollapseStrings.SeparatorsGo | build_support/cpplint.py:1727-1732 | after a number all digits stay and the separators go, as in 1'000 |
| CollapseStrings.UnclosedStays | build_support/cpplint.py:1712-1741 | from a quote on that is not closed everything stays |
| CollapseStrings.PlainStays | build_support/cpplint.py:1702-1705 | a text without quotes stays |
| CollapseStrings.NumberAtEnd | build_support/cpplint.py:1727 | a text ends in a number if and only if some end of it is one and no character of a word comes before that |
| CollapseStrings.NumberIs | build_support/cpplint.py:1727 | what a number is, in characters |
| Comments.FindNextMultiLineCommentStart | build_support/cpplint.py:1589-1597 | the first line from there on that starts a comment going beyond it, or the end |
| Comments.FindNextMultiLineCommentEnd | build_support/cpplint.py:1600-1606 | the first line from there on that ends a comment, or the end |
| Comments.StartIs | build_support/cpplint.py:1592-1595 | a line starts a comment if and only if it is spaces and the opening characters, and the closing ones do not come after them |
| Comments.EndIs | build_support/cpplint.py:1603-1604 | a line ends a comment if and only if it ends in the closing characters and spaces |
| Comments.RemoveMultiLineCommentsFromRange | build_support/cpplint.py:1609-1614 | exactly the lines of the range are blanked |
| Comments.RemoveMultiLineComments | build_support/cpplint.py:1617-1630 | the loop ends and blanks exactly the lines that, read from the top, are in a comment that ends; it reports exactly the start of one that does not |
| Comments.OpenAfterCleaning | build_support/cpplint.py:1617-1630 | after cleaning, only a comment that never ends is open |
| Comments.Idempotent | build_support/cpplint.py:1617-1630 | cleaning again changes nothing, with an unterminated last comment too |
| RingArithmetic.MaskIsMod | src/logging/circular_buffer_pool.h:9-10 | the mask is the remainder by the pool size, for every power of two |
| RingArithmetic.WrapKeepsIndex | src/logging/circular_buffer_pool.cpp:25 | the index of a wrapped counter is that of the true ticket |
| RingArithmetic.GetSizeExact | NotFinishedYet/logging/bufferpool/circular_buffer_pool.cpp:50-60 | the masked signed difference with its case for a full pool is the true difference, whatever has wrapped |
| RingArithmetic.GetSizeIs | NotFinishedYet/logging/bufferpool/circular_buffer_pool.cpp:50-60 | what it returns for any two counters: their difference in the ring, and the pool size for different counters with the same index |
| RingArithmetic.GetSizeTwoLoads | NotFinishedYet/logging/bufferpool/circular_buffer_pool.cpp:50-60 | with tail read later than head, the difference comes out if and only if no Get has overtaken that head |
| RingArithmetic.GetSizeWhileWaiting | NotFinishedYet/logging/bufferpool/circular_buffer_pool.cpp:50-60 | while a Get waits on an empty pool, the result is one less than the pool size |
| RingArithmetic.GetSizeUnparenthesisedExact | src/logging/circular_buffer_pool.cpp:45-55 | with the size as bare text, the result is right if and only if the pool is empty or full |
| RingArithmetic.GetSizeUnparenthesisedIs | src/logging/circular_buffer_pool.cpp:45-55 | what it returns for a partly filled pool: eight times the remainder of the difference by 1024 |
| RingPool.StoreInv | src/logging/circular_buffer_pool.cpp:26 | a store into its slot leaves every other ticket's slot alone |
| RingPool.MoveInv | src/logging/circular_buffer_pool.cpp:41 | moving the oldest buffer out makes its slot the one of the ticket a round later |
| RingPool.ReturnInv | NotFinishedYet/logging/bufferpool/circular_buffer_pool.cpp:45-47 | wiping the slot after the move destroys nothing |
| RingPool.NextInv | src/logging/circular_buffer_pool.cpp:23-43 | every atomic step of every thread keeps the invariant of slots, counters and threads |
| RingPool.RingSafety | src/logging/circular_buffer_pool.cpp:23-43 | in every run: each store lands on an empty slot, no two on the same, no Get moves null, the Get with ticket t returns the buffer whose Put drew t, and a waiting Get can go on if and only if its own Put has stored |
| RingPool.EnabledExactly | src/logging/circular_buffer_pool.cpp:23-43 | which steps each thread can take: a waiting Get goes on if and only if the Put with its ticket has stored, and nothing else ever waits |
| RingPool.PutIsSafeExactly | src/logging/circular_buffer_pool.cpp:24-26 | a Put that starts is safe if and only if fewer buffers than slots are in the ring or on their way into it |
| RingPool.EarlyPut | NotFinishedYet/logging/bufferpool/circular_buffer_pool.cpp:45-47 | a Put that starts and stores between the move and the return of a Get loses its buffer if and only if that Get wipes its slot |
| RingPool.RoomIsNeeded | src/logging/circular_buffer_pool.cpp:24 | for every pool size, a run after which one Put beyond the assumption is unsafe |
| RingCirculation.RoomIsImplied | test/fulgurDB/memory_speed_test.cpp:22-30 | a thread that holds one of at most N buffers leaves room for it in both pools |
| RingCirculation.CirculationSafety | test/fulgurDB/memory_speed_test.cpp:10-30 | with at most N buffers between two pools, both are safe in every interleaving without any assumption, and the stock never changes |
| RingCirculation.EveryBufferInOnePlace | test/fulgurDB/memory_speed_test.cpp:10-30 | every buffer is in exactly one slot, one thread's call or one thread's hands |
| RingCirculation.DrainKeepsOrder | test/fulgurDB/memory_speed_test.cpp:22-25 | draining one pool into the other delivers a prefix of its buffers in order at any time, and all of them at the end |
| RingCirculation.DrainHappens | test/fulgurDB/memory_speed_test.cpp:22-25 | from every state in which nobody is in a call on the first pool, some drain carries all its buffers over in order |
| LatchedPool.NextInv | NotFinishedYet/trash/log_buffer_pool.cpp:56-83 | every atomic step of every thread that stays inside the array keeps latch, size and slots in step |
| LatchedPool.Conservation | NotFinishedYet/trash/log_buffer_pool.cpp:67-81 | for any number of threads, and up to the first index outside the array, delivered batches, the batch being drained and the slots are, in order, exactly the completed stores |
| LatchedPool.OverrunLoses | NotFinishedYet/trash/log_buffer_pool.cpp:68-69 | only a store outside the array breaks the pool, and it loses a buffer |
| LatchedPool.NothingOverwritten | NotFinishedYet/trash/log_buffer_pool.cpp:68-69 | a store inside the array lands on an empty slot |
| LatchedPool.EnabledExactly | NotFinishedYet/trash/log_buffer_pool.cpp:56-83 | which steps each thread can take: only the check for room and the latch make a thread wait, and the holder of the latch never waits |
| LatchedPool.OneProducer | NotFinishedYet/trash/log_buffer_pool.cpp:58-69 | with one putting thread, what it saw before it took the latch still holds |
| LatchedPool.TwoProducersOverrun | NotFinishedYet/trash/log_buffer_pool.cpp:58-69 | for any capacity, a run of two putting threads that draws an index past the end |
| LatchedPool.InBoundsExactly | NotFinishedYet/trash/log_buffer_pool.cpp:56-73 | all indices of all runs are inside the array if and only if there is at most one putting thread or no room at all |
| LatchedPool.ConservedExactly | NotFinishedYet/trash/log_buffer_pool.cpp:56-83 | no run loses a buffer if and only if there is at most one putting thread or no room at all |
| KeyList.KeyList.SpliceFront | NotFinishedYet/common/cache.cpp:41 | relinking the nodes moves the node to the front, also when it is there already |
| KeyList.KeyList.AssignFront | NotFinishedYet/common/cache.cpp:42 | the assignment after the splice changes nothing |
| KeyList.KeyList.PushFront | NotFinishedYet/common/cache.cpp:73 | a new node at the front |
| KeyList.KeyList.Erase | NotFinishedYet/common/cache.cpp:81 | the node is out, all others keep their order and keys |
| Cache.Cache.constructor | NotFinishedYet/common/cache.cpp:24-26 | an empty cache of the given capacity |
| Cache.Cache.Find | NotFinishedYet/common/cache.cpp:36-47 | a hit moves its key to the front and yields its value; map, nodes and stored iterators stay in step; a miss changes nothing |
| Cache.Cache.Insert | NotFinishedYet/common/cache.cpp:64-90 | refines the insert on values for new and for cached keys, and the returned iterator points to the value that is cached then |
| Cache.Cache.EvictAll | NotFinishedYet/common/cache.cpp:78-82 | the eviction loop erases from map and list the same least recent keys |
| Cache.Cache.DeleteKey | NotFinishedYet/common/cache.cpp:98-105 | the key leaves map and list |
| Cache.Cache.Size | NotFinishedYet/common/cache.cpp:113-116 | the number of keys in the list, at most the capacity |
| Cache.Cache.Clear | NotFinishedYet/common/cache.cpp:123-129 | list and map are empty and the capacity is 100 |
| Cache.Cache.Perform | NotFinishedYet/common/cache.cpp:35-129 | any sequence of calls goes through the states to which the theorems on runs apply |
| LruSpec.ApplyValid | NotFinishedYet/common/cache.cpp:35-129 | every operation keeps the list free of duplicates, its keys those of the map, and its size within the capacity |
| LruSpec.FindIs | NotFinishedYet/common/cache.cpp:36-47 | a found key moves to the front and all else stays; a miss changes nothing |
| LruSpec.InsertIs | NotFinishedYet/common/cache.cpp:64-90 | the new list and map for a cached key, for a new key with room, and for a new key in a full cache |
| LruSpec.DeleteIs | NotFinishedYet/common/cache.cpp:98-105 | the key goes and all else stays |
| LruSpec.ClearForgets | NotFinishedYet/common/cache.cpp:123-129 | whatever was called before, after clear the cache goes on like a new one of capacity 100 |
| LruSpec.InsertEvictsLeastRecent | NotFinishedYet/common/cache.cpp:49-62 | an inserted key is the most recent one, or nothing is cached without capacity; at most the least recent other key goes, only from a full cache and for a new key; no other value changes |
| LruTheorems.IncludedInsert | NotFinishedYet/common/cache.cpp:64-90 | an insert keeps a smaller cache included in a larger one, whichever of them evicts |
| LruTheorems.LruInclusion | NotFinishedYet/common/cache.cpp:35-105 | from empty on the same calls, the smaller list is a subsequence of the larger, the sizes differ by no more than the capacities, and every hit in the small cache is the same hit in the large one |
| LruTheorems.LruSurvival | NotFinishedYet/common/cache.cpp:36-90 | a key just inserted or found stays, with its latest value, while fewer than capacity other keys are inserted or hit and it is not deleted |
| LruTheorems.LruExact | NotFinishedYet/common/cache.cpp:36-90 | as long as it is left alone and nothing is deleted, a key is still cached if and only if fewer than capacity other keys were inserted or hit |
| LogBuffer.LogBuffer.constructor | NotFinishedYet/logging/bufferpool/log_buffer.cpp:15-18 | an empty buffer of the given capacity |
| LogBuffer.LogBuffer.WriteData | NotFinishedYet/logging/bufferpool/log_buffer.cpp:28-44 | the doubling loop ends; the record is appended whole if and only if the buffer is empty or the record fits behind what it holds, and otherwise nothing changes and the result is false |
| LogBuffer.LogBuffer.ResetData | NotFinishedYet/logging/bufferpool/log_buffer.cpp:25 | empty, with the same capacity |
| LogBuffer.GrowIs | NotFinishedYet/logging/bufferpool/log_buffer.cpp:30-35 | the capacity after the loop is the first one doubled some number of times, enough, and below twice the record if it grew |
| LogBuffer.Conservation | NotFinishedYet/logging/bufferpool/log_buffer.cpp:20-44 | after any run, the buffer holds exactly the records written successfully since the last reset, in order |
| LogBuffer.RejectedExactly | NotFinishedYet/logging/bufferpool/log_buffer.cpp:30-38 | in any run a write is rejected if and only if something has been written since the last reset and does not leave room for the record |
| LogBuffer.CapacityBound | NotFinishedYet/logging/bufferpool/log_buffer.cpp:28-38 | after any run, the capacity is a power of two times the first one and, once grown, below twice the longest record |
| LogBuffer.ResetMakesRoom | NotFinishedYet/logging/bufferpool/log_buffer.cpp:25-38 | a rejected record is accepted after a reset |
| LogBuffer.LoopEnds | NotFinishedYet/logging/bufferpool/log_buffer.cpp:30-33 | from every capacity, some number of doublings in 64 bits is enough for a record of up to 2^63 bytes |
| LogBuffer.LoopEndsExactly | NotFinishedYet/logging/bufferpool/log_buffer.cpp:30-33 | from a capacity that is a power of two, some number of doublings in 64 bits is enough if and only if the record is no longer than 2^63 bytes |

## Left out

- The pools: C++ memory-model effects. Each fetch_add, slot store, slot test and slot move is one
  atomic step, and the plain slots are read and written in that order.
- The circular pool: several getting threads, between which two waiters on one slot may swap tickets;
  and the destructor.
- RingArithmetic.GetSizeUnparenthesisedExact: head and tail are read at one moment; the two loads are
  not separate steps.
- LogBuffer.LoopEndsExactly: from other capacities the loop also ends for some records of more than
  2^63 bytes; which ones is not stated.
- LatchedPool.Conservation: what happens after a store outside the array, which the language does not
  define; a run stops there, with the store counted and its buffer lost.
- The latched pool: the wrap of its unsigned size, which exceeds the capacity by at most one.
- BracketScan.CloseExpression: the stack that the scanners fill is passed by value; callers use only
  the returned one, so that it is shared with the caller's list is not modelled.
- BracketTheorems.GetTextInside: the regular expression search for the start; the start is a parameter.
- Regular expressions on characters outside ASCII: words and spaces are the ASCII ones.
- NestingHeap.NestingState.UpdateLine: what the declaration patterns find in a line (namespaces, class
  head and where it ends, access specifier, tokens, start of inline assembly) is given with the line;
  directives, parentheses, colons and the look-ahead are read from the text. The same holds for
  OpenNamespaces, OpenClass and ConsumeTokens.
- NestingHeap.NestingState.UpdateLine: previous_stack_top, class_indent and last_line, which no later
  update of the stacks reads, and the style errors reported on the way.
- ElseBranches.ElseBranchesErased: last_line is compared apart from the stacks, in `ClassEnds`.
- NestingHeap.NestingState.SeeElse: the checkpoint of a conditional is a value in the list of
  conditionals; the objects of the source are never shared.
- CollapseStrings.CollapseStrings: the removal of escapes before the loop and the exception for
  include lines. The line is an inductive list of characters.
- Cache.Cache.Find: iterators are what dereferencing them gives; stepping through the unordered map,
  the reference counts of values, counts_ and insert_threshold_ are not modelled.
- Cache.Cache.Insert: when the capacity is 0 the returned iterator is invalid; here it points to nothing.
- LruTheorems.LruInclusion: clear, which sets both caches to the default capacity.
- LogBuffer.LogBuffer.WriteData: failing allocation, SetSize and the maximum log id.
- The log manager, the loggers, recovery and checkpoints, whose deciding functions are not written yet.
- The other checks of cpplint, option parsing, configuration and output.

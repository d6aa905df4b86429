# Pico: a verified model of the engine's arithmetic, tables and scheduler

Pico is a text-to-speech engine with its own fixed-point arithmetic, bit-packed tables, ring buffers and
scheduler. This project models the parts of it in which most can go wrong and proves what they are for. Code that
works step by step on arrays, cursors and objects is modelled by methods, loops and classes, each proved against a
specification function; the properties are lemmas about those functions, for all inputs, all runs and all sizes.

| module | what it models | main results |
|---|---|---|
| `PentaSolver` | the in-place LDL^T solver of the cepstral smoother, over the reals | it leaves the unique solution; the pivots are positive exactly if the system is positive definite |
| `SmoothingBands` | the memoised construction of its system | equal to the direct one, equal to W^T U W and W^T U m up to the stated rounding, and positive definite in spite of the rounding |
| `FixedPoint` | the integer primitives of the smoother | exact rounding laws for both multiplications and both divisions, and where 32 bits are not enough |
| `BitReader`, `DecisionTree`, `TreeEncoding`, `TreeExample`, `GraphWindow` | bit cursor, packed decision trees and how they are written, input window of the part-of-speech tree | the fast bit reader refines the simple one; walking the bits follows the one route of forks that the values take; a written tree is read back; the window is the documented table |
| `Scheduler` | the control unit over a chain of processing units | drain safety over all runs with resets, progress by a lexicographic measure, whose turn it is in every run, and conservation of the speech delivered |
| `CharBuffers`, `Durations` | item ring buffers, duration scaling | first in, first out over all runs, byte for byte; conservation of the carry, and when the target is missed |
| `ReversedBits`, `Exchanges`, `BitReversal` | the bit-reversal permutation in front of the FFT | the loop nest exchanges every pair once, in bounds, for every power of two |
| `ByteOrder`, `Lexicons`, `GraphTables`, `GraphEncoding`, `Transducers`, `TableEncoding` | lexicon, grapheme table and transducer byte stream, and how these two are written | each fast lookup is a plain scan; codes, indices and tables can be read back |
| `Utf8`, `CodePoints`, `LowerCase`, `UpperCase` | UTF-8 cursors, coding, lower and upper case | round trips, and back undoes forward; lower case is idempotent, never longer, and undoes upper case but for listed letters |
| `Powers`, `Concatenation`, `Options` | shared arithmetic, concatenation, optional values | |

`dafny verify dfyconfig.toml` checks everything.

## What the model shows about the code

- The right-hand side of the smoothing system is not always rounded to nearest: `(WUm + 1) / 2` truncates, which
  moves a negative even sum by a whole unit (`SmoothingBands.RhsRounding`; an input in `SmoothingBands.RhsOffByOne`).
- With double decimals, the sum of the middle terms of the long multiplication can overflow 32 bits although the
  result fits (`FixedPoint.MiddleSumOverflows`, with the exact conditions in `FixedPoint.MiddleSumFitsIff` and
  `FixedPoint.DoubleFitsIff`), and the long and the short form can differ by one (`FixedPoint.LongAgreesIff`), so that
  equal products have different results (`FixedPoint.PathsDiffer`).
- The inverse of a pivot that is a large enough power of two is 2^31, one more than the signed parameter of the
  multiplication that it is passed to can hold (`FixedPoint.InverseFits`; the pivot 4096 in
  `FixedPoint.InverseExceedsInt32`).
- A reset clears buffers but not the statuses of the processing units, so that the status invariant in the comment
  of `ctrlStep` can fail after a reset (`Scheduler.ResetBreaksStatusInv`), while drain safety holds.
- A lexicon key below the first prefix of the index makes the block number wrap to 65535
  (`Lexicons.GetLexblockNr`, for example `Lexicons.UpperCaseKeyWraps`); such a key has no entry
  (`Lexicons.BelowFirstPrefix`).
- The uniform duration scaling stores bytes; where a value wraps, the carry still balances the stored values, but
  for weighted scaling this holds only if the exactly scaled total never rises by more than 255 above its highest
  value so far (`Durations.StoredConservesIff`; 256 frames are lost in `Durations.StoredLosesFrames`).
- Uniform duration scaling takes the factor between durations in milliseconds for one between frame counts, so that
  with frames of 2^exp ms the result is 2^exp times too short (`Durations.UniformMissesTarget`); it reaches its target
  exactly if a frame is one millisecond (`Durations.UniformReachesIff`; 800 ms become 200 ms in
  `Durations.UniformQuarter`).
- For an unknown grapheme, `picoktab_hasVowellikeProp` takes the start of the table for its record. With the records
  one behind the other, behind their offsets, the answer is wrong exactly in tables of 83 records and offsets of one
  byte (`GraphEncoding.UnknownVowel`; a blank is like a vowel in `GraphEncoding.BlankIsVowel`).
- The overview of the grapheme table (pico/lib/picoktab.c:150-152) lists the end of a range as always present and does
  not list the field for punctuation; in the code both are optional fields with a bit of their own, which the model
  follows.
- The table of upper-case forms is not undone by that of lower-case forms for 18 code points, such as the micro sign
  and the final sigma (`UpperCase.LowerUndoesUpper`), and the other way round for nine (`UpperCase.UpperUndoesLower`).
- Asking for speech data drops a front item of another type before it is known to be complete; if it is not, the fill
  level wraps around and the buffer is broken (`CharBuffers.CharBuffer.GetItem`, for example
  `CharBuffers.IncompleteItemBreaks`). Items written whole rule that out (`CharBuffers.RunIsFifo`).
- If one of the first four matches of a lexicon lookup is left to the grapheme-to-phoneme rules, and is not the first,
  the part of speech of one entry goes with the index of another (`Lexicons.MixedResults`). The comment on the format
  (pico/lib/picoklex.c:57-61) asks for lexicons without such entries; nothing in the lookup relies on it
  (`Lexicons.ResultsPlain`).
- The conversion to lower case drops code points from 0x100000 on and still reports that it is done
  (`CodePoints.HighCodesDropped`).

## Model

| member | source | states |
|---|---|---|
| `PentaSolver.InvMatrix` | pico/lib/picocep.c:893-976 | over the reals and without row scaling, the in-place elimination, division and back substitution leave in WUm the x with A x = the original WUm, and it is the only one, whenever no pivot is zero |
| `PentaSolver.FactorAndForward` | pico/lib/picocep.c:893-955 | the first loop leaves the multipliers and pivots of A = L D L^T in the bands and L^-1 WUm in WUm |
| `PentaSolver.FactorRow` | pico/lib/picocep.c:919-954 | one iteration extends the factorisation held in the arrays by one column and keeps the rest |
| `PentaSolver.ForwardRow` | pico/lib/picocep.c:911-917 | one iteration of the forward substitution |
| `PentaSolver.DivideByPivots` | pico/lib/picocep.c:957-965 | every entry of WUm is divided by its pivot |
| `PentaSolver.BackSubstitute` | pico/lib/picocep.c:967-976 | back substitution inverts multiplication with L^T, row by row |
| `PentaSolver.FactorsFactored` | pico/lib/picocep.c:893-955 | with non-zero pivots the recurrence of the code does produce A = L D L^T |
| `PentaSolver.SubstitutionSolves` | pico/lib/picocep.c:911-976 | forward and back substitution together solve A x = m |
| `PentaSolver.SolutionUnique` | pico/lib/picocep.c:957-976 | with non-zero pivots there is at most one solution |
| `PentaSolver.PivotsPositive` | pico/lib/picocep.c:920-938 | every pivot of a positive definite system is positive, so no division is undefined |
| `PentaSolver.PositiveDefiniteIffPivots` | pico/lib/picocep.c:920-938 | a system is positive definite exactly if all pivots are positive |
| `SmoothingBands.MakeWUWandWUm` | pico/lib/picocep.c:1001-1163 | for every index sequence with N > 3, the bands and the right-hand side built with the memo for repeated indices are those computed directly for every frame |
| `SmoothingBands.OffDiagonalRow` | pico/lib/picocep.c:1099-1139 | the memoised first off-diagonal is the direct one, and the memo is the inverse variance of the frame it stands for |
| `SmoothingBands.StencilSums` | pico/lib/picocep.c:829-865 | the coefficients set up for inner and border frames give the rows of the window matrix |
| `SmoothingBands.QuadBands` | pico/lib/picocep.c:1015-1160 | W^T U W for the windows (1), (-1/2, 0, 1/2), (1, -2, 1), with dynamic rows at frames 1 to N-2 only, has five bands, with the entries that the code sums up |
| `SmoothingBands.MeanVector` | pico/lib/picocep.c:1051-1097 | the same for W^T U m |
| `SmoothingBands.QuadSymmetric` | pico/lib/picocep.c:1099-1160 | W^T U W is symmetric, so that the bands on one side are enough |
| `SmoothingBands.BandRounding` | pico/lib/picocep.c:1096-1160 | the bands are W^T U W up to the rounding of the divisions by 4; the first off-diagonal is exact |
| `SmoothingBands.RhsRounding` | pico/lib/picocep.c:1097 | the exact rounding of the right-hand side: to nearest, except that a negative even sum is off by a whole unit |
| `SmoothingBands.SystemPositiveDefinite` | pico/lib/picocep.c:1001-1163 | with positive static and non-negative dynamic inverse variances, the rounded matrix is still positive definite |
| `SmoothingBands.SmoothingPivotsPositive` | pico/lib/picocep.c:893-955 | so all pivots of the system that the code sets up are positive |
| `SmoothingBands.Smooth` | pico/lib/picocep.c:1776-1799 | bands and solver together: the smoothed coefficients are the solution of the system of the pdf vectors, and the only one |
| `SmoothingBands.RhsOffByOne` | pico/lib/picocep.c:1097 | four frames for which the right-hand side is -1 instead of -2 |
| `SmoothingBands.DiagonalRow` | pico/lib/picocep.c:1051-1097 | diagonal and right-hand side of one frame, from the stencil of its position |
| `FixedPoint.DivPowNearest` | pico/lib/picocep.c:512-527 | division by a power of two rounds to nearest, ties away from zero |
| `FixedPoint.HighestBitIsLength` | pico/lib/picocep.c:236-238 | the comparisons of the highest-bit macros give the number of bits |
| `FixedPoint.LongIsNearest` | pico/lib/picocep.c:539-592 | without double decimals, the long multiplication rounds x y / 2^bigpow to nearest, ties away from zero |
| `FixedPoint.MultIsNearest` | pico/lib/picocep.c:617-653 | short and long multiplication agree without double decimals |
| `FixedPoint.LongWithin` | pico/lib/picocep.c:578-590 | all partial terms of the long multiplication share one sign, so each is at most as large as the result |
| `FixedPoint.LongFitsInt32` | pico/lib/picocep.c:578-590 | with up to 15 decimals nothing overflows 32 bits unless the result does |
| `FixedPoint.ShortFitsInt32` | pico/lib/picocep.c:629-636 | the short multiplication is taken only where product and rounding fit 32 bits |
| `FixedPoint.DoubleRoundsTwice` | pico/lib/picocep.c:578-580 | with double decimals, the long multiplication rounds x y twice, by 2^bigpow each time |
| `FixedPoint.DoubleError` | pico/lib/picocep.c:578-580 | it is within 1/2 + 1/(2*2^bigpow) of x y / 2^(2*bigpow) |
| `FixedPoint.LongAgreesIff` | pico/lib/picocep.c:629-651 | it differs from the short form by at most 1, and exactly when the decimals of the magnitude of x y are in the last half unit below one half |
| `FixedPoint.MiddleSumFitsIff` | pico/lib/picocep.c:579 | when the sum of the middle terms fits 32 bits, for double decimals |
| `FixedPoint.MiddleSumOverflows` | pico/lib/picocep.c:579 | two operands with 12 decimals for which that sum overflows although the result fits |
| `FixedPoint.ShiftSubtract` | pico/lib/picocep.c:688-709 | the loop that both divisions share computes the rounded quotient bit by bit; no partial quotient is above the final one, and no remainder above the dividend or 5/2 of the divisor |
| `FixedPoint.FixptDiv` | pico/lib/picocep.c:673-716 | the magnitude of the result is the floor of (abs(a) 2^bigpow + floor(b/2)) / b, and the result is a 2^bigpow / b rounded to nearest; nothing overflows if the result, abs(a) and 5/2 b fit |
| `FixedPoint.FixptInvDiagEle` | pico/lib/picocep.c:730-779 | the inverse of a pivot is 2^(invpow+bigpow) / (d 2^rowscpow) rounded to nearest, for the scaling that the code chooses, and nothing overflows if 2^invpow and 5/2 of the scaled pivot fit |
| `FixedPoint.InverseFits` | pico/lib/picocep.c:738-743 | with that scaling the inverse is at most 2^31, and exactly 2^31 (one more than the signed parameter of the multiplication takes) for large enough powers of two |
| `FixedPoint.MultPowSaturates` | pico/lib/picocep.c:484-502 | multiplication by a power of two clips exactly where it does not fit, but for zero shifted by 32 or more |
| `FixedPoint.MultError` | pico/lib/picocep.c:617-653 | how far a product can be off, on either path |
| `FixedPoint.DivisionByInverse` | pico/lib/picocep.c:794-821 | multiplying by the inverse of a pivot (below 2^31) divides by it, within the rounding errors of inverse and product, and of the final shift down; where the product is shifted up instead, as for double decimals in the smoother, the shift adds no error if the result fits |
| `FixedPoint.DoubleFitsIff` | pico/lib/picocep.c:578-580 | with up to 15 decimals, no intermediate result of the long multiplication with double decimals overflows exactly if the result fits and the product without the high digits is below 2^31 - 2^(bigpow-1) - 1/2, over 2^bigpow |
| `FixedPoint.InverseExceedsInt32` | pico/lib/picocep.c:738-743 | the pivot 4096, with 12 decimals and the base 31, has the inverse 2^31 |
| `FixedPoint.ShiftedUp` | pico/lib/picocep.c:484-502 | shifting up is exact where the result fits |
| `FixedPoint.PathsDiffer` | pico/lib/picocep.c:629-651 | two pairs of operands with the same product and 12 decimals, one for each path, with the results 33 and 32 |
| `FixedPoint.MiddleIsNearest` | pico/lib/picocep.c:579 | that sum is x y without the high digits, over 2^bigpow, rounded to nearest |
| `BitReader.GetShiftVal` | pico/lib/picokdt.c:876-984 | for every size up to 32 and every cursor, the fast reader gets the bits of the field, most significant first, and moves the cursor by exactly that many |
| `BitReader.GetBits` | pico/lib/picokdt.c:854-873 | the commented-out reference reader has the same result |
| `BitReader.Jump` | pico/lib/picokdt.c:789-803 | jumping over n bits lands where reading them would, so that jumps add up |
| `BitReader.ValSplit` | pico/lib/picokdt.c:876-984 | a field read in two parts is the field read at once |
| `BitReader.ValLocal` | pico/lib/picokdt.c:876-984 | no bit outside of the field matters |
| `BitReader.PosInjective` | pico/lib/picokdt.c:789-803 | two cursors at the same bit are the same cursor |
| `BitReader.WholeBytes` | pico/lib/picokdt.c:876-984 | two whole bytes are a number with the high byte first |
| `BitReader.DividedByte` | pico/lib/picokdt.c:876-984 | the first one or two bits of a byte, and the others, are its quotient and remainder |
| `DecisionTree.Classifier.AskTree` | pico/lib/picokdt.c:997-1200 | one step at a node: a binary node takes the fork with the number of the value, a continuous one fork 0 exactly for the values up to the cut, a discrete one the fork of the first subset that contains the value; the outcome is the class or the subtree of this fork, or none |
| `DecisionTree.Classifier.Classify` | pico/lib/picokdt.c:1861-1878 | the classification loop ends with a class exactly if a route of such forks leads from the root to a decision, and the class is that decision; for one continuous question with two decisions it is the first one up to the cut |
| `DecisionTree.TreeUnique` | pico/lib/picokdt.c:997-1200 | the bits at a position represent one tree at most |
| `DecisionTree.AskSubset` | pico/lib/picokdt.c:1054-1155 | a subset takes up the same bits whether it is tested or skipped, and the first one with the value decides |
| `DecisionTree.AskBitMask` | pico/lib/picokdt.c:1118-1153 | the same for a bit-mask subset: bit val - first of the mask |
| `DecisionTree.AskSubsets` | pico/lib/picokdt.c:1054-1160 | all subsets are passed; the first match decides, or else the last fork |
| `DecisionTree.AskNode` | pico/lib/picokdt.c:1028-1163 | the bits of a node in front of its forks do not depend on the input vector, and the fork is the one chosen |
| `DecisionTree.AskFork` | pico/lib/picokdt.c:1166-1194 | a fork is read, jumped to or skipped, and the cursor always moves on |
| `DecisionTree.FollowFork` | pico/lib/picokdt.c:1165-1199 | the walk over the forks stops at the chosen one |
| `DecisionTree.FollowIsForkAt` | pico/lib/picokdt.c:1165-1199 | following fork i of the abstract tree is what the walk does |
| `DecisionTree.NodeUnique` | pico/lib/picokdt.c:1014-1163 | the bits in front of the forks determine the type, the question, the number of forks and where they start |
| `DecisionTree.TakesOne` | pico/lib/picokdt.c:1027-1163 | by sets of values: every node with forks takes exactly one of them for each attribute value |
| `DecisionTree.EvaluateFindsRoute` | pico/lib/picokdt.c:1861-1878 | a route of forks taken, from the root to a decision, is followed by evaluation |
| `DecisionTree.RouteOfEvaluate` | pico/lib/picokdt.c:1861-1878 | whenever evaluation finds a class, there is such a route to it |
| `DecisionTree.MatchesIsMembership` | pico/lib/picokdt.c:1061-1153 | the tests of the four kinds of subsets are membership in a finite set of values |
| `DecisionTree.IntervalSize` | pico/lib/picokdt.c:1094-1116 | a subset without bit mask has exactly count values, from the first one on |
| `DecisionTree.ForkListed` | pico/lib/picokdt.c:1165-1199 | fork i is entry i of the list of decisions and subtrees, and there are no others |
| `TreeEncoding.EncodedTree` | pico/lib/picokdt.c:997-1200 | every tree whose numbers fit their fields has a body from which exactly that tree is read back |
| `TreeEncoding.TreeHeld` | pico/lib/picokdt.c:997-1200 | a body that holds the encoding of a tree represents the tree, and what was written behind it follows |
| `TreeEncoding.NodeHeld` | pico/lib/picokdt.c:1014-1163 | a node is written as type, question and, by type, cut or fork count and subsets |
| `TreeEncoding.SubsetHeld` | pico/lib/picokdt.c:1054-1155 | a subset is written as type, first value and, by type, second value, count or mask |
| `TreeEncoding.ForksHeld` | pico/lib/picokdt.c:1166-1194 | each jump of a node leads over the remaining forks and the subtrees in between to its own subtree |
| `TreeEncoding.StoredCode` | pico/lib/picokdt.c:876-984 | fields packed into bytes, most significant bit first, are read back from where they were written |
| `TreeExample.RootHeld` | pico/lib/picokdt.c:997-1200 | thirteen bytes, with their numbers, that are a certain tree with a discrete and a continuous node, a mask and a jump |
| `TreeExample.Classified` | pico/lib/picokdt.c:1861-1878 | the class that these bytes give to every vector |
| `GraphWindow.PosP.ConstructInVec` | pico/lib/picokdt.c:1700-1858 | for every well-formed UTF-8 word, the single pass fills the grapheme slots as documented, and succeeds exactly if the word is not empty and all twelve values can be mapped |
| `GraphWindow.PosP.ReadWord` | pico/lib/picokdt.c:1739-1773 | after the pass over the word the circular buffer holds the last six graphemes, and the first four before them are in the prefix slots |
| `GraphWindow.PosP.FillPrefix` | pico/lib/picokdt.c:1779-1791 | prefix slots without a grapheme get the out-of-word symbol |
| `GraphWindow.PosP.FillSuffix` | pico/lib/picokdt.c:1793-1823 | emptied from behind, the buffer fills the suffix slots right-aligned |
| `GraphWindow.PositionOnce` | pico/lib/picokdt.c:1673-1689 | no grapheme is used twice, and their order is kept |
| `GraphWindow.PositionUsed` | pico/lib/picokdt.c:1673-1689 | the graphemes used are the last six and the first four |
| `Scheduler.Control.CtrlStep` | pico/lib/picoctrl.c:133-226 | one step of the control unit, for any outcome of the current PU: the whole new state and the returned status meet the slot rules, spelled out case by case |
| `Scheduler.Control.constructor` | pico/lib/picoctrl.c:420-473 | a new chain: all PUs idle, all buffers empty |
| `Scheduler.Control.EngReset` | pico/lib/picoctrl.c:93-119 | a reset empties the buffers and goes back to the first PU, but leaves the PU statuses |
| `Scheduler.Control.FindNonIdle` | pico/lib/picoctrl.c:196-205 | the walk up the chain stops at the nearest PU that is not idle, or at the first one |
| `Scheduler.StepKeepsInv` | pico/lib/picoctrl.c:133-226 | data is only in front of the current PU or the next one, which is then marked busy, and an idle PU behind the first has an empty input: kept by every step |
| `Scheduler.RunKeepsInv` | pico/lib/picoctrl.c:133-226 | that invariant in every state of every run, resets included |
| `Scheduler.IdleMeansDrained` | pico/lib/picoctrl.c:188-210 | when a step returns idle, its buffers are all empty |
| `Scheduler.RunDrains` | pico/lib/picoctrl.c:133-226 | drain safety: in every run, resets included, an idle return means that all buffers in front of PUs are empty |
| `Scheduler.RunKeepsStatusInv` | pico/lib/picoctrl.c:135-138 | the commented invariant on the PU statuses holds in every run without a reset |
| `Scheduler.ResetStatusInvIff` | pico/lib/picoctrl.c:93-119 | exactly when it survives a reset |
| `Scheduler.ResetBreaksStatusInv` | pico/lib/picoctrl.c:524-547 | with three PUs or more, a run that feeds text, passes it on to the third PU and resets, after which it does not hold |
| `Scheduler.StepGetsCloser` | pico/lib/picoctrl.c:173-221 | every step that does not return idle lowers a lexicographic measure of work, pushes down and walks up |
| `Scheduler.ReachesIdle` | pico/lib/picoctrl.c:133-226 | if PUs work or truthfully report that they cannot, and the caller empties the output, an idle return with empty buffers is reached |
| `Scheduler.FetchIdleMeansEmpty` | pico/lib/picoctrl.c:749-792 | when fetching output reports idle, input, internal buffers and output are empty, and nothing is delivered |
| `Scheduler.PuKeepsSettled` | pico/lib/picoctrl.c:143-172 | the step of a PU keeps data behind the next PU away and marks that one busy if it gets any |
| `Scheduler.WalkKeepsInv` | pico/lib/picoctrl.c:196-205 | the upward walk passes only PUs without input |
| `Scheduler.StepMeetsRules` | pico/lib/picoctrl.c:152-223 | who gets the next turn, what is returned, and which statuses and buffers change, by the status that the current PU returns: atomic, busy, idle, full or error |
| `Scheduler.RulesDetermine` | pico/lib/picoctrl.c:152-223 | these rules leave no choice: what a step does is the only thing that meets them |
| `Scheduler.TurnsOfRun` | pico/lib/picoctrl.c:152-223 | in every run, from one step to the next, whatever the caller feeds and fetches in between, turn and statuses are those of the rules |
| `Scheduler.AtomicKeepsTurn` | pico/lib/picoctrl.c:174-177 | as long as its steps are atomic, the same PU is stepped and its status stays atomic, whatever it puts out |
| `Scheduler.FullBufferIsRead` | pico/lib/picoctrl.c:211-221 | a PU with a full output buffer hands its turn to the PU that reads this buffer, now busy; the last PU keeps it |
| `Scheduler.BusyMovesDown` | pico/lib/picoctrl.c:179-186 | after a busy step the PU below is next exactly if it was busy or was woken |
| `Scheduler.EngFetchOutputItemBytes` | pico/lib/picoctrl.c:749-792 | one step and then one get of speech data: the new state, the status and the bytes delivered |
| `Scheduler.FetchTakesItem` | pico/lib/picoctrl.c:763-787 | with a whole item in front, a fetch delivers the content of a frame item, drops another item, or fails with an item that is too large and leaves it |
| `Scheduler.FetchFindsNothing` | pico/lib/picoctrl.c:763-787 | with an empty output buffer, a fetch delivers nothing, and is idle exactly if the step is |
| `Scheduler.CallDelivers` | pico/lib/picoctrl.c:724-792 | one call, with feeding and fetching, takes exactly one item from the output buffer if there is any |
| `Scheduler.CallsDeliver` | pico/lib/picoctrl.c:724-792 | conservation over every run of calls: the bytes delivered are the contents of the frame items among the first items put out, in order, and the items behind them are in the output buffer |
| `Scheduler.IdleDeliversAll` | pico/lib/picoctrl.c:724-792 | no call of such a run fails, and when one is idle, all that was put out has been delivered, and the engine is empty |
| `Scheduler.StepKeepsStatusInv` | pico/lib/picoctrl.c:133-226 | a step keeps the commented invariant on the statuses |
| `CharBuffers.CharBuffer.PutCh` | pico/lib/picodata.c:145-156 | a byte is appended to the queue, or rejected without change when the buffer is full |
| `CharBuffers.CharBuffer.GetCh` | pico/lib/picodata.c:159-170 | the front byte of the queue is taken, or nothing when it is empty |
| `CharBuffers.CharBuffer.PutItem` | pico/lib/picodata.c:261-307 | writing an item through the circular array does to the queue what its specification says, for every outcome |
| `CharBuffers.CharBuffer.GetItem` | pico/lib/picodata.c:176-259 | the same for reading an item, with and without the restriction to speech data, which breaks the buffer exactly if it drops an incomplete item |
| `CharBuffers.CharBuffer.Reset` | pico/lib/picodata.c:89-99 | a reset empties the queue |
| `CharBuffers.CharBuffer.RearFollowsFront` | pico/lib/picodata.c:145-170 | rear is front + len modulo the size |
| `CharBuffers.PutItemAtomic` | pico/lib/picodata.c:261-307 | a put adds exactly the item, or changes nothing |
| `CharBuffers.GetFrontItem` | pico/lib/picodata.c:176-259 | from a queue of whole items a get takes the front item or leaves everything, and never underflows |
| `CharBuffers.RunIsFifo` | pico/lib/picodata.c:176-307 | in every run of puts and gets the items removed are the first ones accepted, byte for byte and in order, and what is left fits the buffer |
| `CharBuffers.CharBuffer.PassItem` | pico/lib/picodata.c:198-206 | dropping more bytes than there are makes the fill level wrap around in 16 bits, and the buffer is broken |
| `CharBuffers.IncompleteItemBreaks` | pico/lib/picodata.c:196-206 | a word head without its content, and a request for speech data, which breaks the buffer |
| `CharBuffers.PutAcceptedIff` | pico/lib/picodata.c:261-307 | a whole item offered completely is accepted exactly if it fits the free space |
| `CharBuffers.FeedText` | pico/lib/picoctrl.c:724-737 | text is taken from the front until it ends or the buffer is full |
| `CharBuffers.FifoObserved` | pico/lib/picodata.c:176-259 | a get on a queue of whole items reports the end exactly when everything accepted has been removed |
| `Durations.TransDurUniform` | pico/lib/picodata.c:694-717 | the loop rewrites the durations and returns the carry as the scaling recurrence says |
| `Durations.TransDurWeighted` | pico/lib/picodata.c:719-764 | the same for weighted scaling, with the uniform one for a zero weighted sum |
| `Durations.UniformConserves` | pico/lib/picodata.c:710-715 | 1024 sum(new) + rest = old rest + fact sum(old), even where a stored value wraps |
| `Durations.FitsIffProperRemainder` | pico/lib/picodata.c:710-715 | a value fits its byte exactly if the carry it leaves is a proper remainder |
| `Durations.UniformPartialSums` | pico/lib/picodata.c:710-715 | where values fit, the new durations up to any state add up to the exactly scaled old ones, rounded down |
| `Durations.WeightedConserves` | pico/lib/picodata.c:750-762 | 1024 sum(new - old) + rest = old rest + fact sum(old weight), through the clamping at zero |
| `Durations.StoredConservesIff` | pico/lib/picodata.c:750-762 | for the bytes stored this holds exactly if the highest of the exactly scaled totals so far never rises by more than 255 from one state to the next |
| `Durations.ChangeFactorError` | pico/lib/picodata.c:743-747 | truncating the change factor costs less than the weighted sum |
| `Durations.WeightedMiss` | pico/lib/picodata.c:719-764 | where no such rise exceeds 255, the total misses the requested change by less than the weighted sum, with the carry taken into account |
| `Durations.WeightedPartialSums` | pico/lib/picodata.c:750-762 | the values computed up to any state add up to the highest of the exactly scaled totals so far, which fixes what clamping does |
| `Durations.WeightedValue` | pico/lib/picodata.c:750-762 | each computed value is the rise of that highest total |
| `Durations.StoredLosesFrames` | pico/lib/picodata.c:750-762 | a state of 200 frames that is to last 1100 ms instead of 800 ms gets 275 frames, and 19 are stored |
| `Durations.UniformFitsIff` | pico/lib/picodata.c:710-715 | all values up to a state fit their bytes exactly if the exactly scaled total, rounded down, gains 0 to 255 in each of these states, and then the new durations add up to it |
| `Durations.ChangeFactorIs` | pico/lib/picodata.c:743-747 | the change factor is the quotient of the magnitudes rounded down, with the sign of the change |
| `Durations.UniformMissesTarget` | pico/lib/picodata.c:706-716 | with frames of 2^exp ms, uniform scaling leaves 2^exp times less than the target, up to a frame and a 1024-th of the old duration |
| `Durations.UniformReachesIff` | pico/lib/picodata.c:706-716 | but for targets of a few frames, it reaches the target exactly if a frame is one millisecond |
| `Durations.UniformQuarter` | pico/lib/picodata.c:706-716 | 200 frames of 4 ms with 800 ms as their target become 50 frames |
| `ReversedBits.NextReversed` | pico/lib/picofftsg.c:1601-1603 | the xor loop is the successor of a counter with reversed bits |
| `ReversedBits.CarryIsSuccessor` | pico/lib/picofftsg.c:1601-1603 | the same for the function the loop computes |
| `ReversedBits.RevInvolution` | pico/lib/picofftsg.c:1581-1698 | reversing the bits of an index twice changes nothing |
| `Exchanges.SwapNext` | pico/lib/picofftsg.c:1606-1608 | exchanging the next pair advances the reordering by one turn |
| `BitReversal.Bitrv1` | pico/lib/picofftsg.c:1581-1698 | for every n = 2^bits with n >= 4, element i ends up at the reversal of i; all accesses are in bounds |
| `BitReversal.BitReversedTwice` | pico/lib/picofftsg.c:1581-1698 | applying it twice restores the array |
| `BitReversal.Split` | pico/lib/picofftsg.c:1589-1592 | the first loop finds 2^(bits/2) and whether a middle bit is left |
| `BitReversal.MoveFour` | pico/lib/picofftsg.c:1668-1685 | for an even number of bits, the inner body exchanges exactly the pairs whose turn it is |
| `BitReversal.MoveEight` | pico/lib/picofftsg.c:1606-1643 | the same for an odd number of bits |
| `BitReversal.LoopsEven` | pico/lib/picofftsg.c:1661-1696 | the two nested loops exchange every remaining pair once, for an even number of bits |
| `BitReversal.LoopsOdd` | pico/lib/picofftsg.c:1599-1659 | the same for an odd number of bits |
| `BitReversal.PairTurn` | pico/lib/picofftsg.c:1600-1647 | each turn of the inner loop is that of one pair of indices only |
| `BitReversal.DiagonalTurn` | pico/lib/picofftsg.c:1648-1658 | the exchanges behind the inner loop are those of the indices with equal halves |
| `BitReversal.MovePair` | pico/lib/picofftsg.c:1663-1695 | one iteration of the outer loop, for an even number of bits |
| `BitReversal.MovePairOdd` | pico/lib/picofftsg.c:1601-1658 | one iteration of the outer loop, for an odd number of bits |
| `Lexicons.LexLookup` | pico/lib/picoklex.c:482-531 | the lookup by index search, equal-run walk and block scan has the results of a scan over all entries |
| `Lexicons.GetLexblockNr` | pico/lib/picoklex.c:262-318 | the search finds the first block with the highest prefix up to the key; a key below the first prefix wraps to 65535 |
| `Lexicons.GetLexblockRange` | pico/lib/picoklex.c:324-351 | the run of blocks with the same prefix, up to the first different one |
| `Lexicons.LexMatch` | pico/lib/picoklex.c:358-383 | lexicographic comparison with the grapheme string of an entry |
| `Lexicons.LexResult.SetLexResult` | pico/lib/picoklex.c:386-413 | entering an entry changes the result record as specified, with and without phones |
| `Lexicons.LexblockLookup` | pico/lib/picoklex.c:416-475 | the scan of a stretch of blocks collects the results of the matching entries, up to four |
| `Lexicons.NextEntry` | pico/lib/picoklex.c:464-470 | two length bytes and the zeros at the end of a block lead to the next entry |
| `Lexicons.MatchInRange` | pico/lib/picoklex.c:262-351 | every matching entry is in the blocks that are scanned |
| `Lexicons.BelowFirstPrefix` | pico/lib/picoklex.c:262-318 | a key below the first prefix has no entry at all |
| `Lexicons.BehindIndex` | pico/lib/picoklex.c:324-351 | the value read behind the index is the start of the first block |
| `Lexicons.ResultsPlain` | pico/lib/picoklex.c:433-458 | the results are the part of speech and position of the first matches, up to four, exactly if none of these is left to the rules |
| `Lexicons.ResultsG2P` | pico/lib/picoklex.c:391-399 | a first match that is left to the rules is the only result |
| `Lexicons.IndexRoundTrip` | pico/lib/picoklex.c:406-409 | three index bytes are enough exactly for positions below 2^24 |
| `Lexicons.LexIndLookup` | pico/lib/picoklex.c:534-565 | an index leads to the bytes stored there, which at an entry are its part of speech and phones, or is rejected behind the last block |
| `Lexicons.ResultLeadsBack` | pico/lib/picoklex.c:534-565 | where that is so, the index of each result leads back to that match |
| `Lexicons.KeyBelowPrefix` | pico/lib/picoklex.c:262-318 | in a lexicon of one block, the number of the block for any key below its prefix is 65535 |
| `Lexicons.UpperCaseKeyWraps` | pico/lib/picoklex.c:262-318 | the key "A" where the entries start with "a" is one |
| `Lexicons.MixedResults` | pico/lib/picoklex.c:391-399 | a plain match, one for the rules and a plain one leave two results, the first with the part of speech of the second match and the index of the first |
| `Lexicons.MixedEntries` | pico/lib/picoklex.c:391-399 | three adjacent entries for which this happens |
| `Lexicons.ResultsFill` | pico/lib/picoklex.c:402-458 | plain results fill the record: there are as many as matches, or as groups of four bytes |
| `Lexicons.IndexLowFirst` | pico/lib/picoklex.c:406-409 | the three bytes of an index, the low one first |
| `Lexicons.LookForMore` | pico/lib/picoklex.c:436-458 | the loop for further results adds those of the matching entries behind the first, up to four |
| `Lexicons.PartSuffices` | pico/lib/picoklex.c:482-527 | scanning the chosen blocks finds all matches of the whole lexicon |
| `GraphTables.GraphOffset` | pico/lib/picoktab.c:369-426 | the binary search over disjoint ranges finds the record that a scan of all records finds |
| `GraphTables.FoundByScan` | pico/lib/picoktab.c:369-426 | a character is in the range of one record at most |
| `GraphTables.PropOffset` | pico/lib/picoktab.c:288-366 | the offset of a property is where its field starts, for every property set; 0 if it is missing |
| `GraphTables.ReadRecord` | pico/lib/picoktab.c:574-637 | the sequential reader gets every field from where the property offsets say |
| `GraphTables.ReadRange` | pico/lib/picoktab.c:384-411 | the ends of the range of a record, and its offset |
| `GraphTables.HasVowellikeProp` | pico/lib/picoktab.c:258-270 | looks at the byte that is taken for the token type of a grapheme |
| `GraphTables.ScanSkips` | pico/lib/picoktab.c:369-426 | ranges without the character do not change what the scan finds |
| `GraphEncoding.EncodedGraphs` | pico/lib/picoktab.c:137-220 | every list of ranges with properties that fits offsets of one or two bytes can be written so that the table has exactly these ranges and the records exactly these properties |
| `GraphEncoding.EncodedLookup` | pico/lib/picoktab.c:369-426 | in such a table the search finds the record that was written for a character, and nothing for a character in none of the ranges |
| `GraphEncoding.PropertyFound` | pico/lib/picoktab.c:288-366 | the offset of a property leads to what was written for it, and is 0 exactly if nothing was |
| `GraphEncoding.OffsetStored` | pico/lib/picoktab.c:384-393 | the one or two bytes of an offset, low byte first, give the place where the record was written |
| `GraphEncoding.EntryStored` | pico/lib/picoktab.c:574-637 | reading a record that was written gives the character, the end of the range and every property, or the values that stand for a missing one |
| `GraphEncoding.PropsetBits` | pico/lib/picoktab.c:181-189 | bit k of the property set tells whether field k is there |
| `GraphEncoding.KnownVowel` | pico/lib/picoktab.c:258-270 | a grapheme of the table is like a vowel exactly if its token type says so; one without token type is not |
| `GraphEncoding.UnknownVowel` | pico/lib/picoktab.c:258-270 | an unknown grapheme is like a vowel exactly if the offsets have one byte and there are 83 records |
| `GraphEncoding.BlankIsVowel` | pico/lib/picoktab.c:258-270 | such a table, in which a blank is like a vowel |
| `Transducers.BytesToNum` | pico/lib/picokfst.c:116-137 | the value of the digits up to the marked byte, and the position behind it |
| `Transducers.ReadEncoded` | pico/lib/picokfst.c:116-137 | reading undoes encoding for every 32-bit number |
| `Transducers.SignedUnsigned` | pico/lib/picokfst.c:130-136 | the sign in the lowest bit is a one-to-one code |
| `Transducers.FixedBytesToSignedNum` | pico/lib/picokfst.c:94-111 | numbers of fixed size |
| `Transducers.FixedBytesToUnsignedNum` | pico/lib/picokfst.c:80-89 | unsigned numbers of fixed size |
| `Transducers.FixedRoundTrip` | pico/lib/picokfst.c:80-111 | reading undoes encoding for up to four bytes |
| `Transducers.StartPairSearch` | pico/lib/picokfst.c:272-305 | the bucket search finds the cell of an input symbol, if it has one, and ends as chain offsets are positive |
| `Transducers.GetNextPair` | pico/lib/picokfst.c:309-337 | the stored pairs one after the other, then none |
| `Transducers.AllPairs` | pico/lib/picotrns.c:324-350 | search and iteration together give exactly the pairs stored for the symbol, in order |
| `Transducers.BucketSuffices` | pico/lib/picokfst.c:281-304 | looking in one bucket finds the cell of a symbol wherever it is |
| `Transducers.AbsentSymbol` | pico/lib/picokfst.c:281-304 | and nothing if it is nowhere |
| `Transducers.EncodedPairsAt` | pico/lib/picokfst.c:309-337 | pairs written with the number code are read back as those pairs |
| `Transducers.SearchChain` | pico/lib/picokfst.c:286-304 | the chain of a bucket is searched to its end or to the symbol |
| `TableEncoding.EncodedTable` | pico/lib/picokfst.c:272-337 | every hash table of pairs can be written so that the search and the iteration find exactly its pairs |
| `TableEncoding.BucketStored` | pico/lib/picokfst.c:281-289 | a bucket holds the offset of its chain, or 0 |
| `TableEncoding.ChainStored` | pico/lib/picokfst.c:286-304 | a chain of cells, each with the offset of the next one, is found by following the offsets |
| `TableEncoding.CellStored` | pico/lib/picokfst.c:286-304 | a cell is written as symbol, offset of the next cell, and pairs |
| `TableEncoding.TableForm` | pico/lib/picokfst.c:265-337 | the bytes of a small table: offset of the chain, and two cells of symbol, offset of the next cell, pairs and end |
| `TableEncoding.NumberForms` | pico/lib/picokfst.c:80-137 | some numbers and their bytes |
| `Utf8.GetNextUtf8Char` | pico/lib/picobase.c:955-983 | the next character is copied and passed exactly if it is whole, for any bytes |
| `Utf8.GetPrevUtf8Char` | pico/lib/picobase.c:1011-1040 | going back finds the nearest position from which the bytes are as many as the first of them announces, for any bytes |
| `Utf8.NextThenPrev` | pico/lib/picobase.c:955-1040 | in every string, going back undoes going forward |
| `Utf8.Utf8Length` | pico/lib/picobase.c:52-95 | -1 exactly if the text up to a zero byte or the limit is no beginning of a string of characters; otherwise the number of characters that start in it |
| `Utf8.CountByte` | pico/lib/picobase.c:63-89 | the byte ladder agrees with the length of a character as its first byte tells it |
| `Utf8.StartedUnique` | pico/lib/picobase.c:52-95 | that number is determined |
| `Utf8.PrevOfChar` | pico/lib/picobase.c:1011-1040 | behind a character, what is found is that character |
| `Utf8.ParseUnique` | pico/lib/picobase.c:52-95 | a text is taken apart into characters in one way only |
| `Utf8.NextByte` | pico/lib/picobase.c:63-89 | a byte that the ladder rejects cannot continue any string of characters |
| `Utf8.LengthOfString` | pico/lib/picobase.c:52-95 | for a zero-terminated string of characters, the count is that of all, or of those that start before the limit |
| `CodePoints.DecodeEncode` | pico/lib/picobase.c:1073-1134 | decoding undoes encoding for all code points of RFC 3629 |
| `CodePoints.Utf32ToUtf8` | pico/lib/picobase.c:1092-1134 | the encoder writes the bytes of RFC 3629, zero terminated if there is room, and rejects what it does not take |
| `CodePoints.EncodeIsChar` | pico/lib/picobase.c:1092-1134 | the encoding of a code point is a well-formed character without zero bytes |
| `CodePoints.GetUtf8Char` | pico/lib/picobase.c:937-952 | copies a character and advances |
| `CodePoints.LowercaseUtf8Str` | pico/lib/picobase.c:1137-1165 | the encoding of the lower-case forms of the code points below 0x100000, as much as fits; done tells exactly whether all these did, which a buffer of the size of the original guarantees; of ASCII characters exactly the bytes 65 to 90 change, each by 32 |
| `CodePoints.IsUtf8Lowercase` | pico/lib/picobase.c:1218-1234 | whether all characters that start before the limit are their own lower-case forms; a string of ASCII characters passes exactly if none of these bytes is from 65 to 90 |
| `CodePoints.LoweredIsLower` | pico/lib/picobase.c:1137-1234 | a string in lower case passes that test |
| `CodePoints.LowerStringNotLonger` | pico/lib/picobase.c:98-489 | lower case never takes more bytes |
| `CodePoints.HighCodesDropped` | pico/lib/picobase.c:1118-1161 | exactly the code points from 0x100000 on are left out of the lower-case string |
| `CodePoints.EncodeOrdered` | pico/lib/picobase.c:1092-1134 | encodings are in the byte order of their code points |
| `CodePoints.AsciiLowerString` | pico/lib/picobase.c:1137-1165 | the lower-case form of a string of ASCII characters: the bytes 65 to 90 change by 32, and the others stay |
| `LowerCase.LowerIdempotent` | pico/lib/picobase.c:98-489 | a lower-case form is its own lower-case form |
| `LowerCase.LowerNotLonger` | pico/lib/picobase.c:98-489 | the lower-case form is in the same size class or a smaller one |
| `UpperCase.LowerUndoesUpper` | pico/lib/picobase.c:98-927 | what the table of upper-case forms raises, that of lower-case forms lowers: back to the letter exactly if it is no second form of a letter, all of which are listed |
| `UpperCase.UpperUndoesLower` | pico/lib/picobase.c:98-927 | what the table of lower-case forms lowers goes back to the capital letter exactly if this is none of nine that share a small letter |

## Left out

- Integer widths: integers are unbounded, except where a result is stored in a byte or in 16 bits and in the lemmas that say what fits 32 bits.
- FixedPoint.ShiftSubtract: the two divisions of the code differ in signedness only and share this loop; that 5/2 of the divisor fits is enough for the remainders to fit, but not always necessary.
- PentaSolver.InvMatrix: does not model row scaling and rounding in the solver, or the final division by 2^meanpow with the cut to 16 bits; the rounding of each primitive is in FixedPoint.
- PentaSolver.DivideByPivots: does not model the extra division by 2^bigpow for double decimals, which only changes the fixed-point base of the result.
- SmoothingBands.MakeWUWandWUm: does not model how `getFromPdf` unpacks means and inverse variances; they are given per frame and stream.
- SmoothingBands.Smooth: does not model the direct output for three or fewer frames, or the state machine of `cepStep` around it.
- BitReader.GetShiftVal: does not model reading beyond the end of the tree; the field has to be in it.
- DecisionTree.Classifier.AskTree: does not model malformed trees; the bits have to represent a tree, and field widths are at most 30 bits.
- TableEncoding.EncodedTable: the repository reads tables and does not write them; the layout written leaves five bytes for the offset of the next cell.
- TreeEncoding.EncodedTree: the repository reads trees and does not write them; the layout written is the one the reader takes for granted, with the subtrees in the order of their forks.
- GraphWindow.PosP.ConstructInVec: does not model malformed UTF-8, or the map tables, which are functions here; each buffer cell holds one grapheme as a sequence instead of four bytes.
- Scheduler.Control.CtrlStep: does not model the processing units; any outcome that satisfies the commented contract can occur.
- Scheduler.FetchIdleMeansEmpty: does not model what is left in an output buffer that has dropped more than it held.
- Scheduler.Control.EngReset: does not model a failing reset, or the termination and re-initialisation of the units.
- Durations.TransDurUniform: does not claim that the target duration is reached, which is false; Durations.UniformReachesIff says when it is.
- Durations.UniformMissesTarget: for a carry of zero and values that fit their bytes; the choice of the target in `picodata_transformDurations` is not modelled.
- Scheduler.CallsDeliver: buffers in the model of the scheduler have no size limit; that a put fails without change in a full buffer is in CharBuffers.
- GraphEncoding.EncodedGraphs: the repository reads tables and does not write them; the records follow the offsets in the order of the entries.
- Lexicons.LexLookup: does not model the lookup of keys below the first prefix, for which the code reads outside of the index, and assumes the documented layout: sorted entries, an unambiguous index, two different first prefixes, and a different value behind the last one.
- Lexicons.LexIndLookup: does not model indices from which the code reads outside of the blocks.
- GraphTables.GraphOffset: does not model strings with zero bytes, at which the string comparison of the code stops.
- Transducers.StartPairSearch: does not model negative symbols, whose remainder is negative in C.
- Transducers.BytesToNum: does not model a stream that ends inside of a number.
- Utf8.GetPrevUtf8Char: does not model malformed bytes in the first three positions of a string with no character or zero byte to stop at, for which the unsigned position of the code wraps around.
- CodePoints.IsUtf8Lowercase: does not model malformed UTF-8; neither does the conversion to lower case.
- The cursor movements without copying (`picobase_get_next_utf8charpos` and its counterpart) are the same loops and are not modelled again.
- Strings in upper case: the same loops as for lower case, with the other table.
- Transitions, input epsilons and accepting states of transducers: fixed-offset reads.
- The FFT itself, acoustic phonology and the state machines of the processing units: their fixed-point recurrences and retry paths have no clean exact law.
- Knowledge-base loaders, the resource and memory manager, files, exceptions, and the public interface.

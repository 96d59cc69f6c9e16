# bfc front and middle end, in Dafny

bfc is an optimising compiler for BF, the eight-command language that
works on a tape of byte cells: `+ -` change the current cell, `> <` move
the pointer, `, .` read and write, and `[ ]` loop while the current cell is
non-zero. Several historical revisions of the compiler sit side by side in
the repository: a C++ compiler, a C interpreter and a Rust rewrite. The
Rust rewrite also comes in more than one revision.

This project models the compiler's front and middle end as pure Dafny
definitions and proves properties of them. It covers:

- the instruction tree;
- the C++ structural equality;
- the parsers and bracket matchers;
- the peephole passes of both Rust optimisers, and their drivers;
- the accumulator-style increment folds of the older revisions;
- the speculative interpreter;
- the cell-bounds analysis;
- the small helpers: run-length encoding of the initial cells, line and
  column lookup, and output file names.

One datatype, `Ir.Instr`, stands for every revision's instruction type:

| constructor | meaning |
|---|---|
| `Increment(amount, offset)` | change a cell |
| `PointerIncrement(amount)` | move the pointer |
| `Read`, `Write` | input and output |
| `Loop(body)` | a loop that owns its body |
| `Set(amount, offset)` | overwrite a cell |
| `MultiplyMove(changes)` | one multiply loop |

Source positions are dropped, except the indices in parse errors.

Amounts are unbounded integers. The revisions whose cells are
`Wrapping<i8>` wrap every sum explicitly with `Ir.Wrap` into `[-128, 128)`.
The older revisions add fixed-width integers: 32-bit `int` in the C++
compiler (src/bfir.hpp:53, 65) and `i32` in the toy Rust revision
(rust_src/src/bfir.rs:3). The model adds them as unbounded integers; the
lines under "Left out" say where that matters.

The revisions without offsets are the cases in which every offset is 0.

The module layout:

| group | modules |
|---|---|
| shared definitions | `Ir`, `Syntax`, `Text`, `Wrappers`, `Nested`, `Adaptors` |
| parsers | `BracketParser` (the three copies of `findMatchingClose` and `parseSourceBetween`), `StackParser`, `CFindClose`, `ToyParser` |
| passes | `Increments`, `Sets`, `KnownZero`, `Multiply`, `PureCode`, `Accumulate` |
| optimiser drivers | `Peephole` (the fixpoint optimiser), `LegacyOptimize` (the single-pass one) |
| other components | `CppEquality`, `Execution`, `Bounds`, `RunLength`, `Diagnostics`, `FileNames` |

`Adaptors` holds the iterator adaptors the passes chain: itertools'
`coalesce`, and `filter`.

## Model

| member | source | states |
|---|---|---|
| CppEquality.InstrEqMeaning | src/bfir.cpp:18-32 | equal instructions compare equal; `==` implies the same dynamic kind; two increments are equal exactly when their amounts are; `!=` is the negation of `==` |
| CppEquality.InstrEqEquivalence | src/bfir.cpp:18-28 | the written instruction equality is reflexive, symmetric and transitive |
| CppEquality.SeqEqMeaning | src/bfir.cpp:51-58 | equal sequences compare equal, sequences of different length are unequal, and sequence `!=` negates `==` |
| CppEquality.KindIsConstructor | src/bfir.cpp:18-28 | two instructions share a kind exactly when they are built by the same constructor |
| CppEquality.WrittenEqualityTooCoarse | src/bfir.cpp:18-28 | as written, pointer increments of 1 and 2 are equal, any two loops are equal, and one-element sequences with different pointer increments are equal |
| CppEquality.StructEqIsEquality | src/run_tests.cpp:5-65 | the corrected instruction equality holds exactly when the instructions are identical |
| CppEquality.SeqStructEqIsEquality | src/run_tests.cpp:67-86 | the corrected sequence equality holds exactly when the sequences are identical |
| CppEquality.CorrectedEqualityMeetsTests | src/run_tests.cpp:5-86 | every EXPECT_EQ and EXPECT_NE of the equality tests holds of the corrected equality |
| CppEquality.CoalesceDataInstructions | src/bfir.cpp:377-385 | the copying loop returns the same instructions in the same order |
| BracketParser.FindMatchingClose | src/parser.cpp:8-30 | with a `[` at `open`, the result is -1 exactly when the depth never returns to zero; otherwise it is the first index after `open` where the depth returns to zero, and a `]` stands there |
| BracketParser.MatchingCloseUnique | llvm/bfir.cpp:268-290 | the first index at which the depth returns to zero is the answer |
| BracketParser.ParseLoopStep | src/parser.cpp:69-82 | a `[` with a match produces a loop whose body is the parse strictly between the brackets, and parsing resumes after the `]` |
| BracketParser.ParseOpenStep | src/bfir.cpp:340-347 | a `[` without a match fails with an unmatched-open error at its own index |
| BracketParser.ParseCloseStep | src/parser.cpp:83-90 | a `]` reached at the current level fails with an unmatched-close error at its own index |
| BracketParser.ParseNodeStep | llvm/bfir.cpp:296-353 | any other character adds its node, or nothing when it is not a command, and parsing continues with the next index |
| BracketParser.BalancedParses | src/parser.cpp:32-100 | a balanced range parses, and the tree prints back as the range's command characters |
| BracketParser.ParsedIsBalanced | src/parser.cpp:32-100 | a successful parse of a suffix implies the suffix is balanced |
| BracketParser.ParseErrorAt | src/parser.cpp:32-100 | a failed parse reports the bracket described by `ErrorFits` |
| BracketParser.ParseSourceSpec | src/parser.cpp:102-104 | `parseSource` succeeds exactly on balanced texts and then prints back as their commands; an unmatched `]` is the first closing bracket with nothing open; an unmatched `[` is the outermost bracket never closed |
| BracketParser.ErrorUnique | src/parser.cpp:32-104 | a text has at most one error that fits |
| BracketParser.RoundTrip | src/parser.cpp:32-104 | parsing a printed parser-shaped tree gives the tree back |
| BracketParser.PrintInjective | src/parser.cpp:32-104 | different parser-shaped trees print differently |
| BracketParser.ParseNestedExample | src/bfir.rs:221-234 | `.[,+]-` parses to a write, a loop holding a read and an increment, and a decrement |
| BracketParser.ParseCommentExample | src/bfir.rs:245-247 | `foo! ` parses to the empty program |
| BracketParser.ParseUnbalancedExamples | src/bfir.rs:237-242 | `[`, `]`, `][` and `[][` fail, each at the bracket that is reported |
| StackParser.ScannedPush | src/bfir.rs:124-127 | pushing a frame at `[` keeps the loop invariant: the stack holds one frame per open bracket, and the text read so far prints as the frames and the current instructions |
| StackParser.ScannedPop | src/bfir.rs:128-141 | popping at a matched `]` keeps the invariant and appends the finished loop to the enclosing instructions |
| StackParser.ScannedOther | src/bfir.rs:96-123 | a command character appends its one node and any other character nothing, keeping the invariant |
| StackParser.FinishClose | src/bfir.rs:135-140 | a `]` met with an empty stack is the first unmatched close, and the bracket parser reports the same error |
| StackParser.FinishOpen | src/bfir.rs:146-152 | brackets left on the stack at the end make the text unbalanced; the top of the stack is the innermost unclosed `[`, which the bracket parser reports only when one bracket is open |
| StackParser.InnermostAgainstOutermost | src/bfir.rs:146-152 | the bracket parser also fails on such a text with an unmatched `[`, and agrees with the stack parser exactly when the final depth is one |
| StackParser.FinishSuccess | src/bfir.rs:146-155 | an empty stack at the end means the text is balanced and the instructions print back as its commands |
| StackParser.Parse | src/bfir.rs:87-155 | `parse` succeeds exactly on balanced texts and then agrees with the bracket parser; unmatched `]` and unclosed `[` errors are placed as above |
| StackParser.ParseTests | src/bfir.rs:220-247 | the unit tests' results: the nested program, the comment, and the exact errors of the four unbalanced texts |
| CFindClose.FindClose | c/main.c:8-31 | with no match the answer is `None` (the source falls off the end); a match is the first `]` after the `[` at which the depth is zero; the answer agrees with `findMatchingClose` |
| CFindClose.AgreesWithFindMatchingClose | c/main.c:8-31 | the C scan's answer and `findMatchingClose` coincide, including the no-match case |
| ToyParser.Parse | rust_src/src/bfir.rs:6-14 | every character becomes one `Increment(1)`, so the output is as long as the input |
| Syntax.NodeOf | src/bfir.rs:96-123 | a command character yields exactly one node, which prints back as that character; any other character yields nothing |
| Syntax.PrintBalanced | src/bfir.rs:124-141 | the text of a parser-shaped tree is balanced |
| Increments.CombineLeavesNoZero | src/peephole.rs:37-60 | after the pass no increment of the folded kind has a zero amount, at any depth |
| Increments.CombineLeavesNoRun | src/peephole.rs:37-85 | on a program whose cell increments are all at offset 0 (any program, for pointer moves), no two increments of the folded kind are adjacent after the pass, at any depth |
| Increments.CoalesceSumsRuns | src/peephole.rs:37-60 | the coalescing step replaces each maximal run of increments to one place by one node carrying the run's sum |
| Increments.CombineFlat | src/optimize.rs:18-43 | on loop-free input the pass is the run fold followed by the zero filter |
| Increments.CombineFixedPoint | src/peephole.rs:37-85 | a program with no zero amount and no adjacent pair is left unchanged |
| Increments.CombineIdempotent | src/peephole.rs:37-85 | on the same programs, running the pass twice gives the same result as once |
| Increments.CombineIncrementsPair | src/peephole_tests.rs:50-55 | `++` folds to one increment of 2 |
| Increments.CombineIncrementsCancel | src/peephole_tests.rs:70-86 | `+-` vanishes |
| Increments.CombineRemovesZeroAnyOffset | src/peephole_tests.rs:77-81 | a zero increment is removed at any offset |
| Increments.CombineIncrementsNested | src/peephole_tests.rs:64-69 | runs inside loop bodies fold too |
| Increments.CombineIncrementsUnrelated | src/peephole_tests.rs:57-62 | increments separated by other instructions stay apart |
| Increments.CombinePtrIncrementsPair | src/peephole_tests.rs:97-102 | `>>` folds to one pointer increment of 2 |
| Increments.CombinePtrIncrementsCancel | src/peephole_tests.rs:118-122 | `><` vanishes |
| Increments.CombinePtrIncrementsNested | src/peephole_tests.rs:111-117 | pointer runs inside loop bodies fold too |
| Accumulate.CoalesceIncrements | src/optimisations.cpp:4-41 | the pointer-to-pointer loop computes the held-instruction walk `Drain`, including the final flush |
| Accumulate.CoalesceIncrementsMatchesFold | src/optimisations.cpp:11-38 | on input without zero increments the walk equals the run fold of `combine_increments`, with unbounded sums and no recursion into loops |
| Accumulate.CoalesceLeavesBodies | src/optimisations.cpp:3 | every loop the walk emits is one of the input's, so bodies are not rewritten |
| Accumulate.DrainAfterZero | src/optimisations.cpp:23-24 | once a run's sum reaches zero nothing is pending, and the walk continues as a fresh fold |
| Accumulate.CombineHeldMatchesCombine | rust_src/src/optimize.rs:3-48 | with no zero amount at any depth, the `Option`-accumulator fold, recursing into loops, equals the unbounded `combine_increments` |
| Accumulate.LoneZeroKept | rust_src/src/optimize.rs:35-37 | the two differ on a lone zero increment: the accumulator flushes it, the filter drops it |
| Accumulate.CombineHeldExamples | rust_src/src/optimize.rs:50-83 | `++` folds to 2, `-+` vanishes, unrelated sequences stay, and loop bodies fold |
| Sets.CombineSetsLeavesNoPairs | src/peephole.rs:151-175 | after the wrapping pass no `Set` is followed by a `Set` or an increment of the same cell, at any depth |
| Sets.LegacyCombineSetsLeavesNoSetInc | src/optimize.rs:259-283 | after the unbounded pass no `Set` is followed by an increment of the same cell, at any depth |
| Sets.CombineSetsFixedPoint | src/peephole.rs:151-175 | a program with no combinable pair is left unchanged by either revision |
| Sets.SetRulesSound | src/peephole.rs:152-166 | each of the three rules merges only cell writes, and the merged `Set` has the same effect as the pair on every store: a later `Set` overwrites, and `Set(a), Increment(b)` leaves `a + b` |
| Sets.SetWalksKeepMeaning | src/peephole.rs:151-166 | the three walks of either revision keep the straight-line meaning: from every store, each other instruction is met with the same pointer and cells, the final cells agree, and the instructions that are neither `Set` nor `Increment` survive in order (the older walk order of src/optimize.rs:259-274 likewise) |
| Sets.CombineSetIncrementPair | src/peephole_tests.rs:180-190 | `Set(a), Increment(b)` becomes `Set(a + b)`, wrapping |
| Sets.ClearAfterMinusOne | src/peephole_tests.rs:89-94 | `Set(-1), Increment(1)` becomes `Set(0)`: the zero sum is kept |
| Sets.CombineSetSetPair | src/peephole_tests.rs:192-199 | `Set(a), Set(b)` becomes `Set(b)` in both revisions |
| Sets.CombineIncrementSetPair | src/peephole_tests.rs:208-213 | `Increment, Set(b)` becomes `Set(b)` in both revisions |
| Sets.CombineSetsNested | src/peephole_tests.rs:201-206 | the rules apply inside loop bodies |
| Sets.SetWalkOrdersDiffer | src/optimize.rs:259-283 | the revisions' walk orders differ: on `Set(1), Increment(2), Set(3)` the older one leaves two `Set(3)` |
| Sets.CombineSetsNotIdempotent | src/peephole.rs:151-175 | one run of the pass can expose a new `Increment, Set` pair, so the pass alone is not idempotent |
| Sets.ReadWalkDropsOverwritten | src/optimize.rs:148-171 | `combine_before_read` only deletes increments and sets that a `Read` immediately overwrites, and keeps everything else in order |
| Sets.CombineBeforeReadExamples | src/optimize.rs:129-146 | the pass's share of the tests: `+,.` becomes `,.`, and the `+` before `,` inside a loop goes |
| KnownZero.SimplifyLeavesNoZeroingLoop | src/peephole.rs:112-130 | no loop whose body is exactly a decrement by one survives, at any depth |
| KnownZero.SimplifyFixedPoint | src/peephole.rs:112-130 | a program with no such loop is unchanged |
| KnownZero.SimplifyIdempotent | src/peephole.rs:112-130 | running the pass twice gives the same result as once |
| KnownZero.RestoreUndoesSimplify | src/peephole.rs:112-130 | on programs without `Set(0)`, turning each `Set(0)` back into `[-]` undoes the pass, so nothing else changes |
| KnownZero.SimplifyUndoesRestore | src/peephole.rs:112-130 | the inverse the other way round, on programs with no zeroing loop |
| KnownZero.SimplifyLoopsExamples | src/peephole_tests.rs:140-160 | `[-]` becomes `Set(0)`, also nested, and `[--]` is unchanged |
| KnownZero.AnnotateMarksLoops | src/peephole.rs:207-234 | the result starts with `Set(0)`, and every loop, at any depth, is followed by `Set(0)` |
| KnownZero.RemoveUndoesAnnotate | src/peephole.rs:177-234 | removing redundant sets undoes annotation on programs without a redundant set, so annotation changes nothing else |
| KnownZero.AnnotateExamples | src/peephole_tests.rs:260-281 | the unit tests of `annotate_known_zero`, flat and nested |
| KnownZero.RemoveRedundantSetsLeavesNone | src/peephole.rs:177-205 | no `Set(0)` stays directly after a loop or a multiply, at any depth |
| KnownZero.RemoveRedundantSetsExamples | src/peephole_tests.rs:215-229 | a `Set(0)` after a loop or after a multiply is removed |
| KnownZero.RemoveDeadLoopsLeavesNone | src/peephole.rs:133-147 | no loop stays directly after `Set(0)`, at any depth, runs of dead loops included |
| KnownZero.DropDeadLoopsOnlyLoops | src/peephole.rs:133-147 | the pass deletes only loops: the other instructions keep their order |
| KnownZero.RemoveDeadLoopsFixedPoint | src/peephole.rs:133-147 | a program with no dead loop is unchanged |
| KnownZero.RemoveDeadLoopsIdempotent | src/peephole.rs:133-147 | running the pass twice gives the same result as once |
| KnownZero.RemoveDeadLoopsExamples | src/peephole_tests.rs:163-177 | loops after `Set(0)` go, also inside loop bodies |
| KnownZero.LegacyLeavesNone | src/optimize.rs:324-340 | the older pass leaves no `Set(0)` directly after a loop, at any depth |
| KnownZero.LegacyKeepsFirst | src/optimize.rs:324-340 | the older pass never removes the first instruction unless it is a loop |
| KnownZero.LegacyOnlyDropsSets | src/optimize.rs:324-331 | at the top level the older pass drops a `Set(0)` exactly when the last instruction it kept is a loop, and drops nothing but `Set(0)`s: every other instruction survives in order |
| KnownZero.LegacyUndoesAnnotate | src/optimize.rs:324-340 | at every depth the older pass deletes only the `Set(0)` after a loop: with a `Set(0)` put after every loop, it gives back every program that has no `Set(0)` after a loop of its own |
| KnownZero.LegacyRemoveRedundantSetsExample | src/optimize.rs:342-350 | `[Loop([]), Set(0)]` becomes `[Loop([])]` |
| Multiply.CellChangesMeaning | src/peephole.rs:304-323 | `cell_changes` has a key exactly for each cell the body touches, holding the wrapped total change of that cell |
| Multiply.MultiplyLoopMeaning | src/peephole.rs:262-299 | a loop is a multiply loop exactly when its body only moves and increments, has net movement 0, changes the start cell by -1, and changes another cell |
| Multiply.ExtractMultiplyMeaning | src/peephole.rs:325-343 | a loop becomes a `MultiplyMove` exactly when it is a multiply loop, whose changes are the touched cells other than 0 with their totals; other loops are rewritten inside |
| Multiply.ExtractLeavesNoMultiplyLoop | src/peephole.rs:325-343 | no multiply loop survives at any depth |
| Multiply.ExtractFixedPoint | src/peephole.rs:325-343 | a program without multiply loops is unchanged |
| Multiply.ExtractIdempotent | src/peephole.rs:325-343 | running the pass twice gives the same result as once |
| Multiply.ExtractMoveOneCell | src/peephole_tests.rs:364-386 | a loop that decrements, moves right, adds `n` copies of a unit and moves back becomes one multiply by `n` times the unit into cell 1, also nested |
| Multiply.ExtractMultiplyExamples | src/peephole_tests.rs:364-397 | the simple, negative and nested extraction tests |
| Multiply.ExtractMultiplyRejects | src/peephole_tests.rs:417-447 | a clear loop, a loop without the decrement, and a loop with a write are not extracted |
| Multiply.ExtractMultiplyRejectsMovement | src/peephole_tests.rs:411-415 | a loop with net movement is not extracted |
| PureCode.RemovePureCode | src/peephole.rs:239-258 | the result is a prefix of the input that is empty or ends in a side effect, and nothing after it is a side effect |
| PureCode.RemovePureCodeUnique | src/optimize.rs:407-427 | that prefix is the only one with these properties |
| PureCode.RemovePureCodeOfPure | src/peephole.rs:239-258 | a program without side effects becomes empty |
| PureCode.RemovePureCodeIdempotent | src/peephole.rs:239-258 | running the pass twice gives the same result as once |
| PureCode.RemovePureCodeShrinks | src/peephole.rs:239-258 | the pass never increases the instruction count |
| PureCode.RemovePureCodeExample | src/optimize_tests.rs:279-288 | the trailing increment of `Set 1, Write, +` goes |
| Peephole.Optimize | src/peephole.rs:12-24 | a result, when the fuel suffices, is a fixed point of `optimize_once`, and a program that is already one is returned as it is |
| Peephole.FixFromRounds | src/peephole.rs:17-23 | the loop returns the program after the first round that changes nothing, counting rounds as iterates of the round function, exactly when the fuel reaches that round, and gives up otherwise |
| Peephole.FixFromUnsettled | src/peephole.rs:17-23 | when no round within the fuel settles, the loop gives up |
| Peephole.OptimizeRounds | src/peephole.rs:12-24 | `optimize` is the first iterate of `optimize_once` that it leaves unchanged, when the fuel reaches it |
| Peephole.OptimizeIdempotent | src/peephole_tests.rs:318-325 | optimising an optimised program returns it unchanged |
| Peephole.OptimizeMoreFuel | src/peephole.rs:12-24 | more fuel does not change a result already reached |
| Peephole.OptimizeOfPure | src/peephole_tests.rs:310-316 | a program without side effects optimises to the empty program |
| Peephole.OptimizeKeepsWrite | src/peephole_tests.rs:283-290 | `[Write]` optimises to itself: the leading `Set(0)` is cleaned up |
| LegacyOptimize.LegacyOptimizeOfPure | src/optimize_tests.rs:290-296 | the single-pass optimiser also maps a program without side effects to the empty program |
| LegacyOptimize.LegacyOptimizeGrowsWrite | src/optimize.rs:9-14 | as written, the single-pass optimiser turns `[Write]` into `[Set(0), Write]` and increases the instruction count |
| LegacyOptimize.CorrectedOptimizeKeepsWrite | src/optimize_tests.rs:264-267 | with the fixpoint optimiser's `remove_redundant_sets`, `[Write]` stays `[Write]` |
| Execution.Exec | src/execution.rs:59-106 | one non-loop step keeps the pointer on a cell and the cell count, only appends outputs, and advances unless it stops; a step that stops reports a runtime value or a runtime error and does not advance; a runtime error leaves the pointer and outputs as they were |
| Execution.Multiply | src/execution.rs:76-98 | a multiply leaves the outputs alone; on success it zeroes the current cell and advances; on failure it reports a runtime error without moving the pointer |
| Execution.MultiplyMoveStep | src/execution.rs:76-98 | with every destination inside the cells, each destination gains the current value times its factor, wrapped, and then the current cell is zeroed |
| Execution.MultiplyMoveFails | src/execution.rs:80-88 | a destination outside the cells gives a runtime error |
| Execution.Run | src/execution.rs:51-140 | a run keeps the cell count, only appends outputs, never leaves `instr_ptr` past the end, and a completed run has between 1 and `steps` steps left |
| Execution.RunStopsAtReadOrBadMove | src/execution.rs:67-75 | a `Read`, or a pointer move leaving the cells, stops with the state unchanged |
| Execution.LoopFailureRestores | src/execution.rs:107-128 | a loop iteration that does not complete returns the state before the loop, with the iteration's outcome |
| Execution.LoopUnfold | src/execution.rs:112-123 | a completed iteration keeps its cells, outputs and pointer, and the loop goes on with the steps the iteration left, less one |
| Execution.RunMoreSteps | src/execution.rs:51-140 | giving a completed run more steps does not change its final state, and it has that many more left |
| Execution.EmptyLoopSpins | src/execution.rs:360-368 | `[]` entered on a non-zero cell runs out of steps without changing the state |
| Execution.Execute | src/execution.rs:43-49 | `execute` starts from `highest_cell_index + 1` zero cells, and its `instr_ptr` and `cell_ptr` end within bounds |
| Execution.InitialState | src/execution.rs:43-49 | the starting state: pointers at 0, no outputs, and `highest_cell_index + 1` zero cells |
| Execution.SortedKeys | src/execution.rs:80 | the multiply's destinations are visited in ascending order, each once |
| Execution.StepLimitExample | src/execution.rs:301-309 | `++++` with 2 steps stops at `instr_ptr` 2 with cell 2 |
| Execution.DecrementWrapExample | src/execution.rs:254-262 | `-` on a zero cell gives 255 |
| Execution.IncrementWrapExample | src/execution.rs:266-274 | `+` on 255 gives 0 |
| Execution.ReadStopsExample | src/execution.rs:144-152 | `,.` stops at the read without output |
| Execution.MoveLeftStopsExample | src/execution.rs:290-298 | `<` from cell 0 is a runtime error |
| Execution.WriteExample | src/execution.rs:312-320 | `+.` outputs 1 |
| Bounds.AddLaws | src/bounds.rs:52-61 | saturating addition is commutative and associative, has 0 as identity, and absorbs into `Max` |
| Bounds.LeTotalOrder | src/bounds.rs:63-78 | the order is a total order with `Max` on top, and numbers compare by value |
| Bounds.AddMonotone | src/bounds.rs:52-78 | adding the same value on the left keeps the order |
| Bounds.OverallMovementBounds | src/bounds.rs:82-94 | the highest index is at least 0 and at least the final position |
| Bounds.OverallMovementCoversPrefixes | src/bounds.rs:82-94 | the highest index of every prefix, and the position after it, are at most the highest index of the whole |
| Bounds.OverallMovementLoopFree | src/bounds.rs:82-116 | for a loop-free program, the highest index is the largest cell the program touches, and the final position is the sum of its moves |
| Bounds.WalkShift | src/bounds.rs:82-94 | walking from position `net` with highest index `high` gives the larger of `high` and `net` plus the program's own reach, and ends at `net` plus its own net movement |
| Bounds.LoopMovement | src/bounds.rs:129-152 | the loop rule is sound: for every number `k` of iterations, the `k` copies of the body reach no further right, and end no further right, than the loop's `movement`; a body with net movement `n` ends `k * n` away after `k` iterations, so a positive `n` has no bound; with `n <= 0` every `k >= 1` reaches exactly the body's own highest index |
| Bounds.MovementCoversNet | src/bounds.rs:98-155 | one instruction reaches at least as far as it moves, unless it does not move |
| Bounds.HighestAffected | src/bounds.rs:117-128 | a multiply reaches the largest key of its changes, or 0 when none is positive |
| Bounds.HighestCellIndex | src/bounds.rs:28-42 | the result never exceeds 99999 |
| Bounds.UnboundedMovementExamples | src/bounds.rs:250-256 | `[>]` reaches the maximum, and `>[<]` reaches 1 |
| Bounds.MovementExamples | src/bounds.rs:259-317 | an excessive move is clamped to 99999, and increments and sets count at their offsets; the combined moves of `>><>>` reach 3 |
| Bounds.MultiplyMoveExamples | src/bounds.rs:188-247 | the multiply tests: keys relative to the pointer, and keys to the left |
| RunLength.ExpandEncode | src/llvm.rs:132-143 | expanding the encoding gives the input back |
| RunLength.EncodeMaximal | src/llvm.rs:134-142 | every count is at least 1, neighbouring runs have different values, and the counts add up to the input length |
| RunLength.EncodeExpand | src/llvm.rs:132-143 | encoding the expansion of maximal runs gives the runs back |
| RunLength.EncodeExample | src/llvm.rs:130-131 | `[1, 1, 0, 0, 0]` encodes as `[(1, 2), (0, 3)]` |
| RunLength.PlanContiguous | src/llvm.rs:162-180 | the memset offsets start at 0 and are prefix sums of the counts, ending at the input length |
| RunLength.PlanTiles | src/llvm.rs:162-180 | every memset writes its own value over cells that hold that value in the initial cells |
| RunLength.CellsInit | src/llvm.rs:162-180 | the loop over the runs computes the memset plan |
| RunLength.CellsInitExample | src/llvm_tests.rs:107-137 | `[1, 1, 2, 0, 0, 0]` gives memsets at offsets 0, 2 and 3 |
| Diagnostics.PositionMeaning | src/diagnostics.rs:37-49 | a position exists exactly for indices up to the text's length; its line is a line of the text, its column is at most that line's length, the line start plus the column is the index, and every earlier line ends before the index |
| Diagnostics.FirstLine | src/diagnostics.rs:39-43 | an index within the first line is its own column on line 0 |
| Diagnostics.NewlineEndsLine | src/diagnostics.rs:39-43 | a newline's index is the end of the line it closes |
| Diagnostics.PositionExample | src/diagnostics.rs:37-49 | positions in `ab\ncd`, and none past its end |
| Text.JoinSplit | src/diagnostics.rs:38 | joining the pieces of a split gives the text back, and no piece holds the separator |
| FileNames.ReplaceExtensionMeaning | src/main.rs:47-57 | a name without a dot gets a dot and the extension; otherwise everything up to its last dot is kept and the rest replaced |
| FileNames.ObjFileName | src/main.rs:47-57 | `obj_file_name` appends `.o` to a dot-free name and otherwise replaces what follows the last dot by `o` |
| FileNames.LlFileName | rust_src/src/main.rs:25-35 | `ll_file_name` does the same with `ll` |
| FileNames.EndsWithExtension | src/main.rs:48-56 | the result always ends with a dot and the extension |
| FileNames.ReplaceTwice | rust_src/src/main.rs:26-34 | replacing the extension twice equals replacing it once with the second extension |
| FileNames.FileNameExamples | src/main.rs:45-57 | `foo.bf` gives `foo.o` and `foo.ll`, `foo` gives `foo.o`, and `a.b.bf` gives `a.b.o` |

## Left out

- LLVM code generation, the rest of src/llvm.rs, the `compile` methods of the C++ classes, and the CLI, file and process I/O are not modelled. They call foreign APIs or the operating system.
- The ANSI rendering of diagnostics and the Debug-based pretty printer are not modelled. Their output comes from formatting crates.
- The Java interpreters and the C `eval_program` are not modelled. They are entangled with console I/O; src/execution.rs is the semantics modelled instead.
- Source positions in instructions are dropped. Parse errors keep their index, counted in characters.
- Soundness of the passes against the interpreter is not proved. No lemma relates a pass to `Execution.Run`.
- The `sort_by_offset` tests are not modelled. They target a function absent from the modelled peephole passes.
- Peephole.Optimize: the source's loop has no bound, so the model takes `fuel` rounds and answers `None` when they run out. Every property is stated for the case in which a result is reached.
- Peephole.Optimize: the quickcheck property that `optimize` never increases `count_instrs` (src/peephole_tests.rs:356-362) is not proved. `annotate_known_zero` adds a `Set(0)` at the front and after every loop, and only later passes of the same round remove them, so no single pass shrinks the program; a proof would need a measure over the whole round. `LegacyOptimize.LegacyOptimizeGrowsWrite` shows the property fails for the single-pass optimiser.
- Execution.Exec: `MultiplyMove` visits its destinations in ascending order of offset, because the source iterates a `HashMap`, whose order is unspecified. Only the error-free result is order-independent.
- Execution.Exec: `Increment` and `Set` act `offset` cells from the pointer. The interpreter's own revision has no offsets, so it agrees at offset 0; a target outside the cells is a runtime error there.
- Execution.Run: the `u64` step count and the `isize` and `usize` pointers are unbounded integers.
- Accumulate.CoalesceIncrements: the C++ sums are 32-bit `int` (src/optimisations.cpp:20-22, which leaves wrap-around as a TODO); the model sums unbounded integers, so the signed overflow of more than 2^31 increments, undefined behaviour in C++, is not modelled.
- Accumulate.CombineHeldMatchesCombine: the toy Rust revision sums `i32` amounts (rust_src/src/optimize.rs:14, 17); the model sums unbounded integers, so the overflow of more than 2^31 increments, a panic or a wrap depending on the build, is not modelled.
- Sets.LegacyCombineSetsLeavesNoSetInc: the instruction type of src/optimize.rs is not part of this model, so its sums, in `combine_increments` and in `Set` plus `Increment`, are unbounded here; whatever width that revision's amounts have, their overflow is not modelled.
- Bounds.HighestCellIndex: the `i64` arithmetic of the analysis is unbounded. Its overflow on very large moves is not modelled.
- Diagnostics.PositionMeaning: positions count characters, not UTF-8 bytes. The two agree on ASCII text.
- Ir.Wrap: cells of the `Wrapping<i8>` revisions are integers wrapped into `[-128, 128)` explicitly rather than a bit-vector type.
- The passes that recurse into loops are modelled once over the shared instruction type. They do not mirror each revision's `Vec` plumbing.
- src/peephole.rs matches offset-free instruction patterns, while src/bfir.rs and the peephole tests carry offsets. The model's passes follow the tests: increments and sets combine only at equal offsets, and `combine_before_read` only drops writes to the current cell.
- BracketParser.ParseSource: indices count characters, as in `BracketParser.FindMatchingClose`, while the C++ parsers index a `std::string` byte by byte and report that byte index. The two agree on ASCII text; on other text the reported position differs. The Rust parser counts characters (`chars().enumerate()`), so `StackParser.Parse` is exact.
- CFindClose.FindClose: the C function indexes a `char*` byte by byte and returns that byte index as an `int`; the model counts characters. The two agree on ASCII text.
- CFindClose.FindClose: when no `]` matches, the C function falls off its end without returning a value, which is undefined behaviour. The model answers `None` there.
- The multiple-cells, inner-loop and read cases of the `extract_multiply` tests are not restated as examples. `Multiply.ExtractMultiplyMeaning` covers them for every loop.

## Findings

| source | as written | input that shows it | evidently intended | confidence | as-written member | corrected member |
|---|---|---|---|---|---|---|
| src/bfir.cpp:18-28, 51-54 | instruction equality compares only the dynamic kind, except for increments; sequence equality compares only sizes | `DataIncrement(1)` against `DataIncrement(2)`, loops with different bodies, or `[DataIncrement(1)]` against `[DataIncrement(2)]`: all compare equal | structural equality, as src/run_tests.cpp:32-86 expects | high, not executed | CppEquality.WrittenEqualityTooCoarse | CppEquality.CorrectedEqualityMeetsTests |
| src/optimize.rs:9-14, 324-340 | the single-pass `optimize` never removes the `Set(0)` that `annotate_known_zero` puts at the front | `[Write]` becomes `[Set(0), Write]` | the input unchanged, as src/optimize_tests.rs:264-267 expects; and never more instructions, as src/optimize_tests.rs:318-323 expects | high, not executed | LegacyOptimize.LegacyOptimizeGrowsWrite | LegacyOptimize.CorrectedOptimizeKeepsWrite |

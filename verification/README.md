# Phasor engine core: a Dafny model

Phasor's `modules/common` is an allocation-free JavaScript engine core: everything it does happens in
storage its caller lends it, with explicit limits and no host stack. This project models the parts of it
that carry the hardest promises and proves those promises for all inputs, all runs and all reachable states.

* **Bytecode** (`Bytecode`, `Opcodes`, `Encoding`, `Builder`, `CodeBuilder`, `BuiltCode`, `Verifier*`): the instruction encoding and
  its builder with forward patches; the two-pass verifier, proved to accept exactly a declarative condition;
  and what acceptance buys every run of a machine of program counter and context depth, throws included.
* **Heap** (`HeapModel`, `HeapMarking`, `HeapCompaction`, `Heap`, `Tracing`, `CellLayouts`): the handle table, the bump
  arena, incremental marking with a worklist that may overflow, sliding compaction, and the chunked tracers.
  The heap is proved for every function from cells to references; `Tracing.References` is the engine's, and
  `CellLayouts` writes the cells field by field and proves that each reference written is one it finds.
* **Soft float** (`FloatGrid`, `Assemble`, `Soft*`): binary64 arithmetic from integer operations against one
  definition over the real numbers of the nearest value with ties to even (section 4.3.1 of IEEE 754-2019).
* **Regular expressions** (`Regexp*`): the byte-code compiler and the backtracking matcher, tied together by
  runs whose splits are decided in advance by a sequence of choices; priority is the lexicographic order of
  those sequences. What matches at all is also said without instructions or choices: the ways of a tree
  through the input, and for trees without assertions and backreferences the words of a language.
* **Shortest digits** (`DecimalPowers`, `DecimalInteger`, `Shortest*`): exact digit generation for doubles, shortest
  and closest.
* **BigInt** (`Limbs`, `Big*`): signed integers in a fixed number of 32-bit limbs.
* **Objects** (`Records`, `Properties`, `Objects`, `OwnKeys`): property records in bytes, flat property tables as insertion-ordered maps, and
  prototype chains.
* **Modules** (`LinkGraph`, `Registry`, `Linker`): the registry and the iterative depth-first linker.

Machine words are bounded integers (`Words`); a value that would overflow its type is a verification error,
and where the source wraps or truncates, the model writes that out. Shifts and masks appear as division and
remainder by powers of two. A value the source updates in place through a reference is a class field, an
array, or an in-and-out parameter of a method.

Where the code and its comments differ, the model follows the code: a failed link can leave a finished dependency
linked (modules/common/link.rs:106-107 says otherwise; `Linker.Link` says exactly when), a handle of generation
2^32-1 can come back (modules/common/heap.rs:394-396), own keys list all names before all symbols
(modules/common/object.rs:884-886 suggests one common order), and the words of a reaction list are read as a
handle in objects that are no promises too (modules/common/gc.rs:98 speaks of promises; a function's module
number then keeps a cell alive that nothing refers to).

## Model

| member | source | states |
|---|---|---|
| `Bytecode.DecodeAt` | modules/common/bytecode.rs:935-1006 | the cursor-and-loops decoder answers exactly the declarative `Decode`: width prefix, opcode, operands with sign extension, and every truncated or unassigned case |
| `Opcodes.RangesAreTable` | modules/common/bytecode.rs:495-876 | the byte ranges the decoder, the builder and the verifier test are the instruction set: which bytes are opcodes, their operands, which branch and which end |
| `Encoding.DecodesItem` | modules/common/bytecode.rs:935-1014 | decoding the bytes of an encoded instruction gives back its opcode, its operands as read at that width, and its length |
| `Encoding.WidthFor` | modules/common/bytecode.rs:1017-1050 | at the width chosen every operand that 32 bits hold reads back from its bytes as it was given; at every narrower width some operand does not; no other width has both |
| `Encoding.WidthNeededIs` | modules/common/bytecode.rs:1017-1050 | the ranges the encoder tests are exactly the operands whose bytes at that width read back as given |
| `CodeBuilders.CodeBuilder.Emit` | modules/common/emit.rs:118-144 | appends exactly one item with the operands given, at a width below which some operand would not read back; fails exactly when an error stands already, the operand count is wrong, or the bytes do not fit |
| `CodeBuilders.CodeBuilder.NewLabel` | modules/common/emit.rs:155-168 | a new unbound label, distinct from every other, refused exactly when no label is left |
| `CodeBuilders.CodeBuilder.Bind` | modules/common/emit.rs:178-185 | binds a label to the end of the code exactly when it exists and is unbound, keeping every waiting and every resolved branch as it was |
| `CodeBuilders.CodeBuilder.MarkSafePoint` | modules/common/emit.rs:189-211 | appends the current position to the safe points unless it is the last of them; the earlier ones stay, distinct and ascending, and it is refused exactly when there is no room |
| `CodeBuilders.CodeBuilder.Jump` | modules/common/emit.rs:214-260 | appends one branch: to a bound label with its displacement, to an unbound one as a wide jump that waits; fails exactly when the opcode is no branch, the label does not exist, or code or patches are full; the builder stays valid for every label that was handed out |
| `CodeBuilders.CodeBuilder.Finish` | modules/common/emit.rs:263-290 | succeeds exactly when every waiting branch has a bound label within sixteen bits, and otherwise names the first trouble; on success every displacement is filled in and the code is that of the items emitted |
| `CodeBuilders.DecodesToWhatWasWritten` | modules/common/emit.rs:118-290 | linear decoding of finished code gives back exactly the instructions emitted, in order, and each operand if and only if 32 bits hold it |
| `CodeBuilders.BranchesReachTheirLabels` | modules/common/emit.rs:214-290 | every branch of finished code, patched or not, decodes to the position its label was bound to, where an instruction starts, if and only if the way there fits 32 signed bits, as it does in code below 2^31 bytes |
| `BuiltCode.BoundariesAreItems` | modules/common/emit.rs:118-290 | the places the sweep of finished code reaches are exactly the starts of the instructions emitted |
| `BuiltCode.TargetsAreLabels` | modules/common/emit.rs:214-290 | in finished code below 2^31 bytes the target of a branch is the position its label was bound to |
| `VerifierSweeps.PassOne` | modules/common/verify.rs:128-225 | accepts exactly the code that is one sweep of admitted instructions ending in a terminator, and marks exactly the instruction starts |
| `VerifierSweeps.CheckSafePoints` | modules/common/verify.rs:227-246 | accepts exactly the ascending safe points that are instruction starts |
| `VerifierSweeps.CheckRegions` | modules/common/verify.rs:248-304 | the stack of open regions accepts exactly the tables that are ordered, laminar, on instruction starts and nested no deeper than admitted |
| `VerifierFlow.PassTwo` | modules/common/verify.rs:306-452 | when the sweep ends, the table holds one consistent context depth for every instruction and control reaches each; when it stops, no assignment is consistent or some instruction is not reached |
| `VerifierFlow.VerifyFunction` | modules/common/verify.rs:114-453 | accepts a function exactly when `Accepts` holds: sound operands, safe points, regions and one consistent context depth per instruction |
| `VerifierSafety.AdmittedRunsAreSafe` | modules/common/verify.rs:128-225 | in every run of the machine from (0, 0) over admitted code, the program counter is at an instruction whose registers, constants, depths and argument runs lie in their tables and whose opcode is admitted, the depth is the recorded one within the declared bound, and a return is at depth zero |
| `VerifierSafety.AdmittedExactlyInBounds` | modules/common/verify.rs:146-219 | an instruction is admitted exactly when every register, constant and depth operand is within its count, and the register run of a call ends inside the frame: no instruction within bounds is refused |
| `VerifierSafety.RegionsAdmittedExactly` | modules/common/verify.rs:248-304 | a table of regions is admitted exactly when each runs from one instruction to a later one under an admitted depth, starts never go back, any two are nested or apart, and no more than 32 are ever open |
| `VerifierSafety.DepthCounts` | modules/common/verify.rs:381-406 | along any run the context depth is the pushes passed less the pops passed |
| `VerifierSafety.SafePointsAreSlice` | modules/common/verify.rs:227-246 | the safe points of a function are its slice of the table |
| `VerifierSafety.RegionsAreSlice` | modules/common/verify.rs:248-304 | and so are its handler regions |
| `VerifierSafety.StepsAre` | modules/common/verify.rs:306-452 | one step of the machine in plain numbers: which opcodes end the run, jump, may jump or fall through, and which enter or leave a context |
| `VerifierSafety.SafeMachinesMove` | modules/common/verify.rs:306-452 | a safe machine that neither returns nor throws always has a next step, so control never falls off the end |
| `VerifierSafety.EveryInstructionRuns` | modules/common/verify.rs:306-452 | when every forward handler is the one some earlier throw finds, a run reaches every instruction; nested regions may share a start |
| `VerifierSafety.LiveIsRunning` | modules/common/verify.rs:306-452 | the places that falling through, branching and catching lead to are exactly those some run with throws reaches |
| `VerifierSafety.NoDeadCodeExactlyWhenHandlersLive` | modules/common/verify.rs:306-452 | an admitted function has no dead code if and only if every handler after the start of its region is live |
| `VerifierSafety.DeadHandlerIsAdmitted` | modules/common/verify.rs:248-304 | four bytes under two regions of one start: admitted, and no run reaches the first handler |
| `VerifierSafety.BoundedBetweenSafePoints` | modules/common/verify.rs:408-444 | between safe points the program counter strictly grows, so a stretch without one is shorter than the number of instructions left |
| `VerifierSafety.InnermostIsLast` | modules/common/verify.rs:248-304 | among the regions covering a position the last in table order lies inside all the others |
| `VerifierSafety.GuardedThrowingRunsAreSafe` | modules/common/verify.rs:253-300 | runs with throws are safe too, when handlers lie in the code and protected code never drops below its region's depth |
| `VerifierSafety.ThrowingRunsSafeExactlyWhenGuarded` | modules/common/verify.rs:253-300 | for every admitted function, throwing runs are safe if and only if wherever control can be, a throw finds a handler inside the code and a depth not below its region's |
| `VerifierSafety.UsedHandlersNeedTheWholeGuard` | modules/common/verify.rs:253-300 | when every forward handler is used, throwing runs are safe if and only if the guard holds at every instruction |
| `VerifierSafety.HandlerOutsideIsAdmitted` | modules/common/verify.rs:261-266 | a handler past the end of the code is admitted: a concrete function whose throwing run leaves the code |
| `VerifierSafety.ArgumentRunsInFrame` | modules/common/verify.rs:180-198 | for each call that passes registers, admission keeps every argument run inside the frame if and only if the frame is empty, or the call is one of the four checked ones and the frame is not that of 2^32-1 registers |
| `VerifierSafety.SuperCallRunIsUnchecked` | modules/common/verify.rs:180-198 | the bytes of `CallSuper r0, 5` and a return are admitted in a frame of one register, and the argument run leaves it |
| `VerifierSafety.HandlerFor` | modules/common/vm.rs:1408-1430 | the machine's own search over a laminar table finds the last covering region, and finds none exactly when none covers |
| `Heaps.Heap.TakeSlot` | modules/common/heap.rs:319-338 | returns the lowest free slot, and fails exactly when no slot is free |
| `Heaps.Heap.Allocate` | modules/common/heap.rs:278-317 | succeeds exactly when the aligned cell fits and a slot is free; it takes the lowest free slot under its generation, the new cell is zeroed and fresh, every other cell keeps its bytes, and the heap stays valid exactly when no cell in the arena names the slot taken |
| `HeapModel.OwnedGrows` | modules/common/heap.rs:278-338 | cells and handle table still agree after an allocation if and only if no cell of the arena named the slot: reuse of a retired slot must wait for a collection |
| `Heaps.Heap.CellOf` | modules/common/heap.rs:367-372 | in every phase a current handle gives its cell's bytes, and exactly the others are stale |
| `Heaps.Heap.Retire` | modules/common/heap.rs:384-400 | succeeds exactly when the generation matches; that slot alone is freed under the next generation, and an idle heap stays valid exactly when the handle named a cell or nothing was live |
| `HeapModel.StaleForGoodExactlyBelowTheLast` | modules/common/heap.rs:394-397 | over every history of the handle table that allocation, retirement and collection keep to, a handle that stopped naming a cell never names one again if and only if its generation is not 2^32-1 |
| `Heaps.SaturatedHandleIsReused` | modules/common/heap.rs:384-400 | a slot in generation 2^32-1, retired and allocated again, comes back under the very handle that was retired |
| `Heaps.Heap.FreeBytes` | modules/common/heap.rs:265-267 | what is free is the arena without the part in use, and never less than nothing in an arena whose length is a multiple of eight |
| `Heaps.UnalignedArenaOverflows` | modules/common/heap.rs:265-267 | in any other arena of eight bytes or more, twelve for one, a cell that fills it survives a collection and more is in use than there is |
| `Heaps.Heap.Shade` | modules/common/heap.rs:441-460 | greys a white cell named by a current handle and nothing else, whether or not the worklist has room |
| `Heaps.Heap.NextGrey` | modules/common/heap.rs:463-488 | a grey cell turned black, or proof that no cell is grey even if the worklist overflowed |
| `HeapMarking.TraceKeeps` | modules/common/heap.rs:441-488 | visiting a grey cell keeps the marking invariant: no black cell has a white child, and only reachable cells are shaded |
| `HeapMarking.MarkingComplete` | modules/common/heap.rs:441-498 | when no cell is grey, the black cells are exactly the reachable ones |
| `Heaps.Heap.BeginCollection` | modules/common/heap.rs:420-435 | refused exactly while collecting; otherwise the table is the old one with every mark white and then the roots shaded, and the starting heap is remembered |
| `Heaps.Heap.BeginCompaction` | modules/common/heap.rs:491-498 | moves to compaction with complete marks, read and write positions at the start |
| `HeapCompaction.CompactStepKeeps` | modules/common/heap.rs:504-583 | one cell read, moved down or dropped keeps the compaction invariant: survivors copied in order below the read position, everything above untouched |
| `HeapCompaction.BlackReadsTheSame` | modules/common/heap.rs:504-583 | at every point of a compaction a black cell still reads its original bytes under its handle, moved or not |
| `HeapCompaction.PackedLayout` | modules/common/heap.rs:504-583 | the cells moved so far are packed, aligned and disjoint, in their old order |
| `Heaps.Heap.CompactStep` | modules/common/heap.rs:504-583 | progress or finish within the budget; when finished the heap is idle, `live`, `used` and the reclaimed counters balance with what there was |
| `Heaps.Heap.CollectSlice` | modules/common/gc.rs:21-44 | keeps the invariant of its phase at every slice boundary and decreases (unvisited cells, unread bytes) for every positive budget; a budget of zero changes nothing while marking |
| `Heaps.Heap.Collect` | modules/common/gc.rs:47-53 | terminates for every positive budget; every reachable handle names a cell of the same kind and bytes, every unreachable slot is free under its next generation, survivors are packed in their old order, and cells and bytes are conserved |
| `Tracing.TraceRecords` | modules/common/gc.rs:107-287 | reading a property table, environment or reaction list in chunks of 32 hands on every reference, in order, dropping none where a chunk fills up and none past the records the cell holds |
| `Tracing.TraceObject` | modules/common/gc.rs:70-105 | an object cell hands on the five fields the collector reads in it; `CellLayouts.NothingElseExactly` says what they hold |
| `Tracing.ShortFormKeeps` | modules/common/value.rs:289-319 | a setter written in the short form is found again if and only if its generation fits sixteen bits |
| `CellLayouts.CreateScope` | modules/common/env.rs:111-130 | a fresh environment: its parent, its capacity, no bindings |
| `CellLayouts.SetThis` | modules/common/env.rs:207-216 | the receiver alone is changed |
| `CellLayouts.Declare` | modules/common/env.rs:235-257 | one more binding without a value, refused exactly when there is no room |
| `CellLayouts.Initialise` | modules/common/env.rs:274-288 | the value of that binding alone is changed; refused exactly past the end of the cell |
| `CellLayouts.Remove` | modules/common/env.rs:375-394 | the name and the value of that binding alone are taken away, refused exactly when there is no such binding |
| `CellLayouts.EnvironmentReferences` | modules/common/env.rs:75-105 | the collector finds in an environment its parent, the values a call brought with it, and every name and value in its bindings, and nothing else |
| `CellLayouts.AddReaction` | modules/common/promise.rs:279-297 | one more reaction after those of the list, which stay |
| `CellLayouts.ReactionsReferences` | modules/common/promise.rs:20-33 | the collector finds in a reaction list both handlers and the promise of each reaction, and nothing else |
| `Assembling.DecomposeValue` | modules/common/softfloat.rs:38-77 | a finite double is its significand at its exponent |
| `Assembling.RoundsNearest` | modules/common/softfloat.rs:106-136 | a round bit and a sticky flag choose the nearest value of the format, ties to even, subnormals and overflow included |
| `Assembling.Assemble` | modules/common/softfloat.rs:83-137 | the bits are those of the double nearest the exact value, whenever discarded bits leave at least 54 significant ones |
| `FloatGrid.NearestUnique` | modules/common/softfloat.rs:83-137 | rounding to nearest even has one answer, so these contracts determine every result bit |
| `SoftAddition.AddFinite` | modules/common/softfloat.rs:176-237 | exact alignment with a guard, a round and a sticky position; the carry, borrow and sign recovery branches are unreachable |
| `SoftAddition.AddBits` | modules/common/softfloat.rs:149-238 | the sum of any two finite doubles is correctly rounded, an exact zero is negative only when both operands are, and NaNs and infinities follow section 6.1.6.1 of ECMA-262 |
| `SoftAddition.SubBits` | modules/common/softfloat.rs:145-147 | the difference of any two doubles: correctly rounded when both are finite, with every case of infinities and NaN |
| `SoftMultiplication.WideMultiply` | modules/common/softfloat.rs:269-285 | two words hold the exact product of any two words, wrap-around and carries included |
| `SoftMultiplication.Fold` | modules/common/softfloat.rs:288-310 | a double word is rounded once to the nearest double, whichever half the window falls in |
| `SoftMultiplication.MulBits` | modules/common/softfloat.rs:245-266 | the product of any two finite doubles is correctly rounded, with the sign of the product even at zero |
| `SoftMultiplication.Normalise` | modules/common/softfloat.rs:370-381 | the value is unchanged and the hidden bit set |
| `SoftMultiplication.LongDivide` | modules/common/softfloat.rs:344-361 | 55 quotient bits and a remainder that account for the dividend exactly, at least 54 of them significant |
| `SoftMultiplication.DivBits` | modules/common/softfloat.rs:317-366 | the quotient of a finite double by a finite non-zero one is correctly rounded; zeros, infinities and NaNs as the specification says |
| `SoftRemainder.Reduce` | modules/common/softfloat.rs:442-460 | shift and subtract gives `value % divisor` |
| `SoftRemainder.LiftAndReduce` | modules/common/softfloat.rs:408-434 | lifting into the leading zeros and reducing gives the remainder of the significand scaled by any power of two, and ends |
| `SoftRemainder.RemBits` | modules/common/softfloat.rs:389-436 | the remainder of finite operands is the exact truncated remainder, never rounded, with the sign of the dividend |
| `SoftRemainder.CompareOrders` | modules/common/softfloat.rs:463-494 | comparison is the order of the values, infinities outermost, both zeros equal, unordered exactly for a NaN |
| `SoftConversion.RoundShiftBits` | modules/common/softfloat.rs:793-802 | the rounding shift is a round bit and a sticky flag |
| `SoftConversion.NarrowingRounds` | modules/common/softfloat.rs:759-790 | narrowing any finite double gives the nearest single, ties to even, through the subnormal range and into infinity |
| `SoftConversion.FromF32Bits` | modules/common/softfloat.rs:805-830 | widening a single is exact |
| `SoftConversion.NarrowingUndoesWidening` | modules/common/softfloat.rs:759-830 | narrowing undoes widening for every single, except that a signalling NaN becomes quiet |
| `SoftConversion.FromI64` | modules/common/softfloat.rs:506-520 | the nearest double to any signed 64-bit integer |
| `SoftConversion.ToI64Truncates` | modules/common/softfloat.rs:538-578 | conversion truncates towards zero and saturates at the ends of the range; infinities are the ends, a NaN is zero |
| `PatternMatcher.ScanClass` | modules/common/regexp.rs:1488-1520 | the loop over the ranges decides membership in the class, case folding included |
| `PatternMatcher.Execute` | modules/common/regexp.rs:1396-1621 | each instruction that does not branch has its declared effect on position and captures; `PatternLanguages.InstructionIs` says what that is |
| `PatternLanguages.InstructionIs` | modules/common/regexp.rs:1396-1621 | what one instruction matches, in terms of the units it stands between: a literal its own unit, a class the units in or out of its ranges, a code point its UTF-16 form, an assertion its neighbours, a backreference the text its group captured, or nothing while that is unset |
| `PatternLanguages.SpellsIs` | modules/common/regexp.rs:1419-1437 | reading a code point is the inverse of its UTF-16 form, and a half without its other half stands for itself |
| `PatternLanguages.FoldsAlike` | modules/common/regexp.rs:1313-1320 | two units fold alike exactly when they are one letter in either case |
| `PatternMatcher.Matcher.TakeSplit` | modules/common/regexp.rs:1521-1536 | the second branch is put aside with the captures it will resume with, one step of the reference search |
| `PatternMatcher.Matcher.TakeSave` | modules/common/regexp.rs:1541-1551 | a capture is recorded and every branch put aside can still be restored, one step of the reference search |
| `PatternMatcher.Matcher.Backtrack` | modules/common/regexp.rs:1655-1670 | unwinding the trail restores exactly the captures held when the choice was pushed, as the reference search that copies them does |
| `PatternSearch.Finds` | modules/common/regexp.rs:1392-1395 | the first match the search reaches is the first of all matches in split order |
| `PatternSearch.Exhausted` | modules/common/regexp.rs:1655-1660 | a dead end with nothing put aside proves that no sequence of choices matches |
| `PatternMatcher.Run` | modules/common/regexp.rs:1369-1672 | an answer is the first match in priority order with that path's captures; no answer, without having halted, means that no path matches or some path leaves the instruction set; it halts exactly when the reference search is unfinished after the fuel, or needs a choice, a trail entry or a slot that does not exist |
| `PatternMeaning.Fetches` | modules/common/regexp.rs:1697-1714 | an instruction decodes to what was encoded, wherever it lies |
| `PatternMeaning.EitherFollows` | modules/common/regexp.rs:454-493 | the code of an alternative has its matches in its order: the split tries the first branch first and the jump lands after the second |
| `PatternMeaning.StarFollows` | modules/common/regexp.rs:607-627 | the split, body and backward jump of `x*` follow the repetition for every sequence of choices |
| `PatternMeaning.LoopFollows` | modules/common/regexp.rs:628-641 | the split after the body of `x+` goes back or falls through as the repetition says |
| `PatternMeaning.ChainFollows` | modules/common/regexp.rs:690-720 | a chain of optional copies, each declined to the end, follows the bounded repetition |
| `PatternMeaning.RepeatFollows` | modules/common/regexp.rs:587-721 | every shape of quantifier, greedy or lazy, counted or not, follows one uniform meaning of repetition |
| `PatternMeaning.CodeFollows` | modules/common/regexp.rs:454-934 | the code of any tree is position-independent: placed anywhere it follows the tree, so copied bodies keep their meaning |
| `PatternTheorems.CompiledAccepts` | modules/common/regexp.rs:266-304 | compiling preserves meaning: under the same choices the program and the tree match alike, with the same captures |
| `PatternTheorems.CompiledNeverStops` | modules/common/regexp.rs:266-304 | a compiled program never leaves the instruction set |
| `PatternTheorems.CompiledSearch` | modules/common/regexp.rs:1369-1672 | the first match of the compiled program is the first match of the tree, and it has none exactly when the tree has none |
| `PatternLanguages.DecisionsTakeWays` | modules/common/regexp.rs:1369-1672 | some decisions lead through a tree from one place to another exactly when the tree has such a way: concatenation, union and iteration of what its instructions match, captures included |
| `PatternWords.DecisionsSpanWords` | modules/common/regexp.rs:1369-1672 | for trees of literals, classes, concatenation, alternatives, repetitions and groups, some decisions lead from p to q exactly when the input between is a word of the language of the tree |
| `PatternWords.MatchesAreWays` | modules/common/regexp.rs:1369-1672 | the compiled program matches with some captures exactly when the tree has a way with them |
| `PatternWords.AnswerIsWord` | modules/common/regexp.rs:1369-1672 | what `Run` promises of its answer, for compiled code: a match found starts where it was looked for and spans a word of the language; a search that ended with none shows that nothing from there on is a word |
| `PatternWords.MatchCaptures` | modules/common/regexp.rs:1369-1672 | the first two slots of a match are its start and its end, and a group is unset exactly when the way found never enters it |
| `PatternWords.EitherInOrder` | modules/common/regexp.rs:1521-1536 | the first match of an alternative is the first one of its left branch, and only if that has none the first one of its right |
| `PatternWords.GreedyTakesMost` | modules/common/regexp.rs:1521-1536 | a greedy repetition of a letter takes all there are |
| `PatternWords.LazyTakesLeast` | modules/common/regexp.rs:1521-1536 | a lazy repetition that may be empty takes nothing |
| `PatternTermination.RunsFed` | modules/common/regexp.rs:1369-1672 | when no unbounded repetition has a body that can match nothing, a run makes at most `Choices` decisions, whatever they are |
| `PatternTermination.SearchDecides` | modules/common/regexp.rs:1369-1672 | for such a tree some fuel and storage make every search of its code decide, and so does all that is more |
| `PatternWords.TerminatingExactly` | modules/common/regexp.rs:1369-1672 | for trees with a language, these are exactly the trees in which no body repeated without a bound has the empty word |
| `PatternTermination.IdleLoopNeverDecides` | modules/common/regexp.rs:1369-1672 | for `(?:a?)*` on the empty input no fuel and no storage is enough |
| `PatternCompiler.Compiler.Emit` | modules/common/regexp.rs:412-421 | appends a byte exactly when there is room |
| `PatternCompiler.Compiler.PatchI16` | modules/common/regexp.rs:433-439 | replaces two bytes and no others |
| `PatternCompiler.Compiler.CopyRangeFrom` | modules/common/regexp.rs:495-502 | appends a copy of the body exactly when it fits |
| `PatternCompiler.Compiler.EmitStar` | modules/common/regexp.rs:607-627 | the bytes written and patched are those of `x*`, exactly when they fit |
| `PatternCompiler.Compiler.EmitPlus` | modules/common/regexp.rs:628-641 | the bytes written and patched are those of `x+`, exactly when they fit |
| `PatternCompiler.Compiler.EmitChain` | modules/common/regexp.rs:690-720 | splits written with one end unknown and patched afterwards are those of the optional chain, exactly when they fit |
| `PatternCompiler.Compiler.Quantify` | modules/common/regexp.rs:587-721 | replaces the instructions from `start` by the code of the quantifier exactly when there are some, at most 2048 bytes of them, at most 64 turns are written out and the code fits; which error otherwise |
| `PatternCompiler.Compiler.OpenBranch` | modules/common/regexp.rs:458-489 | the first branch moved behind a split and a jump, both displacements of the split right, exactly when it is at most 2048 bytes and the eight more fit |
| `PatternCompiler.Compiler.CompileTree` | modules/common/regexp.rs:454-934 | succeeds exactly for a tree that is `Compilable`: no empty body quantified, nothing moved over 2048 bytes, copies within 64, groups within 31 and its peak within the buffer; the code appended is then that of the tree, groups numbered as they open |
| `PatternCompiler.PeakIsLength` | modules/common/regexp.rs:587-721 | generating code never needs more room than the code fills, unless a body is repeated zero times |
| `PatternCompiler.Compiler.Compile` | modules/common/regexp.rs:266-304 | succeeds exactly when the tree is compilable and its code, the match and the names fit; the buffer then holds exactly the compiled program |
| `FixedIntegers.ShiftLeft` | modules/common/dtoa.rs:55-91 | multiplies by a power of two, modulo what the limbs hold |
| `FixedIntegers.MultiplySmall` | modules/common/dtoa.rs:93-111 | multiplies by one limb, modulo what the limbs hold |
| `FixedIntegers.MultiplyPow10` | modules/common/dtoa.rs:114-129 | multiplies by a power of ten, nine places at a time, modulo what the limbs hold |
| `FixedIntegers.Compare` | modules/common/dtoa.rs:131-152 | the order of the values |
| `FixedIntegers.AddAssign` | modules/common/dtoa.rs:154-179 | adds, modulo what the limbs hold |
| `FixedIntegers.SubtractAssign` | modules/common/dtoa.rs:182-202 | subtracts a number that is not larger, exactly |
| `DecimalPowers.EstimateBrackets` | modules/common/dtoa.rs:386-393 | the fixed-point estimate is at most one away, for every exponent a double can have |
| `ShortestDecimals.IntervalReads` | modules/common/dtoa.rs:233-239 | a decimal reads back as the double, to nearest even, exactly when it lies in the interval the generator works with, closed exactly when the significand is even |
| `ShortestDigits.Setup` | modules/common/dtoa.rs:216-258 | the fraction of the value and its two half-gaps, in integers that fit |
| `ShortestDigits.ScaleBy` | modules/common/dtoa.rs:260-270 | the fraction is brought to the estimated decade without overflow |
| `ShortestDigits.FixExponent` | modules/common/dtoa.rs:272-291 | after the correction the first digit generated is the first significant one |
| `ShortestDecimals.NoneShorter` | modules/common/dtoa.rs:272-320 | while the interval is open after j digits, no decimal of j digits at any exponent lies in it |
| `ShortestDecimals.EnoughDigits` | modules/common/dtoa.rs:299-320 | the loop leaves through `low` or `high` within seventeen digits, so the limit of 24 is never reached |
| `ShortestDigits.Generate` | modules/common/dtoa.rs:293-334 | digits until the interval closes, the last one rounded to the closer admissible end, a tie to the even digit |
| `ShortestDigits.RoundUp` | modules/common/dtoa.rs:335-355 | adds one to the digits, a carry moving the exponent |
| `ClosestDecimals.ClosestOfAll` | modules/common/dtoa.rs:293-334 | of all decimals with at most the digits generated, at any exponent, none that lies in the interval is closer to the value than the one chosen |
| `ClosestDecimals.PowerIsCloser` | modules/common/dtoa.rs:272-291 | only twice the least subnormal shares its interval with the power of ten above it and a one-digit decimal below that, and there the power is closer |
| `ShortestDigits.Shortest` | modules/common/dtoa.rs:215-359 | for every finite non-zero double the digits read back as that double, no decimal with fewer digits does, none with as many that reads back is closer to it, the first digit is not zero, there are at most seventeen, and no working integer exceeds its forty limbs |
| `BigNumbers.IntUnique` | modules/common/bigint.rs:47-73 | trimmed numbers with the same value are the same number |
| `BigNumbers.Compare` | modules/common/bigint.rs:375-397 | the order of the integers |
| `BigNumbers.Add` | modules/common/bigint.rs:399-457 | the exact sum, refused exactly when it needs more limbs than there are |
| `BigNumbers.SubtractMagnitude` | modules/common/bigint.rs:415-433 | the exact difference, with no borrow left |
| `BigNumbers.NegateIsMinus` | modules/common/bigint.rs:459-465 | negation, zero keeping no sign |
| `BigNumbers.Subtract` | modules/common/bigint.rs:467-469 | the exact difference, refused exactly when it does not fit |
| `BigNumbers.StoredSumsFit` | modules/common/bigint.rs:23-25 | sums and differences of numbers short enough to be kept in a cell are never refused |
| `BigProducts.Multiply` | modules/common/bigint.rs:471-508 | the exact product, refused exactly when the lengths together exceed the working limbs; the inner overflow check never fires |
| `BigProducts.MultiplySmall` | modules/common/bigint.rs:297-311 | the exact product with one limb, zero included, refused exactly when it does not fit |
| `BigProducts.AddSmall` | modules/common/bigint.rs:313-326 | the exact sum with one limb, refused exactly when it does not fit |
| `BigDivision.DivideStep` | modules/common/bigint.rs:353-372 | two limbs by one in 32-bit words, the overflowing doubling included, exactly |
| `BigDivision.DivideSmall` | modules/common/bigint.rs:329-345 | exact division by one limb, quotient in place and remainder answered |
| `BigDivision.ShiftLeftOne` | modules/common/bigint.rs:568-581 | exact doubling, refused exactly when it does not fit |
| `BigDivision.DivideLong` | modules/common/bigint.rs:537-560 | bitwise long division is exact, and its shift never runs out of limbs |
| `BigDivision.Divide` | modules/common/bigint.rs:514-566 | exact truncating division on both paths: dividend = quotient * divisor + remainder, |remainder| < |divisor|, the remainder zero or with the dividend's sign; refused exactly for zero |
| `BigDivision.TruncatesUnique` | modules/common/bigint.rs:514-566 | those promises determine quotient and remainder |
| `BigDivision.ShiftLeft` | modules/common/bigint.rs:602-611 | multiplication by a power of two, refused exactly when it does not fit |
| `BigDivision.ShiftRight` | modules/common/bigint.rs:615-641 | floor division by a power of two for every count; the case of a negative value shifted to zero never arises |
| `BigBitwise.TwosComplementLimb` | modules/common/bigint.rs:749-757 | the limbs produced so far are those of the two's complement |
| `BigBitwise.Bitwise` | modules/common/bigint.rs:709-746 | every bit of the result is the operation on the bits of the operands' infinite two's-complement sequences, for every sign combination |
| `BigBitwise.BitsDetermine` | modules/common/bigint.rs:700-746 | an integer is determined by those bits |
| `BigBitwise.BitsAddUp` | modules/common/bigint.rs:700-746 | what two integers share and what either has add up to their sum, and so do what only one has and twice what they share |
| `BigTexts.WellformedIs` | modules/common/bigint.rs:208-229 | the numerals accepted are those written in the digits of their radix, of either case, and separators |
| `BigTexts.DigitIs` | modules/common/bigint.rs:208-222 | a digit is read from its character in either case and from no other |
| `BigTexts.Accumulator.Push` | modules/common/bigint.rs:208-228 | refuses exactly what the radix does not admit and what does not fit; otherwise value times radix plus digit |
| `BigTexts.FromDigits` | modules/common/bigint.rs:251-260 | accepts exactly the well-formed numerals that fit, and gives their value |
| `BigTexts.TextFromEnd.constructor` | modules/common/bigint.rs:658-676 | the count announced is the number of digits there will be |
| `BigTexts.TextFromEnd.NextChar` | modules/common/bigint.rs:684-695 | each call takes the last character off the text |
| `BigTexts.Render` | modules/common/bigint.rs:650-696 | filled from its end, the text has the announced length and is sign and digits |
| `BigTexts.WrittenDenotes` | modules/common/bigint.rs:183-260 | the digits written are a well-formed numeral of the number they were written from |
| `BigTexts.PrintAndRead` | modules/common/bigint.rs:183-696 | printing and reading back gives the same number, for every value and every radix from 2 to 36 |
| `PropertyTables.Find` | modules/common/object.rs:993-1018 | the guessed record agrees with the linear scan: the index of the key's only record, or none |
| `PropertyTables.Grow` | modules/common/object.rs:1088-1116 | a larger table with the same entries |
| `PropertyTables.Append` | modules/common/object.rs:1021-1049 | one more entry at the end, as its record gives it back, the table growing when full; keys stay distinct; refused exactly when it is full and no room is left |
| `PropertyTables.Remove` | modules/common/object.rs:869-880 | the entries without one, in the same order |
| `PropertyTables.LookupRemoved` | modules/common/object.rs:859-882 | as a map, exactly that key is gone |
| `PropertyRecords.RecordReads` | modules/common/object.rs:1118-1197 | reading the 32 bytes of a record gives back its key, and of the descriptor what the short setter field keeps |
| `PropertyRecords.StoredIff` | modules/common/object.rs:1118-1197 | a record gives back the descriptor written into it if and only if it is data, or an accessor without a setter or with one whose generation is below 2^16 |
| `PropertyRecords.RecordRefs` | modules/common/object.rs:1163-1197 | the collector finds in a record the references it reads as: of a setter of generation 2^16 or more, another handle |
| `PropertyTables.AdmittedIff` | modules/common/object.rs:1244-1274 | a redefinition of a property that is not configurable is admitted if and only if it keeps its flags, its kind, its accessors and, when frozen, its value up to the sign of a zero; but a frozen NaN admits none |
| `PropertyTables.RedefinesAsIs` | modules/common/object.rs:709-731 | defining a property again with the descriptor it was given is admitted if and only if it is configurable, or data that is writable or no NaN, or an accessor its record kept whole |
| `PropertyTables.CutSetterIsLost` | modules/common/object.rs:1188-1197 | an accessor whose setter is in generation 2^16 reads back with another handle, and defining it again is refused |
| `PropertyTables.FrozenZeroMayFlip` | modules/common/object.rs:1262-1267 | a frozen zero can be redefined with the other sign |
| `PropertyTables.FrozenKeptIff` | modules/common/object.rs:1262-1267 | redefinition keeps a frozen number bit for bit if and only if it is not a zero |
| `Objects.Store.Create` | modules/common/object.rs:157-167 | a new object keeps the prototype graph acyclic |
| `Objects.Store.SetPrototype` | modules/common/object.rs:648-678 | refuses exactly an object that is not extensible and a chain that meets the object within 257 steps, is too deep exactly when a longer chain does not, and otherwise the prototype graph stays acyclic |
| `Objects.Store.PreventExtensions` | modules/common/object.rs:685-689 | exactly that object stops being extensible, and nothing else of the heap changes |
| `Objects.NoCycles` | modules/common/object.rs:648-678 | no object is its own prototype, however indirectly |
| `Objects.Store.DefineOwnProperty` | modules/common/object.rs:709-731 | redefines in place when compatible, appends when extensible, changes nothing otherwise; the property then reads as given if and only if its record keeps it whole |
| `Objects.UpdatedIsMap` | modules/common/object.rs:709-731 | as a map, exactly that key changes, to the descriptor its record gives back |
| `Objects.Store.Delete` | modules/common/object.rs:859-882 | removes exactly a configurable property, keeping the order of the others |
| `Objects.DeletedIsMap` | modules/common/object.rs:859-882 | as a map, exactly that key is removed |
| `Objects.Store.Set` | modules/common/object.rs:786-856 | the nearest property on the chain decides: written in place, refused, handed to its setter, or shadowed by a new own property; too deep exactly when none of the first 258 objects of a longer chain has it |
| `Objects.Store.Get` | modules/common/object.rs:745-765 | the property of the nearest object on the chain that has it, absent exactly when none has; too deep exactly when none of the first 257 objects of a longer chain has it |
| `Objects.DefinedIsGot` | modules/common/object.rs:709-765 | reading a property just defined gives the value defined, or the getter to call |
| `Objects.AssignedIsGot` | modules/common/object.rs:745-880 | after an assignment is done reading gives the value assigned, a property it made is writable, enumerable and configurable and one that was there keeps its attributes, and the same assignment is done again |
| `Objects.PermanentStays` | modules/common/object.rs:648-882 | over any run of definitions, assignments, deletions and prototype changes, a property that is not configurable stays, with its enumerability, kind, accessors, and when not writable its value up to strict equality |
| `Objects.ClosedStays` | modules/common/object.rs:648-731 | over any run of the operations, an object that is not extensible gains no key, keeps its prototype and never becomes extensible again |
| `OwnKeyOrder.OwnKeys` | modules/common/object.rs:887-944 | the keys of the entries, each once: indices ascending, then names, then symbols, each of these in the order of the entries; refused exactly when they do not all fit |
| `CellLayouts.CreateObject` | modules/common/object.rs:156-167 | a fresh cell holds the prototype, no table, no home object and an undefined slot |
| `CellLayouts.CreateFunction` | modules/common/object.rs:268-284 | and, for a function, the environment in the slot and the module number after the reaction word |
| `CellLayouts.SetHome` | modules/common/object.rs:172-179 | the home object alone is changed |
| `CellLayouts.SetTable` | modules/common/object.rs:972-976 | the table alone is changed |
| `CellLayouts.SetSlot` | modules/common/object.rs:566-575 | the slot alone is changed |
| `CellLayouts.MakePromise` | modules/common/object.rs:579-586 | an undefined value and no reaction list |
| `CellLayouts.SetReactions` | modules/common/object.rs:630-638 | the reaction list alone is changed |
| `CellLayouts.ObjectReferences` | modules/common/object.rs:74-103 | the collector finds in an object cell its prototype, table, slot, home object and the two words of the reaction list, in that order |
| `CellLayouts.NothingElseExactly` | modules/common/object.rs:74-103 | every reference stored in an object is found; nothing that was not stored as one is found if and only if the first word of the reaction list is the reserved index, or the two words spell a reference of the object anyway |
| `CellLayouts.ModuleReadsAsReference` | modules/common/object.rs:88-97 | the counterexample: in a function the reaction words are zero and its module number, which the collector takes for a handle to slot 0 |
| `CellLayouts.PropertyTableReferences` | modules/common/object.rs:106-133 | the collector finds in a property table what its records read back as, and nothing else |
| `Registries.Registry.Find` | modules/common/module.rs:171-184 | the module of a key |
| `Registries.Registry.Register` | modules/common/module.rs:191-217 | registering is idempotent in key and form; a new module is new, unordered and has no imports yet, the other records stay, and it appends a node without edges to the graph; every refusal is exact |
| `Registries.Registry.AddImport` | modules/common/module.rs:223-248 | one more unresolved import with the specifier given, of the module registered last, every other import and record kept; every refusal is exact |
| `Registries.Registry.Resolve` | modules/common/module.rs:264-276 | exactly one import of the graph gets a target, and only a registered one; every refusal exact |
| `Registries.Registry.SetStatus` | modules/common/module.rs:279-286 | moves along the lifecycle and no other way |
| `Registries.OneWay` | modules/common/module.rs:54-66 | the statuses of a module are a beginning of new, linking, linked, evaluating, evaluated, or such a beginning and then a failure, never before the link and never after the evaluation |
| `ImportGraphs.Enters` | modules/common/link.rs:117-146 | entering a module keeps the walk's invariant: the stack is a path of imports, everything looked at has been met |
| `ImportGraphs.Leaves` | modules/common/link.rs:149-161 | finishing a module keeps it: its imports were finished first or lead back to it |
| `Linker.WalkFrom` | modules/common/link.rs:99-163 | the iterative walk ends, with everything its root reaches finished, the root last; otherwise it says why |
| `Linker.Link` | modules/common/link.rs:37-55 | on success exactly the modules the entry reaches get the positions 0 to count-1, the entry last, an import before its importer unless it leads back to it; with enough storage it succeeds exactly when every reachable import resolves; a fresh registry is linked afterwards exactly when it succeeded; when it fails on an import, no module claims to be linked if and only if the leftmost path of imports not met before ends at one that leads nowhere |
| `ImportGraphs.DependencyFinishesFirst` | modules/common/link.rs:99-163 | a module that imports another and then something unresolved: the other is finished, and linked, before the link fails |
| `Linker.LinkAll` | modules/common/link.rs:63-86 | on success every module gets one position in such an order, and a last module that no other imports comes last; with enough storage it succeeds exactly when every import of every module resolves |
| `Linker.IsLinked` | modules/common/link.rs:176-194 | some module is ordered, every ordered one is linked or evaluated, none is linking or failed |

## Left out

- Images and diagnostics: parsing and writing unit images, the loop over the functions of a unit, and the codes and arguments of diagnostics; a verdict is a yes or a no.
- VerifierSafety.AdmittedRunsAreSafe: the machine steps over program counter and context depth; registers and values are not modelled beyond their operand ranges.
- VerifierSafety.GuardedThrowingRunsAreSafe: assumes what the verifier does not check of exception edges, and `VerifierSafety.HandlerOutsideIsAdmitted` shows that it does not.
- CodeBuilders.CodeBuilder.Jump: for a label number that was never handed out only the error and the item are stated, since the label storage there holds whatever the caller left.
- Heaps.Heap.Retire: while a collection is under way only the change of the table is stated, not what becomes of that collection.
- Heaps.Heap.Allocate: the arena is shorter than 2^32-16 bytes and the table has at most 2^32-1 slots, so that offsets and indices are words.
- Heap persistence: saving, restoring and adopting heap state.
- Heaps.Heap.Collect: takes a positive budget, because a slice of zero makes no progress, and a valid heap, which excludes reusing a retired slot before the next collection; `HeapModel.OwnedGrows` gives the exact condition.
- PatternMatcher.Run: lookahead is not modelled and its opcode counts as unknown, because its nested run writes the storage of the outer search; `start` lies within the input, as the callers guarantee.
- PatternCompiler.Compiler.CompileTree: walks a tree instead of parsing pattern text, so escapes, class syntax, named groups and the nesting limit are not modelled; the buffer has at most 32767 bytes, so that displacements fit sixteen bits.
- PatternTheorems.CompiledSearch: the meaning of repetition is the program's own, without the empty-iteration check and the capture reset of ECMA-262.
- PatternCompiler.Compiler.Compile: takes the bytes of the name table as they are.
- Number formatting: fixed, precision and exponential texts built from the shortest digits, and the decimal reader.
- BigInt conversions from and to doubles (repeated rounding), powers (a loop of products), and reading from and writing to heap cells.
- PropertyTables.Append: whether a larger table could be allocated is a parameter; a table holds records as they read back, and their bytes appear in `PropertyRecords` and `Tracing`.
- Objects.Store.SetPrototype: handles name live objects and the value is an object or null, as the callers guarantee; what exotic objects, functions, wrappers and promises do is not modelled, only where functions and promises keep their references.
- CellLayouts.AddReaction: takes a list with room; moving a full list to a larger cell is left out.
- CellLayouts.CreateFunction: stands for the other kinds of object too, which write the same fields; their tag, flag and code bytes hold no references.
- Objects.Store.DefineOwnProperty: takes a live handle, as do the other operations of a store; a stale handle is an error of the heap before any of this code runs.
- PropertyTables.AdmittedIff: strict equality of texts and BigInts is equality of handles, which is all the redefinition check can decide.
- BigTexts.TextFromEnd.constructor: takes a radix from 2 to 36; with a radix of 0 or 1 counting the digits would not end.
- Linker.Link: the digest of the closure is not modelled.
- The lexer, parser, lowering, interpreter loop, realm, transcendental functions and host wiring.

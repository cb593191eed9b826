# Verified core algorithms of SVF

SVF analyses LLVM bitcode. This project models, in Dafny, the algorithms of SVF that do not depend on
LLVM, Z3 or clang beyond their data, and proves what they are relied on for. `dafny verify dfyconfig.toml`
checks everything.

| files | area |
|---|---|
| BreakConstantExpr.dfy, BreakConstantPass.dfy | the pass that turns nested constant expressions into instructions: an operational meaning for function bodies, the conversion steps, the worklist |
| TwoPhaseSearch.dfy, SearchEntries.dfy, ValueFlow.dfy, ObjTypeInference.dfy | the explicit-stack search with persistent caches that finds allocation sites and infers object types |
| TypeFlattening.dfy, GepOffset.dfy, GlobalInitializer.dfy | three walks over nested types that have to agree on one flat numbering |
| NumericLiteral.dfy, IntervalValue.dfy, IntervalArithmetic.dfy, IntervalBitwise.dfy | the interval domain over extended integers |
| DchgTypes.dfy, DchgHierarchy.dfy | canonical DWARF types and the memoised class-hierarchy query |
| Reachability.dfy, ChgClosure.dfy, ChgVirtualIds.dfy, ChgBuilder.dfy | ancestors, descendants and virtual-function numbers of the class hierarchy graph |
| ControlFlow.dfy, IcfgSpec.dfy, IcfgBuilder.dfy | intrinsic-skipping successors and predecessors, and the control-flow graph built from them |
| TextLines.dfy, LineEdits.dfy, HoleFilling.dfy, InnermostBrackets.dfy | source text editing by original line, hole filling, bracket matching |
| Words.dfy, Wrappers.dfy | 32-bit conversions, optional values |

Objects whose methods update their fields are classes here too (`Function`, `ObjTypeInference`,
`LLVMModuleSet`, `SVFIRBuilder`, `IntervalValue`, `CanonicalTypes`, `DCHGraph`, `CHGraph`, `ICFGBuilder`,
`Modification`). Their methods are proved against specification functions and predicates on values, and
the lemmas are about those. Pointers are positions in a sequence of nodes or carry an identity number.

Where the code does not meet the naive claim, the exact condition under which it does is proved:

- `geq` on intervals answers for an empty operand as `leq` would (`GeqIsInclusionExactlyWhen`).
- `%` on intervals follows C's remainder on ranges and SMT-LIB `mod` on numerals (`RemIsEuclideanExactlyWhen`,
  `RemIsTruncatedExactlyWhen`).
- `|`, `^` and `<<` rely on a 32-bit `1 << n` (`BitOrXorIsSoundExactlyWhen`, `ShiftLeftIsSoundExactlyWhen`), and
  `>>` cuts finite bounds to 32 bits (`ShiftRightIsSoundExactlyWhen`).
- A query leaves exact cache entries for all values it went through exactly when it finishes them in post-order
  (`EntriesExactExactlyWhen`). It does when, below the queried value, no cycle is longer than a self-loop and no
  successor is reachable from one listed after it (`OrderlyMeansPostOrder`); then every history of queries answers
  by plain reachability (`OrderlyHistoryIsComplete`).
- Division without zero among the divisors is the exact hull of the quotients exactly when the divisors are
  bounded or some dividend is not negative (`DivisionIsExactExactlyWhen`).
- The largest type is picked by a signed comparison of unsigned counts (`LargestHasMostFieldsExactlyWhen`).
- Flat positions are leaves of a type exactly when no array in it is empty (`LeafPathsCoverExactlyWhen`);
  empty arrays get a dummy element.
- With arrays not modelled, which is the default, paths that differ in array indices share their offset, and no
  others do (`FieldOffsetsAgreeExactlyWhen`, `StoresMeetExactlyWhen`).
- A cached `cha` answer survives a later edge exactly under the condition of `EntryStaysExactExactlyWhen`.
- A virtual function keeps the ID of its group exactly when no later group shares it (`KeepsIdExactlyWhen`), and
  the functions of one name get consecutive IDs in their group's block exactly when that holds for all of them
  (`SameNamesGetConsecutiveIdsExactlyWhen`).
- Switch edges are told apart by their conditions exactly when the case values differ in the low 32 bits
  (`ConditionsDifferExactlyWhen`).
- An insertion keeps all lines in place exactly when its target lies before the last line and the snippet is a
  single line, and the offsets stay right exactly when, besides, no recorded line lies behind the adjusted target
  (`InsertTracksExactlyWhen`). For whole runs the condition is on the targets alone (`RunTracksExactlyWhen`).
- Replacing a line hits it exactly when the offsets before it add up to the lines inserted before it
  (`ReplaceHitsExactlyWhen`).
- Two hole fillings commute exactly when neither number continues the other, or the names make up for it
  (`FillingsCommuteExactlyWhen`).

Inputs on which the naive claims fail are shown by `QueryPhiThenBitCast`, `NumberSharing`,
`HugeArrayIsNotLargest`, `EmptyArrayHasNoLeaf`, `CaseMinusOneLooksLikeDefault`, `GeqWrongOnBottom`,
`RemBranchesDisagree`, `OrMissesZero`, `ShiftLeftMisses`, `ShiftRightMisses` and `OutOfOrderTargetMisleads`.

Requirements taken from LLVM: instructions are placed once, PHIs come first and blocks end in a terminator,
PHI entries for one predecessor agree, constant expressions have no side effects, and a terminator is not
one of the skipped intrinsics. Finite interval bounds are Z3 integers, with `/` and `%` as defined for the
Ints theory of SMT-LIB 2.6. Calls that abort through an assertion are preconditions.

## Model

| member | source | states |
|---|---|---|
| `BreakConstantExpr.HasConstantExprFindsAnyDepth` | svf-llvm/lib/BreakConstantExpr.cpp:86-150 | The three recursive checks together find a GEP, binary or unary expression at any depth of a constant, and nothing else. |
| `BreakConstantExpr.ConversionKeepsWellFormed` | svf-llvm/lib/BreakConstantExpr.cpp:161-173 | One conversion, at a PHI or any other user, keeps the body well-formed: each instruction placed once, PHIs first, PHI entries of one predecessor equal. |
| `BreakConstantExpr.RunConverted` | svf-llvm/lib/BreakConstantExpr.cpp:238-276 | Along every path, states that agree on the original instructions before one conversion agree on them after it, with the new code in front of the user or of the predecessor's terminator. |
| `BreakConstantExpr.BreakingPreservesMeaning` | svf-llvm/lib/BreakConstantExpr.cpp:186-285 | For every machine, path from the entry and initial state, each original instruction holds the same value and memory is the same before and after any run of conversions. |
| `BreakConstantPass.ConversionLowersWeight` | svf-llvm/lib/BreakConstantExpr.cpp:227-280 | Every conversion lowers the total size of constant operands, although the new instruction may need breaking itself: the reason the worklist empties. |
| `BreakConstantPass.Function.ConvertExpression` | svf-llvm/lib/BreakConstantExpr.cpp:161-173 | A fresh instruction made from the constant is put in front of the given position; nothing else moves. |
| `BreakConstantPass.Function.BreakIncoming` | svf-llvm/lib/BreakConstantExpr.cpp:238-263 | The code goes before the terminator of the incoming block, and all entries for that block get the new result, as the loop from the current entry on achieves. |
| `BreakConstantPass.EarlierEntriesUntouched` | svf-llvm/lib/BreakConstantExpr.cpp:256-260 | Starting that loop at the current entry misses nothing: earlier entries for the block would have been converted already. |
| `BreakConstantPass.Function.BreakIncomingValues` | svf-llvm/lib/BreakConstantExpr.cpp:240-263 | After the loop over a PHI it needs no breaking, every instruction that still does is on the worklist, and the weight has not grown. |
| `BreakConstantPass.Function.BreakOperand` | svf-llvm/lib/BreakConstantExpr.cpp:270-276 | The constant becomes an instruction right before its user, and all uses of it in that user are replaced. |
| `BreakConstantPass.Function.BreakOperands` | svf-llvm/lib/BreakConstantExpr.cpp:265-279 | The same as for PHIs, for the operands of any other instruction. |
| `BreakConstantPass.Function.InitialWorklist` | svf-llvm/lib/BreakConstantExpr.cpp:198-222 | The first scan queues exactly instructions that need breaking, and all of them. |
| `BreakConstantPass.Function.BreakConstants` | svf-llvm/lib/BreakConstantExpr.cpp:191-281 | Terminates; the result is reached by conversions only, has nothing left to break, and the pass reports a change exactly when there was something to break. |
| `BreakConstantPass.NothingToBreakMeans` | svf-llvm/lib/BreakConstantExpr.cpp:86-150 | At exit no operand holds a GEP, binary or unary expression at any depth. |
| `BreakConstantPass.RunOnModule` | svf-llvm/lib/BreakConstantExpr.cpp:185-285 | All functions of a module end up converted with nothing left to break; the result tells whether any changed. |
| `BreakConstantPass.PassIsCorrect` | svf-llvm/lib/BreakConstantExpr.cpp:185-285 | A whole run of the pass keeps the meaning and leaves nothing to break. |
| `TwoPhaseSearch.StepKeepsInv` | svf-llvm/lib/ObjTypeInference.cpp:394-416 | One iteration of the two-phase loop keeps the invariant, in which a depth-first tree orders first and second phases on a stack without duplicates. |
| `TwoPhaseSearch.SearchIsExact` | svf-llvm/lib/ObjTypeInference.cpp:384-501 | On any graph, cyclic or not, the queried value's entry is every fact reachable through values uncached at entry plus the cached answers on that frontier; old entries are kept, new ones hold nothing unreachable. |
| `TwoPhaseSearch.StepProgress` | svf-llvm/lib/ObjTypeInference.cpp:396-402 | Each iteration visits a new pair or shortens the work list. |
| `TwoPhaseSearch.AnswerIsSound` | svf-llvm/lib/ObjTypeInference.cpp:406-416 | An answer relative to a sound cache is sound by plain reachability. |
| `SearchEntries.RunEnds` | svf-llvm/lib/ObjTypeInference.cpp:394-416 | Every search ends, on any graph and from any cache. |
| `SearchEntries.EntriesExactExactlyWhen` | svf-llvm/lib/ObjTypeInference.cpp:394-501 | The entries an ended search made for all values it went through are the complete answers relative to the cache at entry, wherever the facts are, if and only if no edge between different uncached values has its target finished after its source. |
| `SearchEntries.OrderlyMeansPostOrder` | svf-llvm/lib/ObjTypeInference.cpp:394-416 | That is so when, below the queried value and up to cached ones, no cycle is longer than a self-loop and no successor can be reached from one listed after it. |
| `SearchEntries.OrderlyWithAnyCache` | svf-llvm/lib/ObjTypeInference.cpp:394-416 | A graph that meets this condition with nothing cached meets it with any cache. |
| `SearchEntries.CompleteCacheAnswers` | svf-llvm/lib/ObjTypeInference.cpp:386-391 | A query against a complete cache is answered by plain reachability, on any graph. |
| `SearchEntries.StaysComplete` | svf-llvm/lib/ObjTypeInference.cpp:384-501 | A query that meets the condition, or is answered from the cache, keeps a complete cache complete. |
| `SearchEntries.OrderlyHistoryIsComplete` | svf-llvm/lib/ObjTypeInference.cpp:384-501 | After any history of queries that meet the condition on the graph, all entries are plain reachability. |
| `SearchEntries.OtherEntriesMayBeIncomplete` | svf/include/Util/WorkList.h:255-266 | Any search from value 0 of an acyclic three-value graph leaves an entry that misses a reachable fact. |
| `ObjTypeInference.QueryPhiThenBitCast` | svf-llvm/lib/ObjTypeInference.cpp:384-501 | After a query of a PHI of an allocation and a bitcast of it, the query of the bitcast answers that there is no allocation, although it leads back to one. |
| `ObjTypeInference.CompleteAllocs` | svf-llvm/lib/ObjTypeInference.cpp:384-501 | A query of a complete cache of allocations answers with exactly the allocations the value leads back to by the flow relation, and keeps the cache complete when it is orderly. |
| `ObjTypeInference.CompleteSites` | svf-llvm/lib/ObjTypeInference.cpp:160-377 | The same for infer sites: exactly the sites that what the value points to is carried to. |
| `ObjTypeInference.SelectLargestSizedType` | svf-llvm/lib/ObjTypeInference.cpp:560-574 | The result is the least type, in set order, among those whose number of fields is greatest as a signed number; none for no types. |
| `ObjTypeInference.LargestIsUnique` | svf-llvm/lib/ObjTypeInference.cpp:560-574 | That description determines the result. |
| `ObjTypeInference.LargestHasMostFieldsExactlyWhen` | svf-llvm/lib/ObjTypeInference.cpp:560-591 | The type selected has the most fields if and only if none of the candidates has 2^31 fields or more, or all have. |
| `ObjTypeInference.HugeArrayIsNotLargest` | svf-llvm/lib/ObjTypeInference.cpp:560-591 | An array of 2^31 elements loses against an array of one. |
| `ObjTypeInference.LargestComesFirst` | svf-llvm/lib/ObjTypeInference.cpp:560-591 | The type selected is the candidate that comes before all others: by declared elements (the limit for classes with a vtable and anything else) as a signed 32-bit number, then by type. |
| `ObjTypeInference.CountsAsExactly` | svf-llvm/lib/ObjTypeInference.cpp:576-591 | The count of a type is its declared number of elements, or the limit, read as a signed 32-bit number. |
| `ObjTypeInference.BackwardSourcesExactly` | svf-llvm/lib/ObjTypeInference.cpp:418-496 | The backward search goes on with exactly the values that, by a relation on the IR, what a value points to may come from: the operand of a cast, the entries of a PHI, what is stored through the pointer of a load, the operand that a direct call passes for a parameter (operand 0 for variadic functions), what a defined callee returns; from an allocation, nothing. |
| `ObjTypeInference.ForwardTargetsExactly` | svf-llvm/lib/ObjTypeInference.cpp:206-357 | The forward search goes on with exactly the casts and PHIs of a value, the loads of where it is stored (of the same field when that is a field address), the direct calls of the function that returns it, and the parameter a direct call of a defined function binds it to. |
| `ObjTypeInference.OwnSitesExactly` | svf-llvm/lib/ObjTypeInference.cpp:206-310 | The sites of a value are its loads, the stores and field addresses through it, and itself if it is a field address. |
| `ObjTypeInference.BackwardGraphValid` | svf-llvm/lib/ObjTypeInference.cpp:418-496 | The sources of every kind of value stay inside the module, so the search can visit them. |
| `ObjTypeInference.ForwardGraphValid` | svf-llvm/lib/ObjTypeInference.cpp:206-357 | So do the values the forward search goes on with from every kind of use. |
| `ObjTypeInference.AnswerIsReachability` | svf-llvm/lib/ObjTypeInference.cpp:384-501 | On an empty cache the answer is exactly the allocations reachable over the flow relation. |
| `ObjTypeInference.SitesAreReachability` | svf-llvm/lib/ObjTypeInference.cpp:160-377 | Likewise the infer sites of everything reachable forwards. |
| `ObjTypeInference.CachedTypeIsRevealed` | svf-llvm/lib/ObjTypeInference.cpp:359-367 | The type cached beside the sites is the one they reveal: the type of a site that comes first, or the default for heap allocations and other values. |
| `ObjTypeInference.Expand` | svf-llvm/lib/ObjTypeInference.cpp:179-205 | The first phase pushes the value's second phase and its uncached successors, the second gathers own facts and cached answers. |
| `ObjTypeInference.ObjTypeInference.BwFindAllocOfVar` | svf-llvm/lib/ObjTypeInference.cpp:384-501 | Terminates with the exact answer relative to the cache at entry; after any history of queries every allocation answered is reachable over the flow relation. Against a complete cache the answer is all of these, and an orderly query keeps the cache complete. |
| `ObjTypeInference.ObjTypeInference.SearchBackward` | svf-llvm/lib/ObjTypeInference.cpp:394-494 | The work list loop ends in a state the search steps lead to, with the exact answer for the queried value. |
| `ObjTypeInference.ObjTypeInference.CacheSites` | svf-llvm/lib/ObjTypeInference.cpp:359-367 | Sites and types are cached together, the type being the largest of the sites' types. |
| `ObjTypeInference.ObjTypeInference.SearchForward` | svf-llvm/lib/ObjTypeInference.cpp:169-371 | The same two-phase search over infer sites is exact, and both caches keep the same keys. |
| `ObjTypeInference.ObjTypeInference.FwInferObjType` | svf-llvm/lib/ObjTypeInference.cpp:160-377 | Exact sites relative to the cache, all reachable over the forward flow relation (exactly these against a complete cache); the type that they reveal; earlier entries unchanged. |
| `ObjTypeInference.ObjTypeInference.InferObjType` | svf-llvm/lib/ObjTypeInference.cpp:134-154 | The result is the type revealed by the sites of one of the sources found (of the value itself if it is an allocation or has none), and it comes before what those of any other source reveal; the sources are allocations reachable over the flow relation. |
| `ObjTypeInference.StaysSound` | svf-llvm/lib/ObjTypeInference.cpp:384-501 | New entries keep a sound cache sound. |
| `TypeFlattening.EmptyMeansNoElements` | svf-llvm/lib/LLVMModule.cpp:1538-1560 | The product of the nested dimensions is zero exactly for arrays the code gives a dummy element. |
| `TypeFlattening.ArrayIsRepeatedBase` | svf-llvm/lib/LLVMModule.cpp:1562-1598 | Flattening element by element, as the type structure says, equals repeating the innermost element type, as the code does. |
| `TypeFlattening.IndexFormulaIsExact` | svf-llvm/lib/LLVMModule.cpp:1572-1580 | The index formula of arrays divides without remainder, and element i starts at i element widths. |
| `TypeFlattening.LLVMModuleSet.CollectTypeInfo` | svf-llvm/lib/LLVMModule.cpp:1444-1535 | Whether cached or not, the table of a type is its structural layout. |
| `TypeFlattening.LLVMModuleSet.CollectArrayInfo` | svf-llvm/lib/LLVMModule.cpp:1538-1598 | The loops of the array case build exactly the layout of the nested array, the dummy of empty arrays included. |
| `TypeFlattening.LLVMModuleSet.CollectStructInfo` | svf-llvm/lib/LLVMModule.cpp:1601-1652 | The running counters of the struct case give field and element indices, flattened fields and stride of the layout. |
| `TypeFlattening.CountElements` | svf-llvm/lib/LLVMModule.cpp:1540-1548 | The loop through nested arrays finds the product of their dimensions and the innermost element type. |
| `TypeFlattening.IndexVectors` | svf-llvm/lib/LLVMModule.cpp:1570-1580 | The loop over the outer dimension fills both index vectors with the starts of the elements. |
| `TypeFlattening.RepeatElements` | svf-llvm/lib/LLVMModule.cpp:1585-1595 | The double loop lists the flattened element types once per element. |
| `GepOffset.TablesAddressComponents` | svf-llvm/lib/LLVMModule.cpp:1572-1652 | Entry i of the element table is where component i's flattened elements sit, as one slice, for arrays and structs alike; entry i of a struct's field table is where its flattened fields sit. |
| `GepOffset.OffsetAddressesSlice` | svf-llvm/lib/SVFIRBuilder.cpp:285-318 | For every in-range path the sum of the per-level indices is where the addressed sub-type's flattened elements sit, as one slice. |
| `GepOffset.LeafPathFound` | svf-llvm/lib/SVFIRBuilder.cpp:285-318 | A path to a scalar is found again from its offset. |
| `GepOffset.FoundIsLeafPath` | svf-llvm/lib/SVFIRBuilder.cpp:285-318 | What is found at an offset is a path to a scalar with that offset. |
| `GepOffset.LeafPathsAreInjective` | svf-llvm/lib/SVFIRBuilder.cpp:285-318 | Paths to scalars and flat positions correspond one to one. |
| `GepOffset.LeafPathsCoverExactlyWhen` | svf-llvm/lib/LLVMModule.cpp:1549-1560 | Every position below the width is a scalar's if and only if no array inside the type is empty. |
| `GepOffset.EmptyArrayHasNoLeaf` | svf-llvm/lib/LLVMModule.cpp:1549-1560 | The dummy element of an empty array takes a position that no path leads to. |
| `GepOffset.FieldOffsetAddressesSlice` | svf/lib/SVFIR/SymbolTableInfo.cpp:188-201 | With arrays not modelled the sum of the per-level indices is where the addressed sub-type's flattened fields sit, as one slice. |
| `GepOffset.FieldOffsetsAgreeExactlyWhen` | svf/lib/SVFIR/SymbolTableInfo.cpp:188-201 | Two paths to scalars then share their offset if and only if they differ in array indices only. |
| `GepOffset.GetFlattenedElemIdx` | svf/lib/SVFIR/SymbolTableInfo.cpp:180-202 | The lookup in either mode: the element table, the field table of a struct, or the base of an array. |
| `GepOffset.ReadLevel` | svf-llvm/lib/SVFIRBuilder.cpp:296-318 | One level of a GEP in either mode: array and struct indices are looked up, variable and out-of-range array indices add nothing. |
| `GepOffset.ComputeGepOffset` | svf-llvm/lib/SVFIRBuilder.cpp:270-339 | The iterator loop sums the levels; the offset counts as constant unless a pointer to a scalar is indexed by a variable. |
| `GepOffset.GepComputesPathOffset` | svf-llvm/lib/SVFIRBuilder.cpp:270-339 | With constant in-range operands a GEP yields the offset of its path, in either mode. |
| `GepOffset.GepComputesSelectedPath` | svf-llvm/lib/SVFIRBuilder.cpp:270-339 | Whatever the operands, the offset is that of the path they select: the low 32 bits of a constant count elements, and a variable or a number beyond the array stands for the first element. |
| `GepOffset.EmptyArrayAddsNothing` | svf-llvm/lib/SVFIRBuilder.cpp:296-303 | An index into an array without elements adds nothing. |
| `GlobalInitializer.SVFIRBuilder.FlattenedElemIdx` | svf/lib/SVFIR/SymbolTableInfo.cpp:180-202 | The lookup never leaves its table and returns the start of the component in the mode at hand. |
| `GlobalInitializer.SVFIRBuilder.InitialGlobal` | svf-llvm/lib/SVFIRBuilder.cpp:496-545 | Appends exactly the stores the initialiser stands for at the given offset, whatever was stored before. |
| `GlobalInitializer.SVFIRBuilder.InitialAggregate` | svf-llvm/lib/SVFIRBuilder.cpp:517-526 | The loop over the operands of a constant struct or array, each at the start of its component. |
| `GlobalInitializer.SVFIRBuilder.InitialData` | svf-llvm/lib/SVFIRBuilder.cpp:527-541 | Data arrays store element by element when constants are modelled, and nothing otherwise. |
| `GlobalInitializer.StoresFollowPositions` | svf-llvm/lib/SVFIRBuilder.cpp:496-545 | In either mode the k-th store of a fully explicit initialiser goes to the offset of the path to flat position k and holds the constant at that path. |
| `GlobalInitializer.InitializerFillsLayout` | svf-llvm/lib/SVFIRBuilder.cpp:496-545 | With arrays modelled the stores reach the flat offsets 0..n-1 once each in order, each with the constant of the path found there. |
| `GlobalInitializer.InitializerAgreesWithGep` | svf-llvm/lib/SVFIRBuilder.cpp:270-339 | The constant at a path is stored at the offset a GEP computes for that path, in either mode. |
| `GlobalInitializer.StoresMeetExactlyWhen` | svf-llvm/lib/SVFIRBuilder.cpp:496-545 | Two constants are stored at one offset only if they are the same with arrays modelled, and otherwise if and only if their paths differ in array indices only. |
| `GlobalInitializer.StoredExactly` | svf-llvm/lib/SVFIRBuilder.cpp:496-545 | For any initialiser, abbreviated or not, what is stored is exactly the constants it spells out (data arrays when constants are modelled, zero and undefined aggregates never), each at the offset of its path. |
| `GlobalInitializer.ExplicitMeans` | svf-llvm/lib/SVFIRBuilder.cpp:527-545 | Fully explicit means that no part of the initialiser is a zero or undefined aggregate, or a data array that is not modelled. |
| `NumericLiterals.MinVector` | svf/include/AbstractExecution/NumericLiteral.h:405-418 | The loop with its early exit returns a member below all others (+oo for none). |
| `NumericLiterals.MaxVector` | svf/include/AbstractExecution/NumericLiteral.h:420-433 | The loop with its early exit returns a member above all others (-oo for none). |
| `NumericLiterals.MulMonotone` | svf/include/AbstractExecution/NumericLiteral.h:244-256 | Multiplication is monotone for non-negative and antitone for non-positive factors, 0 times infinity and all sign cases included. |
| `NumericLiterals.DivisionWithInfinities` | svf/include/AbstractExecution/NumericLiteral.h:258-292 | An infinite dividend keeps its size and takes the sign of a product, under division and remainder; a finite one over an infinite divisor gives zero. |
| `IntervalValues.BottomIsEmpty` | svf/include/AbstractExecution/IntervalValue.h:52-63 | Under the invariant that +oo is no lower and -oo no upper bound, an interval is bottom exactly when it has no members. |
| `IntervalValues.IntervalValue.JoinWith` | svf/include/AbstractExecution/IntervalValue.h:345-368 | In-place join equals the join of the old values, also with itself as argument. |
| `IntervalValues.IntervalValue.MeetWith` | svf/include/AbstractExecution/IntervalValue.h:408-421 | In-place meet equals the meet of the old values. |
| `IntervalValues.IntervalValue.WidenWith` | svf/include/AbstractExecution/IntervalValue.h:371-387 | In-place widening equals widening of the old values. |
| `IntervalValues.IntervalValue.NarrowWith` | svf/include/AbstractExecution/IntervalValue.h:390-405 | In-place narrowing equals narrowing of the old values. |
| `IntervalValues.LeqIsInclusion` | svf/include/AbstractExecution/IntervalValue.h:290-305 | `leq` is exactly set inclusion. |
| `IntervalValues.EqualsIsSameSet` | svf/include/AbstractExecution/IntervalValue.h:326-342 | `equals` holds exactly for intervals with the same members. |
| `IntervalValues.GeqIsInclusionExactlyWhen` | svf/include/AbstractExecution/IntervalValue.h:308-323 | `geq` decides reversed inclusion if and only if both operands are empty or neither is. |
| `IntervalValues.GeqWrongOnBottom` | svf/include/AbstractExecution/IntervalValue.h:308-323 | Bottom counts as above top, and top not as above bottom. |
| `IntervalValues.JoinIsLeastUpperBound` | svf/include/AbstractExecution/IntervalValue.h:345-368 | Join is the least interval containing both. |
| `IntervalValues.MeetIsIntersection` | svf/include/AbstractExecution/IntervalValue.h:408-421 | Meet has exactly the common members. |
| `IntervalValues.MeetIsGreatestLowerBound` | svf/include/AbstractExecution/IntervalValue.h:408-421 | Meet is the greatest interval inside both. |
| `IntervalValues.WidenIsUpperBound` | svf/include/AbstractExecution/IntervalValue.h:371-387 | Widening bounds both arguments. |
| `IntervalValues.WideningTerminates` | svf/include/AbstractExecution/IntervalValue.h:371-387 | A widening chain changes at most three times, whatever the inputs. |
| `IntervalValues.WidenMembers` | svf/include/AbstractExecution/IntervalValue.h:371-387 | Widening keeps each bound that the second interval respects and drops the others. |
| `IntervalValues.NarrowStaysBetween` | svf/include/AbstractExecution/IntervalValue.h:390-405 | Narrowing by something smaller stays between the two. |
| `IntervalValues.NarrowIsLeast` | svf/include/AbstractExecution/IntervalValue.h:390-405 | Narrowing by something smaller keeps every finite bound of the first interval and is inside every interval that does so and contains the second: it is the least such interval. |
| `IntervalValues.NarrowMembers` | svf/include/AbstractExecution/IntervalValue.h:390-405 | Its members are those that respect the finite bounds of the first interval and, where the first has none, the bounds of the second. |
| `IntervalValues.NarrowingTerminates` | svf/include/AbstractExecution/IntervalValue.h:390-405 | A narrowing chain changes, as a set, at most three times. |
| `IntervalArithmetic.EvaluationIsSound` | svf/include/AbstractExecution/IntervalValue.h:459-781 | For whole expressions over +, -, *, / and the six comparisons, the abstract value contains the concrete one whenever that is defined. |
| `IntervalArithmetic.OperatorIsSound` | svf/include/AbstractExecution/IntervalValue.h:135-199 | Each operator by itself, == and != included, contains every result on members. |
| `IntervalArithmetic.OperatorsKeepWellFormed` | svf/include/AbstractExecution/IntervalValue.h:459-781 | The invariant on infinite bounds is kept by every arithmetic and comparison operator. |
| `IntervalArithmetic.ComparisonIsExact` | svf/include/AbstractExecution/IntervalValue.h:581-781 | Comparisons answer exactly the possible outcomes; when an operand has all numbers they answer all numbers. |
| `IntervalArithmetic.SumUpperBoundIsExact` | svf/include/AbstractExecution/IntervalValue.h:459-492 | The finite upper bound of a sum or difference is attained, an infinite one exceeded by any amount. |
| `IntervalArithmetic.SumLowerBoundIsExact` | svf/include/AbstractExecution/IntervalValue.h:459-492 | Likewise for lower bounds. |
| `IntervalArithmetic.MulIsSound` | svf/include/AbstractExecution/IntervalValue.h:495-512 | The four-corner product contains all products. |
| `IntervalArithmetic.MultiplicationIsExact` | svf/include/AbstractExecution/IntervalValue.h:495-512 | It is the hull: finite bounds are products of members, infinite bounds mean unbounded products. |
| `IntervalArithmetic.DivIsSound` | svf/include/AbstractExecution/IntervalValue.h:515-538 | The four-corner quotient contains all SMT-LIB quotients, for divisors of either sign and infinite bounds. |
| `IntervalArithmetic.DivisionIsExactExactlyWhen` | svf/include/AbstractExecution/IntervalValue.h:515-538 | Without zero among the divisors both bounds are attained, or exceeded if infinite, if and only if the divisors are bounded or some dividend is not negative. |
| `IntervalArithmetic.DivisionByZero` | svf/include/AbstractExecution/IntervalValue.h:515-538 | With zero among the divisors every number is answered, unless zero is the only dividend. |
| `IntervalArithmetic.RemRangeIsTruncated` | svf/include/AbstractExecution/IntervalValue.h:541-578 | The range branch of `%` contains C's remainder for all dividends. |
| `IntervalArithmetic.RemIsSoundForNonNegative` | svf/include/AbstractExecution/IntervalValue.h:541-578 | For non-negative dividends both remainders agree and are contained. |
| `IntervalArithmetic.RemIsEuclideanExactlyWhen` | svf/include/AbstractExecution/IntervalValue.h:541-578 | The exact condition on the bounds of the operands under which `%` contains every SMT-LIB remainder. |
| `IntervalArithmetic.DividesByMeans` | svf/include/AbstractExecution/IntervalValue.h:541-578 | A single dividend is divisible by all divisors if and only if these are bounded and their least common multiple divides it. |
| `IntervalArithmetic.RemIsTruncatedExactlyWhen` | svf/include/AbstractExecution/IntervalValue.h:541-578 | For divisors other than zero `%` contains every C remainder if and only if it is not the case that two numerals meet, the dividend negative and not divisible. |
| `IntervalArithmetic.RemBranchesDisagree` | svf/include/AbstractExecution/IntervalValue.h:552-575 | One negative dividend for each branch on which it misses the other's remainder. |
| `IntervalArithmetic.RemMembers` | svf/include/AbstractExecution/IntervalValue.h:541-578 | What `%` answers, by members: constants their remainder; ranges everything no larger than some dividend, smaller than some divisor and with the sign of some dividend; divisors with zero everything, unless zero is the only dividend. |
| `IntervalArithmetic.NothingFromNothing` | svf/include/AbstractExecution/IntervalValue.h:459-781 | No operator answers anything for operands without members. |
| `IntervalBitwise.NextPowerOf2` | svf/include/AbstractExecution/IntervalValue.h:870-879 | The loop finds the bit length, and returns the 32-bit power of two, negative at 31. |
| `IntervalBitwise.BitAndIsSound` | svf/include/AbstractExecution/IntervalValue.h:841-866 | `&` is sound on all signed 64-bit operands. |
| `IntervalBitwise.WordByDigits` | svf/include/AbstractExecution/IntervalValue.h:841-923 | The 64-bit word operations are the signed numbers whose digits are the connective applied to the operands' digits. |
| `IntervalBitwise.BitAndMembers` | svf/include/AbstractExecution/IntervalValue.h:841-866 | `&` answers, for constants, their conjunction, and otherwise everything that is not negative and not above any operand that cannot be negative. |
| `IntervalBitwise.BitOrXorIsSoundExactlyWhen` | svf/include/AbstractExecution/IntervalValue.h:868-923 | Or and xor are sound if and only if the range branch is not taken or the larger bound m has m + 1 < 2^30. |
| `IntervalBitwise.BitOrXorMembers` | svf/include/AbstractExecution/IntervalValue.h:868-923 | Or and xor answer, for constants, one number, for bounded operands that cannot be negative everything up to the least power of two above both (nothing if that is 2^31), and otherwise everything. |
| `IntervalBitwise.OrMissesZero` | svf/include/AbstractExecution/IntervalValue.h:868-923 | With an upper bound of 2^30 - 1 the result for or and xor is the empty interval. |
| `IntervalBitwise.ShiftLeftMisses` | svf/include/AbstractExecution/IntervalValue.h:784-802 | 1 << 31 is -2^31. |
| `IntervalBitwise.ShiftRightMisses` | svf/include/AbstractExecution/IntervalValue.h:805-838 | 2^31 >> 0 is -2^31. |
| `IntervalBitwise.ShiftLeftIsSoundExactlyWhen` | svf/include/AbstractExecution/IntervalValue.h:784-802 | `<<` contains x * 2^y if and only if the shift has no upper bound, stays below 31, or is 31 throughout on a symmetric interval. |
| `IntervalBitwise.ShiftRightIsSoundExactlyWhen` | svf/include/AbstractExecution/IntervalValue.h:805-838 | `>>` contains floor(x / 2^y), through the recursion that splits at zero, if and only if no finite lower bound lies below and no finite upper bound above the 32-bit range. |
| `IntervalBitwise.ShiftLeftIsExact` | svf/include/AbstractExecution/IntervalValue.h:784-802 | With amounts below 31 or without an upper bound, `<<` is the hull: both bounds are reached by shifted members, or exceeded if infinite. |
| `IntervalBitwise.ShiftRightIsExact` | svf/include/AbstractExecution/IntervalValue.h:805-838 | So is `>>`, through the split at zero, when finite bounds are in the 32-bit range. |
| `IntervalBitwise.NoWordsFromNothing` | svf/include/AbstractExecution/IntervalValue.h:541-923 | Remainder and bitwise operators answer nothing for operands without members. |
| `IntervalBitwise.NoShiftsFromNothing` | svf/include/AbstractExecution/IntervalValue.h:784-838 | Shifts answer nothing without members or without an amount that is not negative. |
| `IntervalBitwise.BitOperatorsKeepWellFormed` | svf/include/AbstractExecution/IntervalValue.h:541-923 | Remainder and bitwise operators keep the invariant on infinite bounds. |
| `IntervalBitwise.ShiftLeftKeepsWellFormed` | svf/include/AbstractExecution/IntervalValue.h:784-802 | So does the left shift. |
| `IntervalBitwise.ShiftRightKeepsWellFormed` | svf/include/AbstractExecution/IntervalValue.h:805-838 | So does the right shift. |
| `DchgTypes.StripQualifiers` | svf-llvm/lib/DCHG.cpp:763-814 | The loop returns the type below all qualifiers and typedefs. |
| `DchgTypes.StripStops` | svf-llvm/lib/DCHG.cpp:763-814 | Stripping ends at the first type below that is neither qualified nor a typedef, void included. |
| `DchgTypes.TeqIsSameShape` | svf-llvm/lib/DCHG.cpp:828-938 | `teq` holds exactly between types of one shape, an independent description of what it ignores. |
| `DchgTypes.TeqIsEquivalence` | svf-llvm/lib/DCHG.cpp:828-938 | Hence it is reflexive, symmetric and transitive through qualifiers, typedefs, pointers, references and arrays. |
| `DchgTypes.CanonicalTypes.GetCanonicalType` | svf-llvm/lib/DCHG.cpp:722-761 | Keeps the representatives stripped, fixed by the map and pairwise unequal, never changes an earlier answer, and returns an equal type. |
| `DchgTypes.CanonicalTypes.CanonicalTypesDecideEquality` | svf-llvm/lib/DCHG.cpp:722-761 | In every reachable cache state two types get one representative if and only if they are equal. |
| `DchgTypes.RepresentativesDecide` | svf-llvm/lib/DCHG.cpp:722-761 | Pairwise unequal representatives decide equality. |
| `DchgHierarchy.DCHGraph.NodeOfCanonical` | svf-llvm/lib/DCHG.cpp:406-422 | Creates at most one edgeless node; numbering and all cached answers stay valid. |
| `DchgHierarchy.DCHGraph.AddEdge` | svf-llvm/lib/DCHG.cpp:433-466 | Afterwards the edge is there once, between the nodes of the two types, and no other edge has changed; an inheritance or standard-definition edge makes its target a base of its source for both flags, a first-field edge with the flag on. |
| `DchgHierarchy.EdgeMakesBase` | svf-llvm/lib/DCHG.cpp:239-252 | An inheritance or standard-definition edge makes its target a base for both flags, a first-field edge with the flag on. |
| `DchgHierarchy.OtherEdgesMakeNoBase` | svf-llvm/lib/DCHG.cpp:239-252 | A graph with none but template-instance edges has no proper bases, nor has one with first-field edges and the flag off. |
| `DchgHierarchy.FollowedEdgesLink` | svf-llvm/lib/DCHG.cpp:239-252 | The filter, which skips edges as the source does, follows exactly the edges of those kinds. |
| `DchgHierarchy.DCHGraph.ChaOfCanonical` | svf-llvm/lib/DCHG.cpp:223-266 | On a hierarchy without cycles of edges followed for the flag the answer is the reflexive-transitive descendants under the flag's edge filter, and both caches stay exact after any mixed queries. |
| `DchgHierarchy.DCHGraph.Cha` | svf-llvm/lib/DCHG.cpp:223-266 | The same for any type, through its canonical type. |
| `DchgHierarchy.DCHGraph.IsBase` | svf-llvm/lib/DCHG.cpp:675-684 | After any history of queries the answer is plain reachability between the two nodes. |
| `DchgHierarchy.DescendsTransitive` | svf-llvm/lib/DCHG.cpp:675-684 | Being a base is transitive. |
| `DchgHierarchy.PlainDescendsByFirstFields` | svf-llvm/lib/DCHG.cpp:239-252 | The first-field answer contains the plain one. |
| `DchgHierarchy.DescendantsWithEdge` | svf-llvm/lib/DCHG.cpp:433-448 | What one more edge adds to the descendants of every node. |
| `DchgHierarchy.EntryStaysExactExactlyWhen` | svf-llvm/lib/DCHG.cpp:228-232 | A cached answer is still right after an added edge if and only if the edge is not followed, does not start below the type, or adds nothing. |
| `ChgBuilder.CHGraph.BuildClassNameToAncestorsDescendantsMap` | svf-llvm/lib/CHGBuilder.cpp:264-295 | On any graph, cyclic or not, ancestors are the classes one or more inheritance edges above, and descendants are the inverse. |
| `ChgBuilder.CHGraph.AncestorsOf` | svf-llvm/lib/CHGBuilder.cpp:271-293 | The worklist search from one class enters exactly its ancestors, in both maps. |
| `ChgBuilder.CHGraph.EnterBases` | svf-llvm/lib/CHGBuilder.cpp:277-290 | One class's inheritance edges are entered and its bases queued. |
| `ChgClosure.SearchIsComplete` | svf-llvm/lib/CHGBuilder.cpp:271-293 | An ended search has found every ancestor and nothing else. |
| `ChgClosure.AncestorsOfAncestors` | svf-llvm/lib/CHGBuilder.cpp:264-295 | Ancestors of ancestors are ancestors. |
| `ChgVirtualIds.ConnectedIsEquivalence` | svf-llvm/lib/CHGBuilder.cpp:550-578 | Groups are well defined: being connected by edges in either direction is an equivalence. |
| `ChgBuilder.CHGraph.GroupOf` | svf-llvm/lib/CHGBuilder.cpp:550-578 | The stack search gathers exactly the weakly connected component of a class and marks it. |
| `ChgBuilder.CHGraph.FunctionsOf` | svf-llvm/lib/CHGBuilder.cpp:580-597 | All virtual functions of the group's classes, and no others. |
| `ChgBuilder.CHGraph.NumberFunctions` | svf-llvm/lib/CHGBuilder.cpp:599-631 | The functions are numbered consecutively in the order of name, then function. |
| `ChgBuilder.CHGraph.BuildVirtualFunctionToIDMap` | svf-llvm/lib/CHGBuilder.cpp:536-632 | Exactly the virtual functions get an ID, and each group fills one sorted block of numbers, in the order of the first classes of the groups. |
| `ChgVirtualIds.IdsAreInjective` | svf-llvm/lib/CHGBuilder.cpp:627-630 | No two functions share an ID. |
| `ChgVirtualIds.KeepsIdExactlyWhen` | svf-llvm/lib/CHGBuilder.cpp:627-630 | A function keeps the ID it got with its group if and only if no group numbered later has it. |
| `ChgVirtualIds.SameNamesGetConsecutiveIdsExactlyWhen` | svf-llvm/lib/CHGBuilder.cpp:538-543 | The functions of one name in a group get their IDs in the group's block, without a gap and in their own order, if and only if none of them occurs in a later group. |
| `ChgVirtualIds.NumberingIsUnique` | svf-llvm/lib/CHGBuilder.cpp:536-632 | What is promised of the numbering determines the order in which functions are numbered, and every ID. |
| `ChgVirtualIds.SharedFunctionsBreakRuns` | svf-llvm/lib/CHGBuilder.cpp:627-630 | Whatever meets the promise for two classes that share a function gives the two functions of one name the IDs 0 and 3, with no ID 1 and with another function's ID 2 between them. |
| `ChgBuilder.NumberSharing` | svf-llvm/lib/CHGBuilder.cpp:536-632 | Those are the IDs the algorithm ends up with. |
| `ControlFlow.GetNextInsts` | svf-llvm/lib/LLVMUtil.cpp:851-876 | Appends the next instructions, in successor order, to the caller's list. |
| `ControlFlow.GetPrevInsts` | svf-llvm/lib/LLVMUtil.cpp:879-904 | Appends the previous instructions, in predecessor order. |
| `ControlFlow.NextIsFollows` | svf-llvm/lib/LLVMUtil.cpp:851-876 | They are exactly the instructions reached over intrinsics only. |
| `ControlFlow.PrevIsPrecedes` | svf-llvm/lib/LLVMUtil.cpp:879-904 | Likewise backwards. |
| `ControlFlow.NextAndPrevAreConverse` | svf-llvm/lib/LLVMUtil.cpp:851-904 | Next and previous are converse relations on proper instructions of any well-formed CFG. |
| `ControlFlow.NextOfTerminator` | svf-llvm/lib/ICFGBuilder.cpp:108-128 | A terminator has one next instruction per successor block, in order, which is what the branch counter relies on. |
| `IcfgBuilder.ICFGBuilder.Build` | svf-llvm/lib/ICFGBuilder.cpp:41-63 | For one function, exactly the instructions reachable from the entry over the flow steps are visited, and exactly their edges are made, with calls left from their return node; each edge of an executed terminator is labelled by the block it enters (1 for the true and 0 for the false target of a branch, the case value as a signed 32-bit number, -1 for the default), and every other edge is plain. |
| `IcfgBuilder.ICFGBuilder.ProcessFunEntry` | svf-llvm/lib/ICFGBuilder.cpp:67-87 | The entry is connected to the first proper instructions, which are queued. |
| `IcfgBuilder.ICFGBuilder.ProcessFunBody` | svf-llvm/lib/ICFGBuilder.cpp:92-149 | The worklist visits exactly the reachable instructions, and the graph holds exactly their edges. |
| `IcfgBuilder.ICFGBuilder.Visit` | svf-llvm/lib/ICFGBuilder.cpp:99-147 | One visit adds the edges of that instruction and no others, a return's edge to the exit included. |
| `IcfgBuilder.ICFGBuilder.ProcessFunExit` | svf-llvm/lib/ICFGBuilder.cpp:156-172 | Every return, reachable or not, is connected to the exit. |
| `IcfgBuilder.ConnectKeepsPartly` | svf/lib/Graphs/ICFG.cpp:365-400 | A repeated successor keeps the edge and the condition of its first occurrence. |
| `IcfgBuilder.ConditionsDifferExactlyWhen` | svf-llvm/lib/ICFGBuilder.cpp:119-139 | Conditions tell the two targets of a branch apart, and targets of a switch if and only if their case values (-1 for the default) differ in the low 32 bits. |
| `IcfgBuilder.CaseMinusOneLooksLikeDefault` | svf-llvm/lib/ICFGBuilder.cpp:119-139 | A switch with a case -1 gives it and the default one condition. |
| `IcfgBuilder.VisitComplete` | svf-llvm/lib/ICFGBuilder.cpp:110-146 | After the last successor the graph is exact for one more visited instruction. |
| `IcfgBuilder.FinishedIsLabelled` | svf-llvm/lib/ICFGBuilder.cpp:110-139 | On a finished graph the edge from a terminator into a block has the label its target calls for, in terms of the successor blocks alone. |
| `IcfgBuilder.FinishedIsWired` | svf-llvm/lib/ICFGBuilder.cpp:92-149 | A finished graph has exactly the edges that the flow steps call for. |
| `IcfgBuilder.FromEntryIsExecuted` | svf-llvm/lib/ICFGBuilder.cpp:67-149 | What the search visits is what is executed from the entry by flow steps. |
| `Reachability.WalkIsComplete` | svf-llvm/lib/ICFGBuilder.cpp:92-149 | A worklist search that has ended has visited what is reachable from its start, and nothing else. |
| `TextLines.LinesOfJoin` | svf-llvm/lib/SYN/LightAnalysis.cpp:843-861 | Writing lines back and splitting again gives the same lines. |
| `TextLines.SplitLines` | svf-llvm/lib/SYN/LightAnalysis.cpp:843-849 | The getline loop yields the complete lines and an unfinished last one unless it is empty. |
| `LineEdits.Modification.Adjust` | svf-llvm/lib/SYN/LightAnalysis.cpp:830-841 | The loop over the ordered offsets, stopping early, adds up all offsets of earlier lines. |
| `LineEdits.Modification.AddNewCodeSnippetAfter` | svf-llvm/lib/SYN/LightAnalysis.cpp:822-891 | The new text and offset map, re-keyed and incremented, in terms of the old ones. |
| `LineEdits.Modification.AddNewCodeSnippetBefore` | svf-llvm/lib/SYN/LightAnalysis.cpp:893-962 | The new text and offset map in terms of the old ones, for insertions before a line. |
| `LineEdits.Modification.Replace` | svf-llvm/lib/SYN/LightAnalysis.cpp:964-1010 | The new text in terms of the old one; the offset map stays. |
| `LineEdits.InsertTracksExactlyWhen` | svf-llvm/lib/SYN/LightAnalysis.cpp:822-891 | While offsets are exact, an insertion in any order of targets keeps all lines in place and puts the snippet behind the earlier ones for its line if and only if the target lies before the last line and the snippet is one line (behind the last line it is dropped); offsets stay exact if and only if, besides, no recorded line lies behind the adjusted target. |
| `LineEdits.InsertedCount` | svf-llvm/lib/SYN/LightAnalysis.cpp:843-861 | A snippet of several lines moves what is behind it by more lines than the offset map records. |
| `LineEdits.OffsetsStayExactExactlyWhen` | svf-llvm/lib/SYN/LightAnalysis.cpp:866-887 | The same condition for the offset map alone: the re-keying step loses lines otherwise. |
| `LineEdits.BeforeIsAfterExactlyWhen` | svf-llvm/lib/SYN/LightAnalysis.cpp:822-962 | Inserting before line t equals inserting after line t - 1, text and offsets, if and only if the place is not the very end of the text. |
| `LineEdits.RunTracksExactlyWhen` | svf-llvm/lib/SYN/LightAnalysis.cpp:822-891 | After every insertion of a run text and offsets are right, if and only if all snippets are single lines, all targets lie before the last line, and no earlier target lies behind the place of a later insertion (its target plus the earlier insertions up to it). |
| `LineEdits.NonDecreasingRunTracks` | svf-llvm/lib/SYN/LightAnalysis.cpp:822-891 | After any insertions with non-decreasing targets before the last line, original line L sits at L plus the insertions targeted before it, and snippets at one target are in call order. |
| `LineEdits.ReplaceHitsOriginalLine` | svf-llvm/lib/SYN/LightAnalysis.cpp:964-1010 | While offsets are exact, replacing line L rewrites original line L and no other line. |
| `LineEdits.ReplaceHitsExactlyWhen` | svf-llvm/lib/SYN/LightAnalysis.cpp:964-1010 | While lines are in place, whatever the offsets say, replacing line L rewrites original line L and no other if and only if the offsets of earlier lines add up to the lines inserted before it. |
| `LineEdits.OutOfOrderTargetMisleads` | svf-llvm/lib/SYN/LightAnalysis.cpp:870-881 | After insertions after line 5 and then after line 1 the text is right, but replacing line 6 overwrites the first snippet. |
| `LineEdits.Modification.SetHoleFilling` | svf-llvm/lib/SYN/LightAnalysis.cpp:1441-1482 | Every line of the text is filled, for the numeral that reads as the hole number; the offset map stays. |
| `LineEdits.FillingTracks` | svf-llvm/lib/SYN/LightAnalysis.cpp:1441-1482 | Filling a hole with a C identifier keeps all lines and snippets in place, with the hole filled in both, and the offsets need no change. |
| `HoleFilling.Find` | svf-llvm/lib/SYN/LightAnalysis.cpp:1464-1470 | The leftmost occurrence from a position on, as std::string::find finds it. |
| `HoleFilling.FillLine` | svf-llvm/lib/SYN/LightAnalysis.cpp:1462-1471 | The find-and-replace loop equals one left-to-right pass over the occurrences. |
| `HoleFilling.WrittenExactlyAs` | svf-llvm/lib/SYN/LightAnalysis.cpp:1441-1446 | The text of a number is the one numeral that reads, digit by digit from the left, as the number, without a leading zero and with the sign in front. |
| `HoleFilling.PlaceholdersDiffer` | svf-llvm/lib/SYN/LightAnalysis.cpp:1441-1446 | Different hole numbers have different placeholders. |
| `HoleFilling.NoPlaceholderLeft` | svf-llvm/lib/SYN/LightAnalysis.cpp:1441-1482 | Filling a hole, of any number, with a C identifier leaves no occurrence of "$" followed by the numeral of that number in any line. |
| `HoleFilling.FillingsCommuteExactlyWhen` | svf-llvm/lib/SYN/LightAnalysis.cpp:1462-1471 | Two fillings commute on every line if and only if no number continues the other, or the names differ in just those digits. |
| `HoleFilling.HolesCommute` | svf-llvm/lib/SYN/LightAnalysis.cpp:1441-1482 | Filling two holes of a text in either order gives the same text when neither decimal is a prefix of the other. |
| `InnermostBrackets.InnermostPairs` | svf-llvm/lib/CppUtil.cpp:661-696 | The scan finds exactly the matched pairs that enclose no other matched pair, in closing order. |
| `InnermostBrackets.InnermostByCharacters` | svf-llvm/lib/CppUtil.cpp:661-696 | In terms of characters: an opening and a closing bracket between which nothing but arrows has an angle bracket, the closing one not being an arrow's. |
| `InnermostBrackets.MarksDecide` | svf-llvm/lib/CppUtil.cpp:681-696 | Marks on innermost pairs alone tell whether a pair is innermost. |
| `InnermostBrackets.PopClosing` | svf-llvm/lib/CppUtil.cpp:674-680 | A closing bracket is matched, by the nesting definition, with the top of the stack and nothing else. |
| `InnermostBrackets.PairsNest` | svf-llvm/lib/CppUtil.cpp:667-698 | Matched pairs do not cross. |
| `InnermostBrackets.FindInnermostBrackets` | svf-llvm/lib/CppUtil.cpp:661-705 | The answer is the texts inside those pairs. |
| `InnermostBrackets.InnermostListIsUnique` | svf-llvm/lib/CppUtil.cpp:661-705 | No other answer meets that description. |

## Left out

- The LLVM statistics counters and the debug output of the constant-breaking pass.
- Class-name inference (`inferThisPtrClsName`, `bwFindAllocOrClsNameSources`): the same search again, with string heuristics.
- Calls to functions that do not return, or that return no value, abort the original type inference; the model gives them no successor. Argument positions out of range are treated the same way.
- The map from field index to type, creation of SVF types, and the bookkeeping of the largest struct.
- 32-bit wrap-around of the flat index formula and of ID counters: indices are mathematical integers.
- Variable operands of GEPs are recorded with the access path in the original; the model keeps the constant part of the offset only. Vector types are not modelled.
- The kinds of the edges made for a global initialiser (address, store, copy, null pointer) and the special case for vtables; the model records offset and constant.
- Interval constructors from doubles and unsigned 64-bit numbers, and Z3 itself. Shift amounts of 32 or more, on which the original is undefined or wraps the amount, are excluded.
- `flatten`, vtable handling, and the building of edges from debug metadata in the DWARF hierarchy; tags on which qualifier stripping aborts cannot be written in the model.
- `DchgHierarchy.DCHGraph.ChaOfCanonical`: hierarchies without a cycle of edges followed for the flag only, because the original recursion does not end on one.
- Outgoing edge lists of the DWARF hierarchy, which mirror the incoming ones, and of how class-hierarchy edges come about; demangling is taken as part of a function.
- Call and return edges between functions, the global node, and the creation of node objects in the ICFG; `llvm.donothing` as the target of an invoke, on which skipping intrinsics need not end.
- The value of a switch edge is taken from LLVM as the unique case value of a block, if it has at most 64 bits.
- Line numbers and paths come from debug metadata through libclang and are inputs here; deletions are not modelled. The file context is one file.

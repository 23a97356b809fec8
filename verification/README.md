# Dynamatic passes that must keep a circuit's meaning

Dynamatic turns C kernels into dataflow circuits. This project models the passes and analyses of its compiler in which a
subtle case can change what a circuit computes, and proves what each of them keeps. Widths, shapes, graphs, circuits, runs
and inputs are variables throughout; nothing is fixed to a size.

**Bitwidth optimization, one operation at a time** (`Words`, `Bits`, `Transfer`, `Scalar`, `Expressions`, `RewriteSound`,
`PatternCosts`, `Division`, `ResultUsers`, `DataForward`, `LeastWidths`, `LeastComparisons`, `BranchBounds`, `LeastBounds`).
Values are words of symbolic width; `Wrap`, `Signed` and extension are arithmetic. A transfer function picks a narrower width
and an extension, the narrow operation re-extended is the wide one, and at any smaller width it is not. Bound optimization
and the narrowing of divisions are exact up to a condition on shapes and constants.

**Bitwidth optimization on circuits** (`Circuits`, `CircuitSteps`, `IdleExtensions`, `CircuitShrinks`, `CircuitMeaning`,
`CircuitKeeps`, `CircuitForwarders`, `CircuitTranslation`, `CircuitMatches`, `CircuitLinear`, `CircuitConverse`,
`CircuitTokens`, `CircuitPass`, `CircuitCycles`, `CircuitOptimizer`, `CircuitStraight`, `CircuitEnds`, `CircuitPasses`,
`CircuitTight`, `CircuitDriver`, `CircuitExample`, `CircuitDropped`). A circuit defines each value by a source, an operation on values, or an operation of any
number of data operands and results that hands one operand on; values may be shared, and cycles are allowed. A pattern
application rewrites definitions in place and adds new ones, as the compiler does. The meaning of a value is the set of its
histories: expressions over numbered source tokens in which it is resolved which operand each forwarding operation handed
on; such a token exists only where the control token agrees (the select of a mux, the condition of a branch, what arrived
first at a merge). Every use of a value has a history of its own, so there are more histories than runs: some pair up tokens
that no run does. Any sequence of pattern applications of both passes loses nothing, every history of what the circuit hands
out having a counterpart with the same token, and adds nothing: where shifts yield something, exactly the same tokens can be
handed out. When such sequences end is an if-and-only-if. Where they end, nothing works at more bits than the extensions of
its operands and its users need.

**Forwarding cycles in runs** (`ForwardingCycles`, `CycleNarrowing`, `CycleWalks`). What the search answers is told by walks
back through data operands. Runs are sequences of token productions, each naming
the earlier production it consumes, so that a token's history has any length. `CircuitCycles` carries the result over to
circuits.

**Maximal SSA** (`Regions`, `MaximizeSSA`, `SSASimulation`, `SSAPass`). Regions have blocks with arguments, terminators and
edges that pass operands. A run is the sequence of visited blocks and edges taken. The semantics of an operation is any
function of its operand values and the moment of the visit, so memory and calls are covered.

**Control dependence** (`PostDominance`, `ControlDependence`). Post-dominance is defined by paths to an exit; the
post-dominator tree is given as the tree whose ancestors are exactly the post-dominators.

**Paths, cycles and enforced orderings** (`SimplePaths`, `ChannelCycles`, `GIIDSearch`, `GIIDMeaning`, `WarDependences`).
The memoised search is proved equal to a recursive function, and that function is given a meaning by the trees of tokens
that can arrive on an operand when control has followed a path. One step along the path is the search's own (`OriginOf`);
`GIIDMeaning.OriginExactly` says what it is in terms of visits of blocks.

**Materialization** (`Netlists`, `MaterializeValues`, `ForkRewrites`, `ForkMerges`, `ForkPatterns`, `ForkRuns`, `ForkHusks`,
`ForkOutcome`, `ForkEnds`, `LazyForks`). What an operand draws from is found by following forks back. A merge of two forks
leaves the front one in place; such a fork counts as a husk until it is erased.

**Arithmetic rewrites** (`BalancedTrees`, `TreeHeight`, `ShiftAddTrees`, `NegatedProducts`, `RowMajor`).

## Where the code and what is said about it differ

The model does what the code does. Where a lemma states the difference, it is named.

- `backtrack` (lib/Transforms/HandshakeOptimizeBitwidths.cpp:225-247) has no `else` before its second `if`, so it stops
  after one buffer, fork or branch, while its comment promises to pass any number of them. `CycleNarrowing.Backtrack` and
  `CircuitSteps.BacktrackTo` stop likewise; the result is sound, only less narrow.
- `isOperandInCycle` (lines 321-379) and `backtrack` treat the index result of a control merge like its data result. Where
  such an index is forwarded as data the claim about merged values fails: `ForwardingCycles.ForwardedIndexEscapes` is an
  instance, `ForwardingCycles.EnteredExactly` and `CycleNarrowing.CycleNarrowingExactly` say exactly when.
- `divWidth` (lines 526-529) looks at the dividend only and zero-extends the result, so a narrowed division or remainder can
  change its result; `Division.DivisionExactly` says for which operands it does not.
- The tightness test of `ArithBoundOpt` (lines 1987-2005) reads the constant as signed, and the width of the comparison may
  be less than that of the data. `BranchBounds.OfferLosslessIff` says exactly when the offered width is lossless, for every
  two widths; `BranchBounds.BoundOf191IsLossy` and `BranchBounds.WiderIsLossy` are losses of either kind. For the same reason a
  strict bound that is the sign bit alone is not found tight, and the offer is one bit wider than needed:
  `LeastBounds.OfferLeast`.
- `addWidth`, `subWidth`, `mulWidth` and the comparison pattern take one bit more than needed in a few cases with operands of
  one bit: `LeastWidths.SlackIsRight`, `LeastComparisons.CmpSlackIsRight`.
- The width computed for a cycle asserts if nothing enters the cycle. Unless an index can be forwarded to it, the merge of
  such a cycle never receives a token: `CycleNarrowing.ClosedCycleIsDead`.
- Extensions to the width their operand has, which the verifiers allow, are seen through one by one. A truncation that reads a
  cycle of these moves along it forever: `CircuitEnds.SelfExtensionForever` is an instance, and `CircuitEnds.ForeverExactly`
  says that sequences of pattern applications go on forever exactly if such a circuit can be reached. Where no cycle consists
  of these (of two bits or more), and wherever a token can be on each of them, every sequence ends.
- A shift by a constant may be rewritten so that it no longer waits for its operand, or for the branch its amount comes
  through. Where such a shift never yields a token, one is added: `CircuitDropped.OperandDropped`. A rewrite adds tokens in no
  other way: `CircuitTokens.StartsExactly`.
- A block that post-dominates one of its successors, such as the latch of a bottom-tested loop, is control dependent on
  itself by the definition the analysis cites, but not recorded (lib/Analysis/ControlDependenceAnalysis.cpp:138-141).
  `ControlDependence.RecordedExactly` says which of all dependences are missing, `ControlDependence.LatchNotRecorded` is an
  instance.
- The comment at lib/Support/CFG.cpp:665-666 asks for the data or the condition of a conditional branch to depend on the
  predecessor; the code asks for both. For a mux it speaks of data inputs, while the fold at line 681 includes the select.
  Both only miss orderings: `GIIDMeaning.SearchExact` says what is asked for, `GIIDMeaning.BranchIsConservative` and
  `GIIDMeaning.MuxIsConservative` are circuits on which it is too much.
- `MinimizeForkSizes` removes a fork that feeds only sinks together with the sinks and leaves the forked value without a
  use, so the final check of the pass fails: `ForkOutcome.TwoSinksFail`. `ForkOutcome.PassExactly` says on which inputs.
- The tree-height rewrite erases the inner additions of the tree (lib/Transforms/HandshakeTreeHeightReduction.cpp:66-70)
  without asking whether anything else uses them. `TreeHeight` models additions as trees, in which nothing else does.
- The adder depth stored in an `OpTree` (lib/Transforms/ArithReduceStrength.cpp:46-47) counts every operation, because its
  test is always true; nothing reads it, and `ShiftAddTrees.AdderDepth` counts additions and subtractions.

## Model

| member | source | states |
|---|---|---|
| Transfer.ModBitWidthIsWrap | lib/Transforms/HandshakeOptimizeBitwidths.cpp:282-315 | extending or truncating a minimal value to any width yields the word of the integer it stands for |
| Transfer.ForwardSound | lib/Transforms/HandshakeOptimizeBitwidths.cpp:401-423 | for every operation, every pair of minimal operands and every full width: if the transfer function picks a narrower width, the operation at that width, re-extended by the extension it picks, is the operation at full width |
| Transfer.AddFits | lib/Transforms/HandshakeOptimizeBitwidths.cpp:454-486 | the exact sum fits the width and extension picked for an addition, for all extension mixes |
| Transfer.SubFits | lib/Transforms/HandshakeOptimizeBitwidths.cpp:488-517 | the exact difference fits the width and extension picked for a subtraction |
| Transfer.MulFits | lib/Transforms/HandshakeOptimizeBitwidths.cpp:519-524 | the exact product fits the sum of the widths with the picked extension |
| Transfer.BitwiseForward | lib/Transforms/HandshakeOptimizeBitwidths.cpp:532-586 | and, or and xor at the picked width, re-extended, agree with the full width bit by bit |
| LeastWidths.LeastWidth | lib/Transforms/HandshakeOptimizeBitwidths.cpp:401-586 | the picked width is the least: at any smaller one, whatever the extension, some words of the operands give a wrong result, also where the picked width is not below the full one; exactly so for and, or and xor, and up to one bit for sums and differences of a zero-extended operand and a sign-extended bit and for products with one bit |
| LeastWidths.SlackIsRight | lib/Transforms/HandshakeOptimizeBitwidths.cpp:454-524 | in exactly these cases one bit less is right for all words of the operands |
| Scalar.RequiredBitsIsLeast | lib/Transforms/HandshakeOptimizeBitwidths.cpp:54-62 | the required bitwidth of a constant is the least width at which it survives its extension, in both directions, and never exceeds the declared width |
| Scalar.LogicalShrOfSext | lib/Transforms/HandshakeOptimizeBitwidths.cpp:1433-1533 | a logical right shift of a sign-extended value is the narrow shift by at most the sign position, cut, sign-extended and zero-extended, also for amounts beyond the narrow width |
| Scalar.ArithmeticShrOfSext | lib/Transforms/HandshakeOptimizeBitwidths.cpp:1572-1606 | an arithmetic right shift of a sign-extended value is the narrow shift by at most the sign position, sign-extended, for all amounts |
| Scalar.ShrLow | lib/Transforms/HandshakeOptimizeBitwidths.cpp:1629-1663 | the useful low bits of a right shift by c are right at width useful + c, logical or arithmetic |
| Scalar.ShiftAmountBW | lib/Transforms/HandshakeOptimizeBitwidths.cpp:1629-1663 | the narrowed shift-amount constant keeps its value when the shift is defined and stays at or above the narrow width otherwise |
| Scalar.CmpForwardSound | lib/Transforms/HandshakeOptimizeBitwidths.cpp:1688-1735 | comparing at the picked width gives the answer of the full width, for all predicates, extension mixes and widths |
| LeastComparisons.LeastCmp | lib/Transforms/HandshakeOptimizeBitwidths.cpp:1688-1735 | at no width below the one picked does a comparison have the answer of the full width on all words, up to one bit where only zero or the greatest word is compared without strictness |
| LeastComparisons.CmpSlackIsRight | lib/Transforms/HandshakeOptimizeBitwidths.cpp:1688-1735 | in exactly these cases one bit less has the answer of the full width on all words |
| RewriteSound.MinimalValueOk | lib/Transforms/HandshakeOptimizeBitwidths.cpp:95-130 | the minimal value of an expression, extended back, is the expression's value; constants keep theirs |
| RewriteSound.ShiftBWOk | lib/Transforms/HandshakeOptimizeBitwidths.cpp:1629-1663 | the backward pattern on a right shift by a constant leaves all useful bits as they were |
| RewriteSound.ForwardPatternOk | lib/Transforms/HandshakeOptimizeBitwidths.cpp:1286-1780 | each forward pattern on an operation (binary operations, select, shifts, comparison, truncation of an extension) replaces an expression by a well-typed one of the same width and the same value in every environment |
| RewriteSound.BackwardPatternOk | lib/Transforms/HandshakeOptimizeBitwidths.cpp:1294-1321 | each backward pattern on an operation replaces an expression by one of the same width with the same useful low bits in every environment |
| Division.DivisionExactly | lib/Transforms/HandshakeOptimizeBitwidths.cpp:526-529 | the narrowed division or remainder is defined and right on all operand words if and only if the operands are admitted: zero-extended dividends with divisors that fit, sign-extended dividends of remainders with divisors that all divide the distance between the two widths, and some single sign bits |
| ResultUsers.GetUsefulResultWidth | lib/Transforms/HandshakeOptimizeBitwidths.cpp:261-273 | the useful width is the widest truncation among the users, the full width if some user is neither sink nor truncation, and at least one bit |
| ResultUsers.BackwardInvisible | lib/Transforms/HandshakeOptimizeBitwidths.cpp:859-890 | narrowing to the useful width leaves the bits every truncation takes, and the whole value for any other user |
| DataForward.ComputeDataForwardResult | lib/Transforms/HandshakeOptimizeBitwidths.cpp:766-809 | the common width and extension: one bit more than the widest operand when a zero-extended operand of that width is mixed with others, and sign extension for mixed extensions |
| DataForward.ForwardShapeSound | lib/Transforms/HandshakeOptimizeBitwidths.cpp:766-809 | whichever operand is forwarded, truncating it to the common width and extending the result gives it back |
| LeastWidths.LeastForward | lib/Transforms/HandshakeOptimizeBitwidths.cpp:766-809 | below the common width no extension gives back every word of every operand |
| PatternCosts.ForwardComputesLess | lib/Transforms/HandshakeOptimizeBitwidths.cpp:1313-1315 | every forward pattern on an operation, the one on truncations aside, lowers the sum of computing widths |
| PatternCosts.BackwardComputesLess | lib/Transforms/HandshakeOptimizeBitwidths.cpp:1305-1315 | every backward pattern on an operation lowers the sum of computing widths |
| CircuitShrinks.StepShrinks | lib/Transforms/HandshakeOptimizeBitwidths.cpp:840-893 | every pattern application to a circuit, on operations and on forwarding operations of any number of operands and results, cycles included, keeps it well-formed and lowers the sum of computing and forwarding widths, or the sum of truncation input widths, or how many extensions to the same width truncations look behind, in this order, unless a truncation reads a cycle of these |
| CircuitShrinks.EndlessMeetsCycle | lib/Transforms/HandshakeOptimizeBitwidths.cpp:2110-2130 | every infinite sequence of such applications, whatever narrower width each takes for forwarding operations, comes to a circuit in which a truncation reads a cycle of extensions to their own width |
| CircuitShrinks.NoNewCycle | lib/Transforms/HandshakeOptimizeBitwidths.cpp:282-315 | no pattern application closes a cycle of extensions to their own width |
| IdleExtensions.RankedExactly | lib/Transforms/HandshakeOptimizeBitwidths.cpp:205-220 | values can be ranked along extensions to their own width, of two bits or more, if and only if these form no cycle |
| CircuitKeeps.BacktrackEval | lib/Transforms/HandshakeOptimizeBitwidths.cpp:225-247 | behind the forwarding operations of one operand that backtracking passes, every history of a shift amount yields the constant found there |
| CircuitKeeps.RewrittenSame | lib/Transforms/HandshakeOptimizeBitwidths.cpp:1294-1321 | a rewritten operation, on counterparts of the histories of what it reads, yields the token of the original one, or its useful low bits |
| CircuitForwarders.ForwarderSame | lib/Transforms/HandshakeOptimizeBitwidths.cpp:867-889 | a narrowed forwarding operation hands on what its operands carry, for the same control tokens, if that survives the width; or the low bits |
| CircuitTranslation.Translate | lib/Transforms/HandshakeOptimizeBitwidths.cpp:855-893 | every history of every value has a counterpart after a sound rewrite, which yields the same token whatever the sources deliver, or the low bits at values of which the users need no more |
| CircuitLinear.ForwardReads | lib/Transforms/HandshakeOptimizeBitwidths.cpp:1286-1780 | each forward pattern on an operation reads every operand once, or none but what it needs of a shift by a constant |
| CircuitConverse.Recover | lib/Transforms/HandshakeOptimizeBitwidths.cpp:855-893 | in every environment, every token that a history can yield after a sound rewrite, some history could yield before, or one with the same low bits, unless a rewritten shift carries tokens that it did not |
| CircuitTokens.StartsExactly | lib/Transforms/HandshakeOptimizeBitwidths.cpp:1433-1533 | a rewrite lets some value carry tokens that carried none if and only if it rewrites a shift that does |
| CircuitTokens.ShiftsStillCarry | lib/Transforms/HandshakeOptimizeBitwidths.cpp:1433-1663 | where every shift yields some token, every shift does after a rewrite |
| CircuitPass.UsefulIsUseful | lib/Transforms/HandshakeOptimizeBitwidths.cpp:261-273 | the useful width of a value of a circuit is that of its users |
| CircuitPass.UsefulAgrees | lib/Transforms/HandshakeOptimizeBitwidths.cpp:865-872 | what is narrowed to the useful width, of all results of an operation, is used only by truncations to at most that width and not handed out |
| CircuitPass.ForwardSurvives | lib/Transforms/HandshakeOptimizeBitwidths.cpp:766-809 | whatever the operands of a forwarding operation may carry survives the common width |
| CircuitCycles.CycleSurvives | lib/Transforms/HandshakeOptimizeBitwidths.cpp:1194-1224 | whatever may arrive on the operands of a merge-like operation in a circuit survives the width computed for its cycle |
| CircuitOptimizer.PassStepKeeps | lib/Transforms/HandshakeOptimizeBitwidths.cpp:2110-2123 | one pattern application of either pass, cycle pattern included, keeps everything: every history of what is handed out has a counterpart that yields the same token whatever the sources deliver, and where shifts yield something exactly the same tokens can be handed out |
| CircuitOptimizer.PassKeepsOutputs | lib/Transforms/HandshakeOptimizeBitwidths.cpp:2125-2130 | so does any sequence of pattern applications, in both directions |
| CircuitStraight.StraightExactly | lib/Transforms/HandshakeOptimizeBitwidths.cpp:2125-2130 | where nothing is handed on and sources deliver one token, a value has one history, and after any sequence of pattern applications that of what is handed out has the same value in every environment |
| CircuitDropped.OperandDropped | lib/Transforms/HandshakeOptimizeBitwidths.cpp:1433-1533 | a shift of a token that a branch never hands on becomes a constant, which is handed out |
| CircuitDropped.BranchIsNotSingle | lib/Transforms/HandshakeOptimizeBitwidths.cpp:2125-2130 | what is kept excludes turning a conditional branch into an unconditional one |
| CircuitEnds.ForeverExactly | lib/Transforms/HandshakeOptimizeBitwidths.cpp:2125-2130 | from a circuit there is an infinite sequence of pattern applications if and only if one reaches a circuit in which a truncation reads a cycle of extensions to their own width |
| CircuitEnds.CycleGoesOn | lib/Transforms/HandshakeOptimizeBitwidths.cpp:1754-1776 | in every such circuit a pattern applies to the truncation and leaves such a circuit |
| CircuitEnds.PassEnds | lib/Transforms/HandshakeOptimizeBitwidths.cpp:2125-2130 | where no cycle consists of extensions to their own width of two bits or more, no sequence of pattern applications goes on forever |
| CircuitEnds.LivePassEnds | lib/Transforms/HandshakeOptimizeBitwidths.cpp:2125-2130 | nor where a token can be on every such extension |
| CircuitEnds.SelfExtensionForever | lib/Transforms/HandshakeOptimizeBitwidths.cpp:1754-1776 | a circuit with an extension of itself to its own width, which is rewritten forever |
| CircuitPasses.CycleStepIsStep | lib/Transforms/HandshakeOptimizeBitwidths.cpp:1194-1224 | the width found for a cycle by listing the minimal values behind what enters it is the one whose soundness is proved |
| CircuitTight.SettledIsTight | lib/Transforms/HandshakeOptimizeBitwidths.cpp:2125-2130 | where no pattern applies, told on the definitions: no binary operation, comparison or forwarding operation, cycles of merge-like ones included, works at more bits than some words its operands are extended from need (one bit more in the cases named above); no sum, difference, right shift by a constant, selection or forwarding operation at more than some user needs; no shift by a constant has an operand it could be moved behind the extension of; no truncation reads an extension it cuts; selections between a zero- and a sign-extended value aside |
| CircuitTight.AndIsNarrow | lib/Transforms/HandshakeOptimizeBitwidths.cpp:532-550 | for example, a conjunction is then no wider than what an operand is zero-extended from |
| CircuitTight.GraphExactly | lib/Transforms/HandshakeOptimizeBitwidths.cpp:321-379 | the graph in which cycles are searched shows of every value which operation makes it and which values that hands on |
| CircuitDriver.FindStep | lib/Transforms/HandshakeOptimizeBitwidths.cpp:2110-2123 | finds a pattern of the pass that applies to some operation of the circuit, or none applies to any |
| CircuitDriver.ApplyPass | lib/Transforms/HandshakeOptimizeBitwidths.cpp:2110-2123 | one pass keeps everything that is handed out, in both directions, leaves none of its patterns applicable, and reports a change exactly if the circuit shrank |
| CircuitDriver.Optimize | lib/Transforms/HandshakeOptimizeBitwidths.cpp:2125-2130 | the loop over both passes terminates where extensions to their own width form no cycle, keeps everything the circuit hands out, in both directions, leaves no pattern of either pass applicable, and so nothing at more bits than the extensions of operands and the users need, as `SettledIsTight` says |
| CircuitExample.LoopNarrows | lib/Transforms/HandshakeOptimizeBitwidths.cpp:1194-1224 | a loop through a mux and a buffer that the forward pattern leaves at eight bits and the cycle pattern narrows to the four that enter it |
| CircuitExample.LoopHistory | lib/Transforms/HandshakeOptimizeBitwidths.cpp:321-379 | a token that has gone round this loop is a history of what it hands out |
| ForwardingCycles.CycleSearch.IsOperandInCycle | lib/Transforms/HandshakeOptimizeBitwidths.cpp:321-379 | the recursive search answers exactly when the operand is in a forwarding cycle and adds exactly the merged values to the set |
| ForwardingCycles.CycleSearch.RecurseMergeLike | lib/Transforms/HandshakeOptimizeBitwidths.cpp:354-371 | a merge-like operation is in the cycle if one data operand is, and then the others are merged values |
| CycleWalks.InCycleExactly | lib/Transforms/HandshakeOptimizeBitwidths.cpp:321-379 | the answer is true if and only if some walk back through data operands ends at the result or at an operation that it has passed before |
| CycleWalks.MergedExactly | lib/Transforms/HandshakeOptimizeBitwidths.cpp:321-379 | exactly which values are merged: data operands of an operation on a walk that passes none twice and can close, which themselves cannot |
| ForwardingCycles.CycleSound | lib/Transforms/HandshakeOptimizeBitwidths.cpp:321-379 | in every run, when the search answers true, every token on the operand was forwarded there, unchanged, from the result, from a merged value or from an index of a control merge |
| ForwardingCycles.ForwardedIndexEscapes | lib/Transforms/HandshakeOptimizeBitwidths.cpp:321-379 | a circuit in which the one-bit index of a control merge of two operands leads to the result and a run whose token is on none of the entering values |
| ForwardingCycles.CollectEntering | lib/Transforms/HandshakeOptimizeBitwidths.cpp:1194-1212 | the values that enter the cycle: merged values of operands in it, and the other operands |
| CycleWalks.EnteringExactly | lib/Transforms/HandshakeOptimizeBitwidths.cpp:1194-1212 | exactly which values enter, in terms of walks back through data operands |
| ForwardingCycles.ResultTokensEntered | lib/Transforms/HandshakeOptimizeBitwidths.cpp:1194-1212 | every token on the merge's result entered the cycle unchanged at an earlier point of the run, or is an index |
| ForwardingCycles.EnteredExactly | lib/Transforms/HandshakeOptimizeBitwidths.cpp:1194-1212 | in all runs every token on the merge's result entered its cycle, if and only if no control merge's index can be forwarded there past the entering values |
| CycleNarrowing.BacktrackLoop | lib/Transforms/HandshakeOptimizeBitwidths.cpp:225-247 | the loop computes the backtracked value: one forwarding operation, then any chain of single-operand merges |
| CycleWalks.BacktrackExactly | lib/Transforms/HandshakeOptimizeBitwidths.cpp:225-247 | backtracking leads to a value if and only if a trail through single data operands does that stops there and no sooner: behind the first buffer, fork or unconditional branch, at an operation with several data operands or none, or at one passed before |
| CycleNarrowing.BacktrackTokens | lib/Transforms/HandshakeOptimizeBitwidths.cpp:225-247 | unless backtracking goes through an index, every token on a value was, unchanged, on the value it leads to |
| CycleNarrowing.MinimalTokens | lib/Transforms/HandshakeOptimizeBitwidths.cpp:205-220 | every token on a value is the extension of a word of its minimal width |
| CycleNarrowing.OperandNarrowed | lib/Transforms/HandshakeOptimizeBitwidths.cpp:1221-1224 | bringing the minimal word of a token to a narrower width yields the low bits of the token |
| CycleNarrowing.ResultTokensNarrow | lib/Transforms/HandshakeOptimizeBitwidths.cpp:1214-1219 | if no index leads to the merge, every token on its result survives truncation to the cycle's width and re-extension |
| CycleNarrowing.CycleNarrowingExactly | lib/Transforms/HandshakeOptimizeBitwidths.cpp:1182-1249 | whenever the pattern applies: every token on every channel of every run is the same before and after narrowing, if and only if no control merge's index can be forwarded to the merge; indices number the operands and have the least width for that |
| CycleNarrowing.ClosedCycleIsDead | lib/Transforms/HandshakeOptimizeBitwidths.cpp:1214-1219 | if nothing enters the cycle, where the width computation asserts, no token ever reaches the merge's result, if and only if no index can be forwarded to it |
| BranchBounds.BestOffers | lib/Transforms/HandshakeOptimizeBitwidths.cpp:1801-1919 | the chosen width on each side is the smallest any comparison offers; the false side is refused for conjunctions |
| LeastBounds.CmpOpsExactly | lib/Transforms/HandshakeOptimizeBitwidths.cpp:1957-1985 | exactly the comparisons that conjunctions alone lead to are collected |
| LeastBounds.OfferExactly | lib/Transforms/HandshakeOptimizeBitwidths.cpp:2007-2050 | a comparison offers if and only if the data is one of its operands and the other one equals it or bounds it as an unsigned word and is not sign-extended |
| BranchBounds.HoldsImpliesOps | lib/Transforms/HandshakeOptimizeBitwidths.cpp:1957-1985 | when a conjunction holds, so does every comparison collected from it |
| BranchBounds.OfferLossless | lib/Transforms/HandshakeOptimizeBitwidths.cpp:2007-2050 | unless misjudged or too wide: on the side chosen by getBranchToOptimize the data is its truncation to the offered width, re-extended, including the tighter width of tight bounds |
| BranchBounds.OfferLosslessIff | lib/Transforms/HandshakeOptimizeBitwidths.cpp:1987-2050 | for every width of the comparison and of the data, the offer is lossless for all inputs if and only if neither the tightness test misjudges a constant that reads as negative, nor the data is sign-extended and wider than a comparison against a full-width channel (of two bits or more if strict) |
| LeastBounds.OfferLeast | lib/Transforms/HandshakeOptimizeBitwidths.cpp:1987-2050 | for data that may be any word of the comparison: a width below the offered one loses data on the optimized side, if and only if it is not one bit less and the bound the sign bit alone, approached strictly |
| BranchBounds.MisjudgedIsLossy | lib/Transforms/HandshakeOptimizeBitwidths.cpp:1987-2005 | every misjudged constant has an input on the optimized side that loses bits |
| BranchBounds.BoundOf191IsLossy | lib/Transforms/HandshakeOptimizeBitwidths.cpp:1987-2005 | a concrete misjudged bound: eight-bit data compared below 191 is cut to seven bits, and 130 is changed |
| BranchBounds.WiderIsLossy | lib/Transforms/HandshakeOptimizeBitwidths.cpp:2033-2050 | every comparison of that second kind has an input on the optimized side that loses the sign bits |
| BranchBounds.BranchLossless | lib/Transforms/HandshakeOptimizeBitwidths.cpp:1801-1919 | for every condition made of comparisons and conjunctions, what a chosen offer does to the data its side hands on loses nothing unless the comparison that gave the choice is of one of the two kinds |
| BranchBounds.UsersUnaffected | lib/Transforms/HandshakeOptimizeBitwidths.cpp:2052-2067 | extending only to the width the users need leaves every truncation's bits |
| MaximizeSSA.Converter.AddArgToTerminator | lib/Transforms/FuncMaximizeSSA.cpp:49-66 | appends the value on every edge of a branch-like terminator to the successor, and fails otherwise without a change |
| MaximizeSSA.Converter.PassFromPredecessors | lib/Transforms/FuncMaximizeSSA.cpp:136-157 | all predecessors pass the value to the block, and those not yet found join the worklist |
| MaximizeSSA.Converter.MaximizeValue | lib/Transforms/FuncMaximizeSSA.cpp:99-170 | the worklist ends with exactly the least set of blocks closed under use and predecessors given an argument, and the region rewritten accordingly; it fails only if some forced predecessor cannot pass operands |
| MaximizeSSA.ClosureExactly | lib/Transforms/FuncMaximizeSSA.cpp:99-170 | the blocks that receive an argument are exactly those from which some way leads to a use of the value without passing its definition |
| MaximizeSSA.Converter.ReplaceByArguments | lib/Transforms/FuncMaximizeSSA.cpp:159-168 | all uses outside the defining block become the block's new argument |
| SSASimulation.MaximizedWellFormed | lib/Transforms/FuncMaximizeSSA.cpp:49-66 | every edge still passes as many operands as its target has arguments |
| SSASimulation.ClosureBelow | lib/Transforms/FuncMaximizeSSA.cpp:118-157 | if definitions dominate uses, only blocks dominated by the definition receive an argument, never the entry |
| SSASimulation.Simulation | lib/Transforms/FuncMaximizeSSA.cpp:99-170 | in every run, at every moment, every original value has the value it had before |
| SSASimulation.ArgumentHoldsValue | lib/Transforms/FuncMaximizeSSA.cpp:118-157 | whenever control is in a block that received an argument, it holds the value from the latest visit to the defining block |
| SSASimulation.OperandsSame | lib/Transforms/FuncMaximizeSSA.cpp:159-168 | every operation, terminators included, reads the same operand values in every run |
| SSAPass.UsesOfMaximized | lib/Transforms/FuncMaximizeSSA.cpp:159-168 | after a conversion a value is used only where it is defined, as a new argument, or where it was used before |
| SSAPass.MaximizedRefines | lib/Transforms/FuncMaximizeSSA.cpp:99-170 | one conversion keeps validity, all runs and all locality, and makes the value local |
| SSAPass.ConversionsRefine | lib/Transforms/FuncMaximizeSSA.cpp:204-214 | so does any series of conversions |
| SSAPass.ConvertedIsLocal | lib/Transforms/FuncMaximizeSSA.cpp:204-214 | a converted value stays local whatever is converted after it |
| SSAPass.UnconvertedSameUses | lib/Transforms/FuncMaximizeSSA.cpp:204-214 | a value that no conversion converts keeps exactly its uses, by operations and on edges |
| SSAPass.ArgumentsCount | lib/Transforms/FuncMaximizeSSA.cpp:99-170 | a block gains exactly one argument for each conversion that has to pass its value to it |
| SSAPass.MaximizeOp | lib/Transforms/FuncMaximizeSSA.cpp:172-182 | all selected results of one operation are converted, and nothing else |
| SSAPass.MaximizeArguments | lib/Transforms/FuncMaximizeSSA.cpp:184-192 | all selected arguments of one block are converted, and nothing else |
| SSAPass.MaximizeBlock | lib/Transforms/FuncMaximizeSSA.cpp:184-202 | all selected arguments, then all selected results of selected operations of one block are converted, and nothing else |
| SSAPass.ConvertBlocks | lib/Transforms/FuncMaximizeSSA.cpp:204-214 | the loop over the blocks converts every selected value of the region, and nothing else |
| SSAPass.MaximizeRegion | lib/Transforms/FuncMaximizeSSA.cpp:204-214 | on success no run distinguishes the regions, every selected value is local, every other value keeps exactly its uses, blocks gain exactly the arguments that pass selected values on, and with all hooks true the region is SSA-maximized; it succeeds whenever all terminators are branch-like |
| PostDominance.NearestCommonAncestor | lib/Analysis/ControlDependenceAnalysis.cpp:123-125 | the nearest common ancestor in the post-dominator tree: a common ancestor below all others |
| PostDominance.FindTreePath | lib/Analysis/ControlDependenceAnalysis.cpp:73-94 | the depth-first search pushes exactly the path down to the node, and leaves the path as it was if there is none |
| ControlDependence.RecordedOnPath | lib/Analysis/ControlDependenceAnalysis.cpp:127-145 | an edge adds its target and what lies strictly between it and the nearest common ancestor: exactly what post-dominates the target but not the source |
| ControlDependence.ControlDependenceAnalysis.IdentifyDirectDeps | lib/Analysis/ControlDependenceAnalysis.cpp:107-147 | the recorded relation is, between different blocks, control dependence by paths; on a block itself, having an edge to itself |
| ControlDependence.RecordedExactly | lib/Analysis/ControlDependenceAnalysis.cpp:107-147 | a block is recorded as dependent on another by the analysis' result if and only if a chain of control dependences by paths leads there, apart from blocks on themselves that only they themselves account for: those that post-dominate a successor, have no edge to themselves and lie on no longer chain |
| ControlDependence.LatchNotRecorded | lib/Analysis/ControlDependenceAnalysis.cpp:138-141 | a bottom-tested loop whose latch depends on itself without this being recorded in the closure |
| ControlDependence.ControlDependenceAnalysis.AddDepsOf | lib/Analysis/ControlDependenceAnalysis.cpp:164-183 | one block takes over the dependences of its dependences, staying within the closure |
| ControlDependence.ControlDependenceAnalysis.AddDepsOfDeps | lib/Analysis/ControlDependenceAnalysis.cpp:156-186 | the loop terminates with exactly the transitive closure |
| ControlDependence.SaturatedHoldsChain | lib/Analysis/ControlDependenceAnalysis.cpp:156-186 | a set of dependences the loop no longer changes contains every chain of direct dependences |
| ControlDependence.NumberFrom | lib/Analysis/ControlDependenceAnalysis.cpp:191-204 | the search numbers exactly the blocks without a number that it reaches, depth first: next comes the first successor without a number of the latest block that has one |
| ControlDependence.OrderIsUnique | lib/Analysis/ControlDependenceAnalysis.cpp:191-205 | there is only one such numbering from the entry |
| ControlDependence.DominatorIsLower | lib/Analysis/ControlDependenceAnalysis.cpp:191-214 | a dominator has a lower number than the blocks it dominates |
| ControlDependence.ControlDependenceAnalysis.IdentifyForwardDeps | lib/Analysis/ControlDependenceAnalysis.cpp:188-220 | forward dependences are exactly those on blocks with lower depth-first numbers; they form no cycle and every dependence on a dominator is among them |
| ControlDependence.ControlDependenceAnalysis.constructor | lib/Analysis/ControlDependenceAnalysis.cpp:107-154 | the analysis ends with the chains of control dependence by paths, apart from the self-dependences named in `RecordedExactly`, and their forward part; a region of one block is left without dependences |
| SimplePaths.HandshakeCFG.GetNonCyclicPaths | lib/Support/CFG.cpp:395-404 | exactly the simple paths from source to destination, each once |
| SimplePaths.HandshakeCFG.FindPathsTo | lib/Support/CFG.cpp:476-493 | appends exactly the simple continuations of the path so far, each once |
| ChannelCycles.Circuit.Search | lib/Support/CFG.cpp:737-755 | the depth-first search with one visited set finds a way to the channel or leaves a set of channels nothing leads out of |
| ChannelCycles.Circuit.IsChannelOnCycle | lib/Support/CFG.cpp:734-758 | true if and only if a non-empty def-use path leads back to the channel without passing a memory controller or LSQ |
| GIIDSearch.FoldOr | lib/Support/CFG.cpp:526-547 | success if some operand succeeds, else on-path failure if some operand fails on the path, else off-path failure |
| GIIDSearch.FoldAnd | lib/Support/CFG.cpp:556-579 | on-path failure if some operand fails on the path, else success if some operand succeeds, else off-path failure |
| GIIDSearch.DropTo | lib/Support/CFG.cpp:622-640 | shortens the path to the last visit of a block, if there is one |
| GIIDSearch.IsGIIDRec | lib/Support/CFG.cpp:586-727 | the memoised search returns the status of the unmemoised one and keeps the memo correct |
| GIIDSearch.ResolveOperand | lib/Support/CFG.cpp:659-725 | the case distinction on the defining operation, folding statuses of its operands |
| GIIDSearch.IsGIID | lib/Support/CFG.cpp:729-732 | true exactly if the unmemoised search succeeds |
| GIIDMeaning.SucceedHasChain | lib/Support/CFG.cpp:586-727 | success means a def-use chain from the predecessor whose blocks move only backward along the path, by one block across a backedge |
| GIIDMeaning.OriginExactly | lib/Support/CFG.cpp:600-650 | a token used at the end of a path was made at the latest visit of the defining block, or across a backedge one block before the end, if control was there |
| GIIDMeaning.SearchSound | lib/Support/CFG.cpp:586-727 | success means every token that can arrive along the path was computed from the predecessor's |
| GIIDMeaning.SearchExact | lib/Support/CFG.cpp:526-727 | in every circuit: the search succeeds if and only if it asks for every token that can arrive (of a branch: some input is, and all made on the path are; of a mux: the select is, or it was made elsewhere and the input is), and fails on the path if and only if some token made there is not asked for |
| GIIDMeaning.AsksAllExactly | lib/Support/CFG.cpp:526-727 | the search succeeds on an operand if and only if it asks for every token that can arrive there |
| GIIDMeaning.PlainSearchExact | lib/Support/CFG.cpp:586-727 | without conditional branches and muxes the search succeeds if and only if every token that can arrive was computed from the predecessor's |
| GIIDMeaning.BranchIsConservative | lib/Support/CFG.cpp:662-669 | a branch on which the search fails although every token depends on the load: both data and condition are asked to depend on it |
| GIIDMeaning.MuxIsConservative | lib/Support/CFG.cpp:674-682 | a mux on which the search fails although every token depends on the load: the fold includes the select |
| WarDependences.IsStoreGIIDOnLoad | lib/Transforms/HandshakeDeactivateMemDependencies.cpp:53-80 | true if and only if there is a simple path between the blocks and on each one the search asks for every token that can arrive on the first operand of the store, or for every one on its second; fails exactly if a block is unknown |
| WarDependences.IncrementWaits | lib/Transforms/HandshakeDeactivateMemDependencies.cpp:74-79 | a store of an incremented element waits for the load by its data, not by its address |
| WarDependences.ScatterWaits | lib/Transforms/HandshakeDeactivateMemDependencies.cpp:74-79 | a store to the address that was loaded waits by its address, not by its data |
| WarDependences.EnforcedWaits | lib/Transforms/HandshakeDeactivateMemDependencies.cpp:63-80 | then on every simple path one store operand has a backward-moving chain from the load, and no token arrives there that was not computed from what the load read |
| WarDependences.UpdateDeps | lib/Transforms/HandshakeDeactivateMemDependencies.cpp:98-110 | deactivates exactly the enforced dependences of one load and keeps the others as they are |
| WarDependences.Dependences.DeactivateEnforcedWARs | lib/Transforms/HandshakeDeactivateMemDependencies.cpp:85-117 | does so for every load, or fails on an operation without a block |
| MaterializeValues.HandshakeFunc.VerifyIRMaterialized | lib/Transforms/HandshakeMaterialize.cpp:42-71 | true if and only if every dataflow value has exactly one use |
| MaterializeValues.HandshakeFunc.ReplaceFirstUse | lib/Transforms/HandshakeMaterialize.cpp:83-92 | replaces exactly the first operand that holds the value |
| MaterializeValues.HandshakeFunc.MaterializeValue | lib/Transforms/HandshakeMaterialize.cpp:96-130 | the value gets exactly one use, so does every new fork result, single uses and operand producers are kept, also when one operation uses the value several times |
| MaterializeValues.HandshakeFunc.InsertFork | lib/Transforms/HandshakeMaterialize.cpp:109-130 | a fork with as many results as uses takes them over one by one |
| MaterializeValues.HandshakeFunc.InsertForksAndSinks | lib/Transforms/HandshakeMaterialize.cpp:427-437 | after the first phase every dataflow value has exactly one use and every operand still draws from its producer |
| Netlists.Netlist.OneProducer | lib/Transforms/HandshakeMaterialize.cpp:96-130 | following forks back leads to one producer at most |
| ForkPatterns.MinimizeForkSizes | lib/Transforms/HandshakeMaterialize.cpp:239-275 | applies exactly to forks with a result without real use and yields the shrunk fork, or none, without the sinks |
| ForkRewrites.MinimizedSources | lib/Transforms/HandshakeMaterialize.cpp:239-275 | shrinking a fork keeps the producer of every operand |
| ForkRewrites.MinimizedExactly | lib/Transforms/HandshakeMaterialize.cpp:239-275 | where every value has one use, shrinking a fork keeps it so if and only if the fork has a real use; otherwise the forked value ends without uses |
| ForkPatterns.EraseSingleOutputForks | lib/Transforms/HandshakeMaterialize.cpp:329-343 | applies exactly to forks with one result not fed by a lazy fork, and bypasses them |
| ForkMerges.BypassSound | lib/Transforms/HandshakeMaterialize.cpp:329-343 | bypassing keeps the producer of every operand |
| ForkPatterns.EliminateForksToForks | lib/Transforms/HandshakeMaterialize.cpp:283-320 | applies exactly to forks fed by a fork and yields the merged fork, with an extra result if the value between has other uses |
| ForkMerges.MergeSources | lib/Transforms/HandshakeMaterialize.cpp:283-320 | merging keeps the producer of every operand, with and without other uses of the value between |
| ForkRuns.RewritesKeepSources | lib/Transforms/HandshakeMaterialize.cpp:440-454 | any interleaving of the three patterns keeps the producer of every operand of every operation that is not a fork or sink |
| ForkEnds.RewritingEnds | lib/Transforms/HandshakeMaterialize.cpp:440-454 | there is no infinite sequence of applications of the three patterns |
| ForkEnds.RewriteShrinks | lib/Transforms/HandshakeMaterialize.cpp:239-343 | each application lowers how far forks are behind forks, or their number, or the number of their results, in this order |
| ForkHusks.RewritesAffine | lib/Transforms/HandshakeMaterialize.cpp:440-454 | after every step each dataflow value has at most one use by something that is not a husk, a fork that a merge has left behind |
| ForkOutcome.RunsEndMaterialized | lib/Transforms/HandshakeMaterialize.cpp:440-462 | in whatever order the patterns are applied, merged forks staying in place until something erases them: if no value is forked to sinks only, every dataflow value has exactly one use when none applies any more |
| ForkOutcome.RunsEndExactly | lib/Transforms/HandshakeMaterialize.cpp:440-462 | if minimizing is tried first on each fork: when none applies any more every dataflow value has exactly one use, if and only if no value was forked to sinks only |
| ForkOutcome.PassExactly | lib/Transforms/HandshakeMaterialize.cpp:427-462 | if minimizing is tried first on each fork, as the patterns are listed: the final check of the pass succeeds if and only if no value of the input with several uses, or feeding a fork, leads to sinks only |
| ForkOutcome.NeitherForksNorSinks | lib/Transforms/HandshakeMaterialize.cpp:417-462 | a circuit without forks and sinks meets this condition |
| ForkOutcome.TwoSinksFail | lib/Transforms/HandshakeMaterialize.cpp:239-275 | one argument that feeds two sinks: the final check of the pass fails |
| LazyForks.PromoteFork | lib/Transforms/HandshakeMaterialize.cpp:171-229 | every use of a result that leads to a group allocation, or of the only other result, becomes one of the lazy fork; uses of several others become uses of an eager fork fed by its last result, in the same order; the lazy fork takes the operand over, and nothing else changes |
| LazyForks.PromotedPlaces | lib/Transforms/HandshakeMaterialize.cpp:195-225 | what is put where is told on the netlists, for every use of every result |
| LazyForks.PromotedResult | lib/Transforms/HandshakeMaterialize.cpp:171-229 | every new result, the bridge between the forks aside, replaces exactly one old result |
| LazyForks.PromotedMaterialized | lib/Transforms/HandshakeMaterialize.cpp:171-229 | promotion keeps every value at one use and every operand at its producer |
| TreeHeight.Collect | lib/Transforms/HandshakeTreeHeightReduction.cpp:39-48 | collects the operands in order, and the additions below the root, each after those it uses |
| TreeHeight.EvalIsSum | lib/Transforms/HandshakeTreeHeightReduction.cpp:33-70 | a tree of additions yields the sum of its operands modulo the width, whatever its shape |
| TreeHeight.LowestExactly | lib/Transforms/HandshakeTreeHeightReduction.cpp:51-53 | a tree has the rounded-up logarithm of its operand count as height if and only if no tree over as many operands is lower |
| TreeHeight.MatchAndRewrite | lib/Transforms/HandshakeTreeHeightReduction.cpp:33-80 | applies exactly to trees that are not as low as possible, and yields a strictly lower tree of least height over the same operands, made of new additions only, with the same value for all inputs and widths |
| BalancedTrees.BuildHeight | lib/Transforms/HandshakeTreeHeightReduction.cpp:56-65 | the tree built by halving has the rounded-up logarithm of its leaf count as height |
| BalancedTrees.BuildIsLowest | lib/Transforms/HandshakeTreeHeightReduction.cpp:56-65 | no binary tree with as many leaves is lower |
| ShiftAddTrees.GetOneBitPositions | lib/Transforms/ArithReduceStrength.cpp:315-322 | the positions of the one-bits in increasing order |
| ShiftAddTrees.OneBitsSum | lib/Transforms/ArithReduceStrength.cpp:315-322 | the powers of two at these positions add up to the constant |
| ShiftAddTrees.TreeDepthIsCeil | lib/Transforms/ArithReduceStrength.cpp:340-348 | the computed depth is the rounded-up logarithm of the number of one-bits |
| ShiftAddTrees.AdderTreeValue | lib/Transforms/ArithReduceStrength.cpp:362-384 | a tree of additions over shifted copies computes the value times the sum of the powers, modulo the width |
| ShiftAddTrees.GetBitwiseAdderTree | lib/Transforms/ArithReduceStrength.cpp:334-389 | fails exactly if more adders would be chained than allowed; otherwise the tree computes x * c modulo every width at which c is positive, at the depth no other tree of additions undercuts |
| ShiftAddTrees.TreeBuilder.BuildTreeRecursive | lib/Transforms/ArithReduceStrength.cpp:68-127 | the operations created compute the tree on all inputs; one is created for the tree and one for each different constant and subtree of its operands for which none was created before |
| ShiftAddTrees.TreeBuilder.BuildTreeOperand | lib/Transforms/ArithReduceStrength.cpp:75-105 | the returned value computes the operand; one operation is created for each different constant and subtree of it for which none was created before |
| NegatedProducts.ReplacementKeeps | lib/Transforms/ArithReduceStrength.cpp:200-246 | an addition or subtraction that uses x * (-1) and the operation that replaces it have the same value for all inputs and widths |
| NegatedProducts.UsesOneLess | lib/Transforms/ArithReduceStrength.cpp:200-246 | every replacement uses the product once less: not at all, unless both operands were the product |
| RowMajor.FlattenIndices | lib/Transforms/FlattenMemRefRowMajor.cpp:52-114 | the loop over the indices, with shifts where the product is a power of two, computes the row-major rank without overflow |
| RowMajor.RankBelow | lib/Transforms/FlattenMemRefRowMajor.cpp:70-77 | the rank of an index vector in range is below the number of elements |
| RowMajor.RankOrders | lib/Transforms/FlattenMemRefRowMajor.cpp:50-51 | ranks are ordered as index vectors are lexicographically |
| RowMajor.RankOnto | lib/Transforms/FlattenMemRefRowMajor.cpp:186-222 | every position of the flat memory is the rank of an index vector |
| RowMajor.FlatRefines | lib/Transforms/FlattenMemRefRowMajor.cpp:134-178 | every run of loads and stores returns the same on the flat memory, the initial contents being laid out in row-major order |

## Left out

- MinimalTokens: channels have at least one bit.
- CycleNarrowingExactly: a run lets an operation produce any token its width holds, and a control merge any of its indices, whenever it likes; that a particular index never occurs is not known to it.
- ForwardPatternOk: a shift by a constant at or above the width has no defined value; expressions that contain one may change. `RewriteSound.Defined` excludes them.
- PassKeepsOutputs: that nothing is added needs every shift to yield some token (`CircuitDropped.OperandDropped` fails without). Which source tokens are paired up, and when tokens arrive, is not part of a history.
- PassStepKeeps: the index of a control merge is a source of the circuit; an index that is forwarded to a merge is the subject of `CycleNarrowing.CycleNarrowingExactly`. Bound optimization and divisions, which can change values, and dialect canonicalization are not steps; values used by sinks only count as unused.
- PassEnds: dialect folding, which removes extensions to their own width, is not part of this model.
- OfferLossless: constants fit the machine word that the tightness test uses; the word is a variable. Data that is an extension to its own width, which the verifiers allow, is excluded (`BranchBounds.IsMinimalAt`).
- MaximizeRegion: the pass hooks are functions of positions; the default exclusion of memory allocations is one such strategy.
- ControlDependenceAnalysis: blocks that cannot reach an exit have no post-dominator tree by paths, and artificial roots for them are not modelled; a block without an entry in the map has an empty set.
- NearestCommonAncestor: stands for the tree's own query, as the tree construction is not part of this model.
- SearchExact: which operand a token came along and how far back on the path it was made is taken from the search's own step, which `OriginExactly` describes by visits of blocks.
- SearchSound: whether a use is a backedge is given, and uses that are not backedges are acyclic.
- MaterializeValue: the order in which a value's users take over fork results is not fixed by the model, and basic-block attributes are left out.
- RunsEndExactly: the driver is taken to try minimizing before the other two patterns on each fork, in the order in which they are listed; in other orders `RunsEndMaterialized` holds.
- PromoteFork: the results that lead to group allocations are given, because the port layout of load-store queues is not part of this model.
- SettledIsTight: products and bitwise operations are not narrowed to what their users need, nor selections between a zero- and a sign-extended value, because no pattern does either.
- MatchAndRewrite: inner additions have no other users.
- FlattenIndices: the number of elements fits the machine word of index arithmetic; the compiler's own 64-bit product is not wrapped.
- ReplacementKeeps: each use is replaced by itself; an addition that uses the product twice is visited twice by the compiler, which is not modelled.
- BuildTreeRecursive: equal subtrees are created once; the compiler compares addresses of subtrees and creates equal ones at different addresses again.
- GetBitwiseAdderTree: constants of more than 64 bits, on which the compiler asserts, are treated like others.
- Mux select and control-merge index widths, memory port and memory interface address widths: they depend on dialect code.
- Constant replication behind forks, dialect canonicalization, pattern drivers, name bookkeeping, insertion points, diagnostics and statistics.
- Write-after-write deactivation: one comparison of names.
- Numeric range analysis, loop rotation and signed-comparison promotion: their range operations are not part of this model.
- Cycle-level handshake timing, buffer slots and floating point.
- Exporters, the dot printer and parser, the shell frontend, buffer placement and timing models.

# Verified models of analysis and registration code of the DirectX shader compiler's LLVM

This project models six pieces of the repository in Dafny and proves properties of the models for all
inputs, all runs or all reachable states.

* **Pointer arithmetic of basic alias analysis** (`Arith`, `GepModel`, `LinearExpression`, `IndexValues`,
  `LinearChains`, `Decomposition`, `IndexDifference`, `OffsetRules`, `FieldRule`, `AliasGEP`, `ByteGeps`,
  `CastExamples`). Integer expressions have a value at their bit width,
  GEP chains have an address, and two accesses do not alias when no byte of one is a byte of the other on the circle
  of 2^64 addresses. The methods follow `GetLinearExpression`, `DecomposeGEPExpression`, `GetIndexDifference`,
  `aliasSameBasePointerGEPs` and `aliasGEP` branch by branch, with 64-bit wrap-around written out.
* **The recursive alias query** (`QueryModel`, `QueryRuns`, `ObjectKinds`, `QueryRules`, `QueryAnswers`, `AliasQuery`,
  `QueryExamples`, `LoopExample`, `TurnExample`, `ConstantMemory`). `aliasCheck`, `aliasGEP`, `aliasSelect` and
  `aliasPHI` are methods of one object that share the cache of location pairs and the visited phi blocks; `aliasGEP`
  runs the rules of `AliasGEP` on the pointer expressions themselves. The recursion ends because every nested query
  starts from a cache with one more pair in it, and every answer follows from answers given. Truth is truth in
  executions: a phi is where its source was when its block was last entered, so behind a phi a query is about one value
  at an earlier moment and another at a later one, and values and indices are equal only if no visited block leads to
  them. On a value graph without cycles no query is answered by an entry that is still being worked on, and if GEPs off
  phis, selects and other GEPs only step up, every answer is true at every moment of every execution, loops included:
  no two legal accesses share a byte. What the pairs asked about must satisfy for that is `QueryRuns.TurnsGood`. Where
  such a GEP steps down, or selects change their minds between two turns, the answer can be wrong, and for one family
  of programs each exactly when is proved.
* **AliasSetTracker** (`AliasGroups`, `Components`, `TrackerState`, `TrackerSteps`, `AliasPartition`, `TrackerRuns`,
  `TrackerRemovals`, `CopiesAndRemovals`, `AliasSetTracking`, `PointerLists`). An object whose methods merge, forward, count references and
  compress paths as the C++ does, and that keeps the links of the intrusive lists of pointer records consistent with
  what the sets hold. Its groups are exactly the connected components of the may-alias and mod/ref
  relation on what was added.
* **Once-only initialization** (`OnceProtocol`, `OnceRegistry`, `OnceRuns`, `OnceProgress`). A transition system with
  any number of threads, one flag per pass and a call stack per thread.
* **Branch probabilities** (`BranchModel`, `TwoWayBranches`, `BranchWeights`, `BranchRules`, `BranchProbability`,
  `BranchTotals`, `HotSuccessors`, `BranchPredictions`, `SetSums`). The heuristics as methods over a weight map, filled
  in post-order, and what their predictions come to in the map after a run.
* **Mod/ref answers for calls** (`ModRefModel`, `ModRefInfo`, `ModRefRanges`) and **the byte-to-literal printer**
  (`EmbedHeader`), the latter against a reader of C++ string literals (sections 5.2, 5.13.3 and 5.13.5 of
  ISO/IEC 14882:2017).

`dafny verify dfyconfig.toml` checks everything.

## What is assumed

* **Alias oracle of the tracker** (`AliasGroups.Lawful`): symmetric; must-aliasing pointers are those at one place
  with room for an access; pointers at one place cannot be told apart; a larger access never aliases less.
* **Helpers of basic alias analysis**: known-zero bits, simplification and the data layout are functions with the
  contracts in `GepModel`. `QueryRuns.KindTrue` says of every test on a value by itself what it means for the object the
  value points into: identified, local and non-escaping values made their object, constants point to what constants
  made, arguments to nothing local but their own, null to the null object and non-null values to others, and loads and
  calls to nothing that does not escape. That two kinds rule each other out is proved from that
  (`ObjectKinds.KindsDiffer`), and that they do in no other case (`ObjectKinds.KindsExact`). `QueryRuns.ValueTrue` adds
  sizes and values without legal accesses, and `QueryRuns.NextTrue` the next analysis of the chain.
* **Executions** (`QueryRuns.Respects`, `QueryRuns.GepComputed`): objects keep their places, a pointer computed from
  another points into the same object, a select is one of its arms, a phi is where its source was at the last entry of
  its block, and what a block does not lead to is the same at a moment and at the last entry of the block. A GEP starts
  inside its object and does not leave the address space, and the walk over its indices takes it for its own address
  (`Decomposition.ExactPointer`). When that is so is proved: for indices by `IndexValues.CastFreeIndex`,
  `IndexValues.FoldedIndex` and their instances, for pointers by `Decomposition.ExactWalkIsExact`. The moments of an
  execution are those at which every value has been computed from its operands as they are. `QueryExamples.NowCovered`
  and `LoopExample.TurnsCovered` show that there are such executions, the latter one of two turns of a loop.
* **Pairs asked about** (`QueryRuns.TurnsGood`): on every way to a pair a query looks through phis of the same blocks, or
  one of its values is the same at both moments. Between different moments there are no two phis of one block, selects
  on one condition only if it never changes, equal decompositions only of unchanged variables, and fields only off an
  unchanged pointer. For executions in which every phi is where its source is at the same moment none of that is needed
  (`QueryRuns.AtOnceGood`).
* **Access sizes**: a known size is exact, as the rule about objects smaller than an access needs it; an unknown size is
  any length from the pointer on.
* **Post-order**: `BranchModel.PostOrder` is what a depth-first walk guarantees. The target of an edge comes first,
  or it reaches the source.
* **Passes**: a default member of an analysis group is the default pass of that group, as it is for the one group of
  the repository. Steps touch shared state one at a time, in the order of the program text.
* **Calls and instructions**: `ModRefModel.SoundAnswers` says when what single analyses report covers what calls do.
  `ModRefRanges.Behaves` says what each kind of instruction touches, a va_arg writing some part of every object it reads
  from since it advances the list, and `ModRefRanges.ConstantMeans` that no instruction writes constant memory and no
  va_arg writes in an object that has some.

## Where the code and its documentation differ

* The constant-offset rule of `aliasGEP` answers `NoAlias` for two accesses that do share a byte when one is longer
  than 2^63 bytes: `OffsetRules.LongAccessComesRound`. For accesses up to that size the rules are exact
  (`OffsetRules.ApplyOffsetRules`).
* `aliasGEP` takes `NoAlias` of a base at unknown size for an answer about every pointer based on it. The offset rules
  give that answer when the base is a select of pointers above the other access, and then a GEP that steps down from
  the select may be the other pointer: `QueryExamples.DescentExample`. For such programs the answer is true if and only
  if no offset gets back to the other access (`QueryExamples.DescentExact`); without descending GEPs off phis, selects
  and GEPs all answers are true. `AliasGEP.ForwardExact` is the condition on one GEP.
* `aliasSelect` compares two selects on one condition arm by arm, also behind a phi, where they may be of different
  turns of a loop. For p = phi o, s against t, with s = select c, a, b and t = select c, b, a, the query answers NoAlias
  (`TurnExample.AskTurn`); that is true if and only if the condition never changes (`TurnExample.TurnExact`).
* An index is read as scale * residue + offset, with the offsets below a cast zero extended. Where all operations are
  below the casts, that is the value exactly when it is in the range of the residue's width, and otherwise it is off by
  whole turns of that width (`IndexValues.FoldedIndex`). So sext(x + c) is read right if and only if the addition of the
  unsigned constant c stays in range, unless the element size makes up for a turn (`IndexValues.SumBelowCast`). For two
  bytes off one object, sext(x + c) and d + sext(x), `aliasGEP` answers by c - d alone (`CastExamples.SumAnswer`), and
  its NoAlias is true if and only if the bytes are also apart one turn lower (`CastExamples.OverflowExact`);
  `CastExamples.OverflowBelowCast` is a pair for which they are not. A plain index of one bit is read with scale -1, so
  the walk steps the other way; two bits or more is the exact condition (`IndexValues.LeafIndexExact`,
  `CastExamples.OneBitIndex`).
* `EltsDontOverlap` adds offsets and sizes in 64 bits. Once it says yes it is right exactly when neither sum
  overflowed: `FieldRule.FieldRuleOverflow`, with an example where one does.
* `DecomposeGEPExpression` and `GetUnderlyingObject` are documented to agree. They do exactly when the walk meets no
  GEP over an unsized type (`Decomposition.WalksAgree`), so always on IR that passes lib/IR/Verifier.cpp:2544.
* Edge weights are documented to be at least 1 (include/llvm/Analysis/BranchProbabilityInfo.h:89-96). After a run a
  weight is 0 exactly when it comes from metadata and is less than what the weights of its block are divided by:
  `BranchTotals.EdgeIsZero`, with the example `BranchTotals.EdgeIsZeroExample`. The sum of a block is 0 exactly when all
  of them are: `BranchTotals.TotalIsZero`.
* The weights of the destinations of a block add up to its sum where weights are set. Where they are not, that fails
  exactly when a destination occurs twice: `BranchTotals.DefaultDestinations`.
* `pointsToConstantMemory` answers no, without asking the next analysis, when it runs out of lookups with work left: for
  a phi of n constant globals exactly when n is 8 (`ConstantMemory.PhiOfGlobals`). It says yes of its own exactly if the
  objects are good and form a tree of at most 8 different ones (`ConstantMemory.YesExact`).
* The floating-point heuristic is commented as finding f1 == f2 unlikely. It finds ordered equality likely, because
  `isTrueWhenEqual` lists only predicates that also hold for unordered operands (lib/IR/Instructions.cpp:3233-3239); its
  verdict is the documented one exactly for the other predicates (`TwoWayBranches.FloatVerdictExact`). Equality and its
  negation are both said to be likely (`TwoWayBranches.OrderedEqualLikely`).
* `getHotSucc` asserts that its sum grows with every successor. After a run it does exactly when no successor had all its
  metadata weights scaled to 0 and the weights, each as often as the successor has edges, fit 32 bits
  (`HotSuccessors.HotSuccAsserts`).
* The first member of a must set is commented as having the maximum size. After `deleteValue` it need not have, and then
  the test of that one member misses what a longer member overlaps: `CopiesAndRemovals.RemovalExample`. The test of a
  must set stays exact if and only if its first member has the greatest size (`CopiesAndRemovals.ShortcutExactIff`).

## Model

| member | source | states |
|---|---|---|
| LinearExpression.GetLinearExpression | lib/Analysis/BasicAliasAnalysis.cpp:196-264 | For every expression and all values of its leaves, value = Scale * value(R) + Offset modulo 2 to the width of R, through any nesting of add, mul, in-range shl, disjoint or, sext and zext; R is reached by first operands, and with fewer than six steps taken it is no add, mul or shl by a constant, no or of disjoint bits with one, no sext unless entered zero extended and no zext unless entered sign extended |
| LinearChains.ChainForm | lib/Analysis/BasicAliasAnalysis.cpp:207-238 | For sums, products, in-range shifts and disjoint ors with constants nested up to the depth over a leaf, R is the leaf, Offset is what they compute from 0 and Scale what they compute from 1 less that, both modulo the width |
| LinearChains.ChainIsLinear | lib/Analysis/BasicAliasAnalysis.cpp:216-237 | What such operations compute is that polynomial of the leaf, over the integers |
| LinearChains.ChainCollected | lib/Analysis/BasicAliasAnalysis.cpp:361-399 | As a 64-bit index they leave one variable, the leaf, at the element size times the slope, and the element size times the value at 0 as constant, wrapped to 64 bits |
| LinearExpression.NoCastKeepsWidth | lib/Analysis/BasicAliasAnalysis.cpp:241-263 | When no cast was looked through the residue has the width of the expression, so the congruence is exact at that width |
| LinearExpression.IntegerFormHolds | lib/Analysis/BasicAliasAnalysis.cpp:196-264 | Where no operation below an extension overflows, the value read through casts is Scale * residue + Offset over the integers, the residue read by the extension it is entered with: exactly below an extension, modulo the width elsewhere |
| LinearExpression.WrappedIsInteger | lib/Analysis/BasicAliasAnalysis.cpp:216-237 | Without a cast, Scale and Offset as the code wraps them are those over the integers modulo the width |
| LinearExpression.ExtensionForm | lib/Analysis/BasicAliasAnalysis.cpp:244-259 | A linear form of the operand modulo 2 to the residue's width is one of its sign or zero extension too |
| LinearExpression.ValueIsFolded | lib/Analysis/BasicAliasAnalysis.cpp:196-264 | With every operation below the casts, the value is the form folded into the range of the residue's width, and the form itself exactly when the form is in that range |
| IndexValues.FoldedIndex | lib/Analysis/BasicAliasAnalysis.cpp:356-374 | Such an index is taken for its value if and only if what it is taken for is in range, and is exact for an element size if and only if size times the excess goes round the pointer width |
| IndexValues.SumIndex | lib/Analysis/BasicAliasAnalysis.cpp:361-372 | An index of additions below an extension, any number of them and any casts above them, is exact if and only if it does not leave the range or the element size makes up for a whole turn |
| IndexValues.SumBelowCast | lib/Analysis/BasicAliasAnalysis.cpp:216-259 | sext(x + c) is its value less a turn exactly where the signed sum with the unsigned c leaves the range, and exact for an element size if and only if it does not or size * 2^w goes round |
| IndexValues.SumOfNarrow | lib/Analysis/BasicAliasAnalysis.cpp:361-364 | The same for x + c under the implicit extension of a narrow index, c read as a signed constant |
| IndexValues.PlainIndex | lib/Analysis/BasicAliasAnalysis.cpp:361-374 | An index the walk cannot look into is exact if it has two bits or more; one of a single bit is taken for its negation |
| IndexValues.LeafIndexExact | lib/Analysis/BasicAliasAnalysis.cpp:361-374 | A leaf is exact at all values if and only if it has two bits or more or twice the element size goes round |
| IndexValues.CastFreeIndex | lib/Analysis/BasicAliasAnalysis.cpp:361-372 | An index as wide as a pointer and read through no cast is exact at all values |
| IndexValues.InRangeIndex | lib/Analysis/BasicAliasAnalysis.cpp:216-259 | Whatever casts and operations it is read through, an index is exact where nothing overflows below an extension and wrapping keeps its constants |
| IndexValues.NarrowIndex | lib/Analysis/BasicAliasAnalysis.cpp:361-364 | A narrow index read through no cast keeps its constants if they fit its width |
| Decomposition.AddVariableIndex | lib/Analysis/BasicAliasAnalysis.cpp:356-399 | At all values, constant offset and entry sum together move by size times what the index is taken for, modulo 2 to the pointer width; they move by size times its value if and only if the index is exact; the entry of the residue is taken out, summed, fitted to the pointer width and put back last unless 0; a new entry is of the expression inside the index where the walk must stop |
| Decomposition.AddIndex | lib/Analysis/BasicAliasAnalysis.cpp:338-400 | One GEP index, struct field, constant or variable, moves the decomposition by the bytes it is taken for, at all values |
| Decomposition.AddIndices | lib/Analysis/BasicAliasAnalysis.cpp:335-400 | All indices of a GEP together move the decomposition by the bytes they are taken for, at all values |
| Decomposition.DecomposeGEPExpression | lib/Analysis/BasicAliasAnalysis.cpp:282-409 | On every return, also at the depth limit, and at all values: base address + BaseOffs + sum of scale * variable is the address the walk takes V for, modulo 2 to the pointer width, and V's own address if and only if the walk is exact; constant indices leave no variables; every variable is where the walk into an index on the way must stop; no duplicate (value, extension), no zero scale; the base is six pointers down, and the limit is reported, or fewer and there is nothing to look through: no cast, no alias that stays what it is, no GEP over a sized type |
| Decomposition.ExactWalkIsExact | lib/Analysis/BasicAliasAnalysis.cpp:294-405 | The walk is exact where every index on the way is, through any GEPs |
| Decomposition.OneIndexExact | lib/Analysis/BasicAliasAnalysis.cpp:333-400 | Off a base that is exact, a GEP with one index is if and only if its index is for the element size |
| Decomposition.WalksAgree | lib/Analysis/BasicAliasAnalysis.cpp:275-278 | The decomposition's base is the underlying object if and only if the walk meets no GEP over an unsized type |
| IndexDifference.SubtractEntry | lib/Analysis/BasicAliasAnalysis.cpp:1484-1511 | Subtracting one entry leaves Dest denoting its old value minus that entry modulo 2^64, for two valuations that agree where the equality oracle says so; no variable that the oracle accepts gets a second entry |
| IndexDifference.GetIndexDifference | lib/Analysis/BasicAliasAnalysis.cpp:1478-1512 | Dest denotes old Dest minus Src modulo 2^64, in one valuation and across two that agree on accepted values; entry by entry the first match is reduced, or dropped at equal scales, or the negated entry goes last; zero-free, and without two entries for a variable that the oracle accepts |
| OffsetRules.DisjointIffGap | lib/Analysis/BasicAliasAnalysis.cpp:1102-1129 | Two byte ranges on the circle of 2^64 addresses are disjoint if and only if each ends before the other starts again |
| OffsetRules.ScaleModulo | lib/Analysis/BasicAliasAnalysis.cpp:1133-1137 | Modulo is the largest power of two that divides every scale |
| OffsetRules.ReachMultiple | lib/Analysis/BasicAliasAnalysis.cpp:1131-1147 | Some values of the variables make the difference any multiple of Modulo on the circle: the rule loses nothing |
| OffsetRules.ConstantApart | lib/Analysis/BasicAliasAnalysis.cpp:1098-1129 | With a constant difference the ranges are disjoint if and only if the sizes fit the gap on both sides |
| OffsetRules.VariablesApart | lib/Analysis/BasicAliasAnalysis.cpp:1131-1147 | With variables the ranges are disjoint for every value of every variable, wrap-around included, if and only if V2Size <= ModOffset and V1Size <= Modulo - ModOffset |
| OffsetRules.ApplyOffsetRules | lib/Analysis/BasicAliasAnalysis.cpp:1089-1156 | Every answer is sound for all values of the variables; MustAlias exactly for a zero difference; for accesses up to 2^63 bytes NoAlias is answered whenever it is true, except for a negative constant against an access of unknown size |
| OffsetRules.LongAccessComesRound | lib/Analysis/BasicAliasAnalysis.cpp:1102-1108 | An access of 2^63 + 2 bytes makes the constant rule wrong: the ranges share a byte and the rule says NoAlias |
| FieldRule.FieldRuleExact | lib/Analysis/BasicAliasAnalysis.cpp:914-923 | Without overflow the rule says NoAlias if and only if the two fields are disjoint for every pair of multiples of the struct size, that is for all array indices |
| FieldRule.FieldRuleOverflow | lib/Analysis/BasicAliasAnalysis.cpp:914-919 | Once EltsDontOverlap holds the fields are disjoint if and only if neither offset + size overflowed 64 bits |
| FieldRule.FieldRuleOverflowExample | lib/Analysis/BasicAliasAnalysis.cpp:914-923 | A size near 2^64 for which the rule says NoAlias and the fields meet |
| FieldRule.ApartMeansNoAlias | lib/Analysis/BasicAliasAnalysis.cpp:896-908 | Disjoint fields of structs reached through arrays from one pointer give accesses that share no byte, whatever the indices of each |
| FieldRule.AliasSameBasePointerGEPs | lib/Analysis/BasicAliasAnalysis.cpp:836-926 | NoAlias only for GEPs that end in different constant fields of one struct type through arrays, and then exactly when the fields are apart |
| AliasGEP.DecideByOffsets | lib/Analysis/BasicAliasAnalysis.cpp:1077-1156 | From bases at one address the answer of the offset rules on the subtracted decompositions is true at all values at which both walks are exact |
| AliasGEP.DecideBySameOffsets | lib/Analysis/BasicAliasAnalysis.cpp:972-1006 | Decides exactly when the decompositions are equal or a walk does not end at its underlying object: NoAlias for the first, since both pointers are as far from bases that do not alias at the access sizes, MayAlias for the second |
| AliasGEP.AliasGEP | lib/Analysis/BasicAliasAnalysis.cpp:933-1157 | End to end: from true answers about the bases, NoAlias means that no byte is shared and MustAlias equal addresses modulo 2^64, at all values of the variables at which the walks are exact; where the bases' own NoAlias decides, this is for accesses that end within 2^63 bytes above their bases; across two turns of a cycle the answer holds for every pair of valuations agreeing on accepted values; fields and offsets are consulted whenever the bases must alias, and equal offsets decide exactly when the bases may alias but do not at the one access size |
| AliasGEP.ForwardExact | lib/Analysis/BasicAliasAnalysis.cpp:1044-1053 | NoAlias of a base at unknown size carries over to an access at distance d, whatever the addresses, if and only if it ends within 2^63 bytes of the base |
| CastExamples.SumAnswer | lib/Analysis/BasicAliasAnalysis.cpp:1057-1129 | Of byte sext(x + c) and byte d + sext(x) off one object, the only answer the rules can give is NoAlias if and only if ranges c - d apart share no byte, and MustAlias if and only if c is d modulo 2^64 |
| CastExamples.AskSum | lib/Analysis/BasicAliasAnalysis.cpp:933-1157 | aliasGEP run on the two pointers gives that answer |
| CastExamples.OverflowExact | lib/Analysis/BasicAliasAnalysis.cpp:244-259 | NoAlias is true of them at all values of x if and only if they are apart at c - d and, when the sum can overflow, at a turn of x's width less |
| CastExamples.OverflowBelowCast | lib/Analysis/BasicAliasAnalysis.cpp:244-259 | For sext(x + 1) and sext(x) - 255, x of 8 bits, four bytes each, the answer is NoAlias, and at x = 127 the two addresses are one |
| CastExamples.HarmlessSum | lib/Analysis/BasicAliasAnalysis.cpp:244-259 | sext(x + 255) at x = -128 is read right although 255 is -1 as a constant of 8 bits |
| CastExamples.OneBitIndex | lib/Analysis/BasicAliasAnalysis.cpp:361-374 | Off any element type, the walk takes a GEP with a plain one-bit index for the element on the other side of the base: base - size * index for base + size * index; exact at both values if and only if twice the size goes round the address space |
| QueryRuns.MergeClaims | lib/Analysis/BasicAliasAnalysis.cpp:1159-1169 | A merged answer is true wherever either of its parts is |
| QueryModel.MergeAbsorbs | lib/Analysis/BasicAliasAnalysis.cpp:1238-1240 | Once MayAlias, always MayAlias: leaving a merging loop at MayAlias loses nothing; merging does not depend on order or grouping |
| QueryModel.MergeSaysBoth | lib/Analysis/BasicAliasAnalysis.cpp:1159-1169 | A merged answer is NoAlias or MustAlias exactly if both parts are, and says that the accesses overlap exactly if both do |
| QueryModel.StripEnds | lib/IR/Value.cpp:423-469 | Stripping goes down to what is no cast, no alias that stays what it is and no GEP whose indices are all 0 |
| QueryModel.UnderEnds | lib/Analysis/ValueTracking.cpp:2807-2835 | The underlying object is as many pointers down as the limit allows, or fewer and not computed from another pointer |
| ObjectKinds.KindsDiffer | lib/Analysis/BasicAliasAnalysis.cpp:1340-1369 | By what each test on a value says of its object alone, two different values whose kinds the early tests rule out never point into one object |
| ObjectKinds.KindsExact | lib/Analysis/BasicAliasAnalysis.cpp:1340-1369 | The tests are exact: they rule out two different values if and only if no object could be what both point into |
| QueryRules.TrueThere | lib/Analysis/BasicAliasAnalysis.cpp:1316-1317 | A true answer for a pair that another leads to is true of the two moments at which the other is asked |
| QueryRules.CoveringMeets | lib/Analysis/BasicAliasAnalysis.cpp:1423-1434 | If one access has the size of the object that both pointers are in, any two legal accesses that are not empty share a byte |
| QueryRules.SelectsTogether | lib/Analysis/BasicAliasAnalysis.cpp:1178-1191 | Answers for the arms of two selects on one condition merge to a true answer for the selects, at one moment, and at two between which the condition does not change |
| QueryRules.SelectAgainst | lib/Analysis/BasicAliasAnalysis.cpp:1193-1202 | Answers for both arms against another value merge to a true answer for the select |
| QueryRules.PhiPairs | lib/Analysis/BasicAliasAnalysis.cpp:1215-1251 | What holds at the last entry of the block for the values two phis of it take over every edge holds for the phis |
| QueryRules.PhiSources | lib/Analysis/BasicAliasAnalysis.cpp:1254-1286 | What holds for every source of a phi as it was at the last entry of its block, against the other pointer as it is later, holds for the phi |
| QueryRules.BasesApart | lib/Analysis/BasicAliasAnalysis.cpp:1008-1053 | What rules out an access from the base on rules out the GEP's: for plain bases because GEPs stay in their objects, for phis, selects and GEPs if the GEP only steps up |
| QueryRules.EqualOffsets | lib/Analysis/BasicAliasAnalysis.cpp:972-1006 | Bases whose legal accesses of one size share no byte leave GEPs as far from them whose legal accesses share none, also of two moments |
| QueryRules.FieldsHold | lib/Analysis/BasicAliasAnalysis.cpp:1033-1041 | The field rule's NoAlias is true of all legal accesses: they leave no room for an overflow |
| QueryRules.OffsetsHold | lib/Analysis/BasicAliasAnalysis.cpp:1066-1156 | The offset rules' answer is true of all legal accesses when the bases are at one place |
| QueryRules.GepAnswerTrue | lib/Analysis/BasicAliasAnalysis.cpp:933-1157 | Whatever the rules for GEPs answer is true of the two moments the pair is asked about if the answers about the bases are, given that an index is taken for equal only where no visited block leads to it |
| QueryRules.HeedfulAgrees | lib/Analysis/BasicAliasAnalysis.cpp:1487-1494 | An equality oracle that refuses what a visited block leads to gives two valuations that agree, for any two moments between which only visited blocks were entered |
| QueryAnswers.EarlyDecides | lib/Analysis/BasicAliasAnalysis.cpp:1297-1378 | Each early test by itself, kinds, sizes, null, undef and scalars, is enough for NoAlias |
| QueryAnswers.CoveringIsPartial | lib/Analysis/BasicAliasAnalysis.cpp:1423-1434 | An access to the whole of a common object makes the rest of the query answer PartialAlias |
| QueryAnswers.NextSource | lib/Analysis/BasicAliasAnalysis.cpp:1276-1284 | Merging in one more source keeps: NoAlias or MustAlias when all sources said so, anything weaker only when not all agree on one of them |
| AliasQuery.AskedBelow | lib/Analysis/BasicAliasAnalysis.cpp:1224-1246 | What is asked on the way to the answer for a pair weighs less than the pair, so its key is that of no pair still being worked on: no nested query reads a speculative or provisional entry |
| AliasQuery.CacheWith | lib/Analysis/BasicAliasAnalysis.cpp:1247-1249 | A true answer of the rules put over the entry of a pair being worked on makes the cache true and backed by the rules again |
| AliasQuery.EqualExact | lib/Analysis/BasicAliasAnalysis.cpp:1442-1473 | Values taken for equal have one place at any two moments between which only visited blocks were entered; up to 20 blocks a value is taken for equal to itself exactly if that is so, beyond exactly if it is no instruction |
| AliasQuery.EqualIndexHeeds | lib/Analysis/BasicAliasAnalysis.cpp:1442-1473 | An index is taken for equal to itself only, never if a visited block leads to it, and always if none does and there are at most 20 |
| AliasQuery.EarlyTrue | lib/Analysis/BasicAliasAnalysis.cpp:1297-1378 | What the tests before the cache decide is true of the two moments the pair is asked about |
| AliasQuery.BasicAliasAnalysis.Alias | lib/Analysis/BasicAliasAnalysis.cpp:451-465 | A query from an empty cache terminates and clears the cache and the visited blocks; every answer, of rules and whole queries, follows from answers given; without cycles no query is answered by an entry on the way; and if GEPs off phis, selects and GEPs only step up the answer is true at every moment of every execution, also where phis take their values from earlier turns of a loop, for programs whose pairs are foreseen |
| AliasQuery.BasicAliasAnalysis.AliasCheck | lib/Analysis/BasicAliasAnalysis.cpp:1292-1440 | Terminates, with the pairs not yet in the cache as measure; answers by the early tests, else by the cached entry, else by GEPs, phis, selects and the rest in that order, and caches that; leaves older entries alone and visited blocks visited, and only blocks of phis join them; once the blocks between them are visited, the answer is true of the first value at one moment and the second at another |
| AliasQuery.BasicAliasAnalysis.EarlyTests | lib/Analysis/BasicAliasAnalysis.cpp:1297-1378 | The tests before the cache, in their order; what they decide is true of the two moments the pair is asked about |
| AliasQuery.BasicAliasAnalysis.CheckCache | lib/Analysis/BasicAliasAnalysis.cpp:1380-1439 | A hit answers with the entry and changes neither cache nor visited blocks; a miss is answered by the rules, and the answer is cached under the ordered key |
| AliasQuery.BasicAliasAnalysis.Begin | lib/Analysis/BasicAliasAnalysis.cpp:1386-1389 | On a miss MayAlias goes in under the ordered key before any nested query, and one pair fewer is unseen |
| AliasQuery.BasicAliasAnalysis.ClimbUses | lib/Analysis/BasicAliasAnalysis.cpp:1391-1439 | The first rule with an answer other than MayAlias decides, with a GEP, a phi, then a select swapped to the front; the answer is stored under the key of the unswapped pair |
| AliasQuery.BasicAliasAnalysis.AliasGEP | lib/Analysis/BasicAliasAnalysis.cpp:933-1157 | Asks about the bases at unknown size, and at the access size when they may alias and the sizes are equal, and answers by the rules for fields and offsets on the pointer expressions with those answers; what it answers is true of the two moments, indices being equal only where no visited block leads to them |
| AliasQuery.BasicAliasAnalysis.AliasSelect | lib/Analysis/BasicAliasAnalysis.cpp:1173-1203 | Arm by arm for selects on one condition, else both arms; MayAlias from the first ends it, otherwise the merge of the two answers |
| AliasQuery.BasicAliasAnalysis.AliasPHI | lib/Analysis/BasicAliasAnalysis.cpp:1207-1287 | Called only with its pair's entry in the cache under the ordered key; the phi's block is visited before any source is asked about and stays so; same-block phis answer NoAlias exactly when every edge does, others answer what all sources, each as it was at the last entry of the block, agree on; true as above |
| AliasQuery.BasicAliasAnalysis.PhiAgainstPhi | lib/Analysis/BasicAliasAnalysis.cpp:1215-1252 | The pair's entry is NoAlias afterwards if the speculation held and its old value otherwise |
| AliasQuery.BasicAliasAnalysis.PhiAgainstValue | lib/Analysis/BasicAliasAnalysis.cpp:1254-1286 | MayAlias for a phi of phis; NoAlias or MustAlias only when all different sources say so |
| AliasQuery.BasicAliasAnalysis.UniqueSources | lib/Analysis/BasicAliasAnalysis.cpp:1254-1266 | The different incoming values, each once, unless one of them is a phi |
| QueryExamples.NowCovered | lib/Analysis/BasicAliasAnalysis.cpp:1292-1440 | A program with an object of known size, GEPs, a select and a GEP off it has executions of both kinds that the answers speak of |
| QueryExamples.UpwardProgram | lib/Analysis/BasicAliasAnalysis.cpp:1292-1440 | Without the GEP off the select it has the same executions and every premise of the truth of the answers |
| QueryExamples.AskDescent | lib/Analysis/BasicAliasAnalysis.cpp:1044-1053 | For d below a select of u + a and u + b, both past an access at u, the query answers NoAlias, whatever d |
| QueryExamples.DescentAnswer | lib/Analysis/BasicAliasAnalysis.cpp:1044-1053 | In every record of answers that follow from each other, that is the only answer |
| QueryExamples.DescentExact | lib/Analysis/BasicAliasAnalysis.cpp:1044-1053 | That answer is true at every moment if and only if neither offset, less d, gets back to the bytes at u inside the object |
| QueryExamples.DescentExample | lib/Analysis/BasicAliasAnalysis.cpp:1044-1053 | 8 below a select of u + 8 and u + 12, in an object of 16 bytes: NoAlias, and at some moment one address |
| QueryExamples.LoadMayBeLocal | lib/Analysis/BasicAliasAnalysis.cpp:1356-1369 | Whatever is loaded may be a local object if and only if the object does not stay local: NoAlias is true in every execution exactly then, and exactly then the early tests say it |
| LoopExample.TurnsCovered | lib/Analysis/BasicAliasAnalysis.cpp:1207-1287 | A loop with g = a + (i + k), h = a + i and p = phi b, g has an execution of two turns in which p is the g of the turn before |
| LoopExample.LoopMeets | lib/Analysis/BasicAliasAnalysis.cpp:1310-1317 | So no true answer for p and h is NoAlias or MustAlias, whatever the step and the sizes |
| LoopExample.AskLoop | lib/Analysis/BasicAliasAnalysis.cpp:1292-1440 | The query about p and h answers neither |
| TurnExample.TurnAnswer | lib/Analysis/BasicAliasAnalysis.cpp:1178-1191 | For p = phi o, s and t, s and t selects of the same objects the other way round, NoAlias is the only answer in any record of answers |
| TurnExample.AskTurn | lib/Analysis/BasicAliasAnalysis.cpp:1178-1191 | The query answers NoAlias |
| TurnExample.TurnExact | lib/Analysis/BasicAliasAnalysis.cpp:1178-1191 | That is true at every moment of every execution if and only if the condition never changes |
| ConstantMemory.PointsToConstantMemory | lib/Analysis/BasicAliasAnalysis.cpp:586-644 | The worklist loop answers as the walk over at most eight objects does: yes, no, or what the next analysis says; yes, whatever the next analysis says, if every object the pointer may be through selects and phis is good and these lead to a tree of at most eight different objects; and after a no of the next analysis only then |
| ConstantMemory.YesMeansGood | lib/Analysis/BasicAliasAnalysis.cpp:583-644 | After a yes of its own, every object the pointer may be through any selects and phis is a constant global, or an alloca when local memory was asked for |
| ConstantMemory.YesExact | lib/Analysis/BasicAliasAnalysis.cpp:583-644 | The walk says yes of its own if and only if every object is good and selects and phis lead to a tree of at most eight different objects: then no phi has too many operands and no lookup is missing |
| ConstantMemory.BadObjectIsNoticed | lib/Analysis/BasicAliasAnalysis.cpp:605-644 | One reachable object of any other kind is enough to prevent a yes |
| ConstantMemory.PhiOfGlobals | lib/Analysis/BasicAliasAnalysis.cpp:616-640 | For a phi of n different constant globals: yes for n < 8, no for n = 8 although all objects are good, the next analysis beyond |
| AliasGroups.AliasesPointerExact | lib/Analysis/AliasSetTracker.cpp:144-176 | The must shortcut is exact: testing the first member answers whether the pointer aliases any item of the set |
| AliasGroups.AliasesUnknownInstExact | lib/Analysis/AliasSetTracker.cpp:178-198 | The instruction test holds if and only if the instruction is related to some item of the set |
| AliasGroups.MergedIsMay | lib/Analysis/AliasSetTracker.cpp:39-52 | Two sets with no related items never merge into a must set, and could not be one: the merged set keeps its shape |
| AliasGroups.WithPointerKept | lib/Analysis/AliasSetTracker.cpp:100-112 | Adding an aliasing pointer keeps the shape: in runs that add without growth a set is a must set if and only if it has no instructions, all entries are at one place and several entries all leave room for an access, and then its first entry has the maximum size |
| AliasGroups.MustSetMembers | lib/Analysis/AliasSetTracker.cpp:109-153 | A must set has no unknown instructions, its members pairwise must-alias and its first entry has the maximum size |
| AliasPartition.JoiningPointerAliases | lib/Analysis/AliasSetTracker.cpp:100-112 | The pointer about to join a must set aliases its first entry: the assertion at line 111 never fails in runs that only add |
| Components.ComponentsUnique | lib/Analysis/AliasSetTracker.cpp:217-265 | A set of items has one partition into connected, mutually unrelated parts |
| AliasPartition.PartitionedAreComponents | lib/Analysis/AliasSetTracker.cpp:217-265 | Groups that are connected and mutually unrelated are the connected components of all items |
| AliasPartition.PointerExtends | lib/Analysis/AliasSetTracker.cpp:272-295 | After the search has merged all related sets, putting the pointer into the one found, or a new one, gives the components of one more item |
| AliasPartition.InstExtends | lib/Analysis/AliasSetTracker.cpp:346-361 | The same for an instruction |
| TrackerRuns.OrderIrrelevant | lib/Analysis/AliasSetTracker.cpp:374-377 | Two runs of the same operations in any order lead to the same partition |
| TrackerState.RootsHoldSomething | lib/Analysis/AliasSetTracker.cpp:147-157 | A set that does not forward has a pointer or an instruction, so a must set has a first member: the assertions at lines 148 and 153 |
| TrackerState.CountFits | include/llvm/Analysis/AliasSetTracker.h:116-118 | A reference count is positive and at most the number of records and sets, so 28 bits hold it while those stay below 2^28 |
| TrackerState.RetireCounts | lib/Analysis/AliasSetTracker.cpp:82-93 | When a set without references goes, all other counts stay right but for the one spare reference of the set it forwarded to |
| TrackerState.CompressedStep | include/llvm/Analysis/AliasSetTracker.h:245-255 | Path compression after compressing further up only shortens forwarding, keeps where it ends, and loses only sets that forwarded |
| TrackerSteps.MergedGood | lib/Analysis/AliasSetTracker.cpp:30-80 | The merged state keeps links and counts, with one spare reference exactly when the set merged away had instructions, and its groups are the old ones with the two merged |
| TrackerSteps.PointerAddedGood | lib/Analysis/AliasSetTracker.cpp:95-123 | Adding a pointer to a set keeps all invariants and changes that group only |
| AliasSetTracking.AliasSetTracker.DropRef | include/llvm/Analysis/AliasSetTracker.h:149-153 | The spare reference goes; the set disappears exactly when no reference is left, and with it only sets it forwarded to |
| AliasSetTracking.AliasSetTracker.RemoveAliasSet | lib/Analysis/AliasSetTracker.cpp:82-93 | The set leaves the list and gives up the reference to the set it forwards to; everything else is as before |
| AliasSetTracking.AliasSetTracker.GetForwardedTarget | include/llvm/Analysis/AliasSetTracker.h:242-256 | Returns the end of the forwarding and leaves the set pointing straight at it; counts stay right |
| AliasSetTracking.AliasSetTracker.GetAliasSet | include/llvm/Analysis/AliasSetTracker.h:83-92 | The record's reference moves to the resolved set, whose list contains the pointer; no reader sees a change |
| AliasSetTracking.AliasSetTracker.MergeSetIn | lib/Analysis/AliasSetTracker.cpp:30-80 | The groups are the old ones without the merged set, its contents appended to the other's; invariants kept, the links included |
| AliasSetTracking.AliasSetTracker.SetAliasesPointer | lib/Analysis/AliasSetTracker.cpp:144-176 | The first record of a must set, or the walk along the links from begin to end and the instructions, answer as the group test says |
| AliasSetTracking.AliasSetTracker.SetAliasesUnknownInst | lib/Analysis/AliasSetTracker.cpp:178-198 | The instructions and the walk along the links answer as the group test says |
| AliasSetTracking.AliasSetTracker.FindAliasSetForPointer | lib/Analysis/AliasSetTracker.cpp:217-233 | Under a lawful oracle every set related to the pointer has been merged into the one found, and none is related when none is found |
| AliasSetTracking.AliasSetTracker.FindAliasSetForUnknownInst | lib/Analysis/AliasSetTracker.cpp:253-265 | The same for an instruction |
| AliasSetTracking.AliasSetTracker.AddPointer | lib/Analysis/AliasSetTracker.cpp:95-123 | The set's group gains the pointer at its end, with the kind and the grown first entry the rule gives; all invariants kept, the links included |
| AliasSetTracking.AliasSetTracker.AddUnknownInst | lib/Analysis/AliasSetTracker.cpp:125-139 | The set's group gains the instruction and becomes a may set; the first instruction holds one reference |
| AliasSetTracking.AliasSetTracker.PlacePointer | lib/Analysis/AliasSetTracker.cpp:272-295 | The groups become the components of one more item; NewSet is true exactly when the pointer was related to nothing |
| AliasSetTracking.AliasSetTracker.ReaddPointer | lib/Analysis/AliasSetTracker.cpp:278-282 | A known pointer resolves to the set whose list has it; groups change only when the size grows |
| AliasSetTracking.AliasSetTracker.AddUnknown | lib/Analysis/AliasSetTracker.cpp:346-361 | Untracked instructions change nothing; others extend the components by one item |
| AliasSetTracking.AliasSetTracker.Add | lib/Analysis/AliasSetTracker.cpp:363-372 | One operation keeps every invariant and, without growth, the groups are the components of the items plus what it adds |
| AliasSetTracking.AliasSetTracker.AddAll | lib/Analysis/AliasSetTracker.cpp:374-377 | After any run of adds in which no pointer comes again with a larger size, the groups are exactly the connected components of the items added |
| AliasSetTracking.AliasSetTracker.RemoveUnknownInst | include/llvm/Analysis/AliasSetTracker.h:263-274 | All occurrences of the instruction leave the set and no other does; the set goes when nothing refers to it any more |
| TrackerRemovals.DropInst | include/llvm/Analysis/AliasSetTracker.h:265-271 | The loop that moves the last entry into the gap removes exactly the occurrences of the instruction |
| AliasSetTracking.AliasSetTracker.DeleteValue | lib/Analysis/AliasSetTracker.cpp:507-539 | Every group loses the pointer's entry and the instruction and nothing else; groups go only when empty; all invariants kept |
| AliasSetTracking.AliasSetTracker.CopyValue | lib/Analysis/AliasSetTracker.cpp:546-562 | Nothing for an unknown original or a known copy; else the copy joins the original's set at its recorded size, as known must-alias, and both records name that set; if the copy is where the original is and that size is not 0, the groups stay the components |
| CopiesAndRemovals.CopyExtends | lib/Analysis/AliasSetTracker.cpp:546-562 | A copy at the place and recorded size of a member extends the components by one item, which is not alone |
| CopiesAndRemovals.ZeroCopyAlone | lib/Analysis/AliasSetTracker.cpp:546-562 | At size 0 a copy of a lone pointer may be related to nothing, and its group is no component |
| CopiesAndRemovals.ShortcutExactIff | lib/Analysis/AliasSetTracker.cpp:144-157 | For a must set whose members are at one place, whatever was removed from it, testing the first member is testing all under every lawful oracle if and only if the size recorded for the first is the greatest a member was added with |
| CopiesAndRemovals.RemovalLeavesPlace | lib/Analysis/AliasSetTracker.cpp:507-539 | What deleteValue leaves of a must set is such a set |
| CopiesAndRemovals.RemovalExample | lib/Analysis/AliasSetTracker.cpp:144-157 | Of 8, 4 and 6 bytes at one place the first is deleted: a byte of the third is missed |
| PointerLists.ListFields.Append | lib/Analysis/AliasSetTracker.cpp:117-122 | The record joins the end; head, end, next and back links spell the longer list, and no other set's fields change |
| PointerLists.ListFields.Splice | lib/Analysis/AliasSetTracker.cpp:68-77 | The other list's records follow this one's, in order and in constant time, and the other list is empty with its end at its own head |
| PointerLists.ListFields.Erase | include/llvm/Analysis/AliasSetTracker.h:99-107 | The record at any place leaves and the links spell the rest if the set it names is the one it is in, or it is not the last; otherwise the end of the list is left pointing into the deleted record |
| PointerLists.CoupledAgain | lib/Analysis/AliasSetTracker.cpp:68-122 | When the links of some sets change, those sets' lists are all that is left to show for the links to spell every set's list |
| AliasSetTracking.AliasSetTracker.EraseLinks | lib/Analysis/AliasSetTracker.cpp:527-531 | After getAliasSet has resolved it the record names the set whose list it is in, so eraseFromList leaves that list well formed, its end included |
| OnceProtocol.StepKept | include/llvm/PassSupport.h:36-54 | Every step of every thread keeps flags, stacks and owners consistent: a flag of 1 has a running body, a flag of 2 has finished callees |
| OnceRegistry.StepRegistered | include/llvm/PassSupport.h:67-83 | Every step keeps the registry duplicate-free and topological, with the interface of a group registered once |
| OnceRegistry.OneJoiner | lib/IR/PassRegistry.cpp:113-123 | No two threads are ever about to register the same interface, although the lookup and the registration are two steps |
| OnceRuns.RunGood | include/llvm/PassSupport.h:36-54 | The invariants hold at every point of every interleaving |
| OnceRuns.BodyRunsOnce | include/llvm/PassSupport.h:36-46 | In no run does the init body of a pass begin twice |
| OnceRuns.LeavesWhenFinished | include/llvm/PassSupport.h:47-54 | A thread leaves a guard only when the body has finished, nobody runs it, the pass is registered and all its dependencies have finished |
| OnceRuns.RegistersAfterDependencies | include/llvm/PassSupport.h:67-83 | A pass is registered once, at a moment when everything it depends on has finished |
| OnceRuns.RegistrationIsTopological | include/llvm/PassSupport.h:172-217 | At every point of every run the registry lists dependencies first and no pass twice |
| OnceRuns.AskedForIsRegistered | include/llvm/PassSupport.h:36-54 | When all threads are through, every pass asked for is finished and registered |
| OnceProgress.DeadlockFree | include/llvm/PassSupport.h:36-54 | For acyclic dependencies, at every point of every run with work left some thread can take a step that is not a spin |
| OnceProgress.WorkBoundsEveryRun | include/llvm/PassSupport.h:36-54 | The steps of a run that are not spins are bounded by the work at its start |
| OnceProgress.CanFinish | include/llvm/PassSupport.h:36-54 | Every run can be continued until all threads are through |
| OnceProgress.StepUsesWork | include/llvm/PassSupport.h:36-54 | Every step but another turn of the spin loop uses up work |
| OnceProgress.GuardedIsAcyclic | include/llvm/PassSupport.h:184-202 | With `if (!def)`, groups never make a cycle: the dependencies have a ranking whenever those of plain passes have, members of groups depending on passes below the groups as BasicAliasAnalysis does |
| OnceProgress.UnguardedIsCyclic | include/llvm/PassSupport.h:184-202 | Without it, a group and its default pass depend on each other |
| OnceProgress.UnguardedDeadlocks | include/llvm/PassSupport.h:184-202 | Without it, one thread alone that initializes the default pass reaches a state in which every step is a spin |
| BranchModel.DoomedRule | lib/Analysis/BranchProbabilityInfo.cpp:122-148 | On every CFG, in post-order, the insertion rule finds exactly the blocks all of whose paths are finite and end in unreachable |
| BranchModel.DoomedSuccessor | lib/Analysis/BranchProbabilityInfo.cpp:132-143 | Successors of such a block are such blocks, and none leads back to it |
| BranchRules.ColdAfterSound | lib/Analysis/BranchProbabilityInfo.cpp:234-262 | Every path from a block in PostDominatedByColdCall meets a cold call after boundedly many blocks |
| BranchRules.ColdFound | lib/Analysis/BranchProbabilityInfo.cpp:243-262 | A block with successors that is not decided earlier is in the set if it calls a cold function or all its successors are |
| BranchRules.LessLikelyWeighsLess | lib/Analysis/BranchProbabilityInfo.cpp:122-505 | By the first prediction that applies, the edge to a doomed block, to a cold one, out of a loop, or against what a comparison or an invoke predicts weighs less than any edge of the other kind |
| BranchRules.BlockWeightsBounded | lib/Analysis/BranchProbabilityInfo.cpp:150-373 | Every heuristic weighs all edges of its block; no heuristic weight is 0; the sum exceeds 16 per edge by at most 2^20, or comes from metadata and fits 32 bits |
| BranchWeights.SumByKind | lib/Analysis/BranchProbabilityInfo.cpp:150-165 | The sum of a block's weights is the sum over edge kinds of count times weight |
| BranchWeights.ScalingFits | lib/Analysis/BranchProbabilityInfo.cpp:206-221 | Metadata scaling brings any sum down to at most 2^32 - 1 and changes nothing that fits |
| BranchWeights.ScalingKeepsSome | lib/Analysis/BranchProbabilityInfo.cpp:206-221 | With fewer than 2^32 - 1 successors scaling never turns a sum other than 0 into 0 |
| BranchProbability.BranchProbabilityInfo.CalcUnreachableHeuristics | lib/Analysis/BranchProbabilityInfo.cpp:122-168 | Inserts the block by the rule above and weighs all its edges when some but not only one leads to a doomed block; every edge to one weighs less than every other edge |
| BranchProbability.BranchProbabilityInfo.CalcMetadataWeights | lib/Analysis/BranchProbabilityInfo.cpp:172-224 | Applies exactly to branches and switches with several edges and one integer weight for each; all edges get the scaled weights and the sum fits 32 bits |
| BranchProbability.BranchProbabilityInfo.CalcColdCallHeuristics | lib/Analysis/BranchProbabilityInfo.cpp:234-285 | Inserts the block when all successors are cold or it calls a cold function, never a block without successors; weighs all edges when some lead to cold blocks, those less than every other edge |
| BranchProbability.BranchProbabilityInfo.CalcLoopBranchHeuristics | lib/Analysis/BranchProbabilityInfo.cpp:322-377 | Applies exactly to blocks of a loop with an exiting edge or one to the header; back, inner and exiting edges share their weights, and every exiting edge weighs less than one that stays |
| BranchProbability.BranchProbabilityInfo.CalcPointerHeuristics | lib/Analysis/BranchProbabilityInfo.cpp:289-318 | Applies exactly to conditional branches on an equality of pointers; the edge for different pointers gets 20, the other 12 |
| BranchProbability.BranchProbabilityInfo.CalcZeroHeuristics | lib/Analysis/BranchProbabilityInfo.cpp:379-459 | Applies exactly to comparisons with 0, 1 or -1 of the listed predicates whose left side is not masked with a single bit; the edges get 20 and 12 by the verdict |
| BranchProbability.BranchProbabilityInfo.CalcFloatingPointHeuristics | lib/Analysis/BranchProbabilityInfo.cpp:461-495 | Applies exactly to equalities and the two tests for order; the edges get 20 and 12 by the verdict |
| BranchProbability.BranchProbabilityInfo.CalcInvokeHeuristics | lib/Analysis/BranchProbabilityInfo.cpp:497-505 | An invoke's normal edge gets 2^20 - 1 and its unwind edge 1 |
| BranchProbability.BranchProbabilityInfo.CalcTwoWayHeuristics | lib/Analysis/BranchProbabilityInfo.cpp:532-538 | The first of the four that recognizes the terminator decides |
| TwoWayBranches.PredictsPositive | lib/Analysis/BranchProbabilityInfo.cpp:402-448 | The zero heuristic predicts a positive operand: at two bits or more, every verdict is what the comparison says of every positive value |
| TwoWayBranches.ZeroVerdictsFit | lib/Analysis/BranchProbabilityInfo.cpp:402-448 | Some value makes all verdicts true if and only if the operand has two bits or more |
| TwoWayBranches.SameMeaningSameVerdict | lib/Analysis/BranchProbabilityInfo.cpp:402-448 | At two bits or more comparisons that hold of the same values get the same verdict, and opposite ones opposite verdicts |
| TwoWayBranches.VerdictWhich | lib/Analysis/BranchProbabilityInfo.cpp:402-448 | At two bits or more the comparisons with a verdict are equalities and signed greater with 0 and -1 and signed less with 0 and 1, no others |
| TwoWayBranches.FloatVerdictWhich | lib/Analysis/BranchProbabilityInfo.cpp:471-484 | A floating-point comparison has a verdict if and only if it does not tell less from greater and is neither always true nor never |
| TwoWayBranches.FloatVerdictExact | lib/Analysis/BranchProbabilityInfo.cpp:471-484 | The verdict is what the comparison says of ordered operands that differ, as documented, exactly for the predicates other than ordered equality |
| TwoWayBranches.OrderedEqualLikely | lib/Analysis/BranchProbabilityInfo.cpp:471-484 | Ordered equality and its negation are both said to be likely |
| BranchProbability.BranchProbabilityInfo.VisitBlock | lib/Analysis/BranchProbabilityInfo.cpp:523-540 | The first heuristic that applies decides the whole block; edges to doomed blocks, or else to cold ones, weigh less than the others; a block skipped before the cold heuristic is never marked cold |
| BranchProbability.BranchProbabilityInfo.WalkPostOrder | lib/Analysis/BranchProbabilityInfo.cpp:520-540 | PostDominatedByUnreachable is exactly the doomed blocks of the walk, PostDominatedByColdCall only blocks that must meet a cold call, every block has the weights of its rule, and in the map an edge that is predicted less likely than another of its block weighs less |
| BranchProbability.BranchProbabilityInfo.RunOnFunction | lib/Analysis/BranchProbabilityInfo.cpp:512-544 | Each block of the walk gets the weights of the rule that decides it or none, and an edge predicted less likely than another weighs less, in every block with a doomed and a not doomed successor the edges to doomed blocks; other blocks keep theirs; both sets are empty again |
| BranchTotals.AllOrNone | lib/Analysis/BranchProbabilityInfo.cpp:512-544 | After a run each block has all of its edges in the map or none |
| BranchTotals.GetSumForBlock | lib/Analysis/BranchProbabilityInfo.cpp:564-576 | The 32-bit sum is the sum modulo 2^32, and its assertion holds at every step if and only if the sum fits |
| BranchTotals.SumNeverOverflows | lib/Analysis/BranchProbabilityInfo.cpp:564-576 | After a run the sum fits 32 bits for every block with fewer than 2^27 successors |
| BranchTotals.TotalIsZero | include/llvm/Analysis/BranchProbabilityInfo.h:89-96 | After a run the sum of a block is 0 if and only if it has no successors or its metadata weights are all 0 |
| BranchTotals.EdgeIsZero | lib/Analysis/BranchProbabilityInfo.cpp:206-221 | After a run the weight of an edge is 0 if and only if it comes from metadata and is less than the scaling factor of its block |
| BranchTotals.EdgeIsZeroExample | lib/Analysis/BranchProbabilityInfo.cpp:206-221 | Metadata weights 2^32 - 1 and 1 become 2^31 - 1 and 0 |
| BranchTotals.GetEdgeWeightTo | lib/Analysis/BranchProbabilityInfo.cpp:632-646 | The weight of a destination is the sum over its edges in the map, or 16 when none is, modulo 2^32 |
| BranchTotals.DestinationsAddUp | lib/Analysis/BranchProbabilityInfo.cpp:630-646 | Where weights are set, the weights of the destinations add up to the sum of the block |
| BranchTotals.DefaultDestinations | lib/Analysis/BranchProbabilityInfo.cpp:630-646 | Where they are not set, that holds if and only if no destination occurs twice |
| BranchTotals.GetEdgeProbability | lib/Analysis/BranchProbabilityInfo.cpp:660-666 | Numerator and denominator are the edge's weight and the block's sum, and the fraction is at most one |
| HotSuccessors.GetHotSucc | lib/Analysis/BranchProbabilityInfo.cpp:585-609 | The 32-bit sum grows at every step if and only if no successor weighs 0 and the sum fits; then the result is a successor with more than four fifths of the sum, or there is none |
| HotSuccessors.HotSuccAsserts | lib/Analysis/BranchProbabilityInfo.cpp:595-596 | After a run, of a block with fewer than 2^27 successors, that holds if and only if no successor had every edge to it scaled to 0 and the weights, each as often as the successor has edges, fit 32 bits |
| BranchPredictions.HotIsNotDoomed | lib/Analysis/BranchProbabilityInfo.cpp:585-609 | After a run the successor that takes more than four fifths of a block is not doomed if the block has one that is not, however many edges lead to it |
| BranchPredictions.TwoSuccessors | lib/Analysis/BranchProbabilityInfo.cpp:46-83 | After a run a block with two successors has 1 against 1048575 for one doomed, else 4 against 64 for one cold, else 4 against 124 for one out of the loop, and 124 each for the header and one inside |
| BranchPredictions.TwoWays | lib/Analysis/BranchProbabilityInfo.cpp:289-505 | Where nothing before decides, an invoke has 1048575 against 1, and a comparison with a verdict 20 against 12 |
| BranchPredictions.MetadataKept | lib/Analysis/BranchProbabilityInfo.cpp:172-224 | A branch or switch not decided by doomed blocks has the weights of its metadata if there is an integer for each of its several edges and they fit 32 bits together |
| ModRefModel.CallBehaviorSound | lib/Analysis/AliasAnalysis.cpp:235-258 | The behaviour intersected along the chain, known callee included, still over-approximates the call |
| ModRefInfo.GetCallLoc | lib/Analysis/AliasAnalysis.cpp:97-144 | The accumulating loop has a bit exactly when some pointer argument that may overlap the location allows it, cut by behaviour, constant memory and the chain |
| ModRefInfo.CallLocSound | lib/Analysis/AliasAnalysis.cpp:97-144 | The result has Mod whenever the call writes a cell of the location and Ref whenever it reads one |
| ModRefInfo.CallLocNeeds | lib/Analysis/AliasAnalysis.cpp:97-144 | No bit without a reason at every analysis of the chain: Mod needs a call that may write and a location that is not constant, and of a call that touches its arguments only each bit needs an argument that may overlap the location and has it |
| ModRefInfo.GetCallCall | lib/Analysis/AliasAnalysis.cpp:146-233 | The loops with their early breaks compute the same bits as all arguments together |
| ModRefInfo.ScanTheirs | lib/Analysis/AliasAnalysis.cpp:168-196 | Leaving the loop when the mask is full loses no bit |
| ModRefInfo.ScanMine | lib/Analysis/AliasAnalysis.cpp:198-224 | Leaving the loop when the mask is full loses no bit |
| ModRefInfo.CallCallSound | lib/Analysis/AliasAnalysis.cpp:146-233 | Mod whenever the first call writes what the second accesses, Ref whenever it reads what the second writes, for argument lists of any length and chains of any length |
| ModRefInfo.CallCallNeeds | lib/Analysis/AliasAnalysis.cpp:146-233 | No bit without a reason: one of the calls may write; against a call that touches its arguments only, Ref needs an argument it may write and the first may read, Mod one it may access and the first may write; of a first such call a bit needs an argument of its own at which the second does what makes it matter |
| ModRefRanges.GetInstLoc | include/llvm/Analysis/AliasAnalysis.h:341-353 | Whatever the instruction does within its kind, the answer has Ref if it reads a cell of the location and Mod if it writes one |
| ModRefRanges.InstLocSound | lib/Analysis/AliasAnalysis.cpp:264-347 | The answers by kind of instruction cover every access: reads and writes of the location are never denied, a va_arg on constant memory included since it would advance a list in it |
| ModRefRanges.InstLocNeeds | lib/Analysis/AliasAnalysis.cpp:264-347 | No bit too many: of a cell common to both locations and not constant, an instruction of the kind may do all that the answer says |
| ModRefRanges.CanInstructionRangeModRef | lib/Analysis/AliasAnalysis.cpp:443-457 | True if and only if some instruction from the first to the last, both included, may access the location in the mode asked about; after a no, none does, whatever they do within their kinds |
| ModRefRanges.RangeSound | lib/Analysis/AliasAnalysis.cpp:443-457 | After a no, nothing in the range touches the location in that mode |
| ModRefRanges.GetInstCall | lib/Analysis/AliasAnalysis.cpp:79-95 | After NoModRef the call and the instruction share no cell that one of them writes, whatever the instruction does within its kind |
| EmbedHeader.EscapeReadsAlone | utils/embed_header.py:24-42 | Before any text whatever, the escape of a byte is read back as that byte and absorbs nothing of the text |
| EmbedHeader.LineReads | utils/embed_header.py:45-46 | An escaped line before any text is read back as the line |
| EmbedHeader.LiteralsRead | utils/embed_header.py:63-77 | Any pieces written as adjacent literals are read back as the pieces put together, up to the semicolon |
| EmbedHeader.LiteralsTellFilesApart | utils/embed_header.py:63-77 | Different byte sequences are never written as the same literals |
| EmbedHeader.Split | utils/embed_header.py:53-62 | The pieces put together are the data; each is a line, all but the last end in a newline, and only empty data has an empty piece |
| EmbedHeader.LinesUnique | utils/embed_header.py:53-62 | There is only one way to cut data into such lines |
| EmbedHeader.Generate | utils/embed_header.py:49-77 | For every byte sequence the text written after the line that names the variable reads back as that sequence |

## Left out

- AA metadata tags, the Access and Volatile bits of alias sets, and `AliasSetTracker::remove` and its relatives, which drop references in bulk without resolving forwarded sets.
- Growth of the recorded size of a tracked pointer: no merge follows in the code, so the partition is stated for runs without growth; links and counts are still proved to be kept.
- Alias sets and pointer records of the tracker are records in maps keyed by identity rather than heap objects: who points to whom is explicit, the list links and list ends included, and the list that the links spell is a sequence kept beside them.
- The removal order inside `removeAliasSet`: the model forgets the set before it drops the reference it held and erases it from the list last; the source drops, clears and erases.
- A tracked instruction that is not related to itself and is added twice is one item.
- AliasQuery.BasicAliasAnalysis.Alias: truth of answers is stated for value graphs without cycles, since round a cycle an answer may be an entry on the way, which speculates; without descending GEPs off phis, selects and GEPs, because with them it fails (`QueryExamples.DescentExact`); and for the pairs that `QueryRuns.TurnsGood` admits. There the condition on selects is needed (`TurnExample.TurnExact`); that a pair may not be reached through phis of other blocks, since the cached answer is kept for both, and the conditions on phis of one block, equal decompositions and fields between different moments go one way only. Termination, the presence of the phi's key and what answers follow from are proved for all graphs. PartialAlias claims nothing.
- AliasQuery.BasicAliasAnalysis.AliasCheck: the same.
- Memory orderings other than one step at a time for the once protocol, and the platform locks of the pass registry.
- The depth-first walk behind `post_order`, the dominator and loop analyses, capture tracking and reachability.
- BranchRules.ColdAfterSound: one direction only, with `BranchRules.ColdFound` for what must be found, because a block skipped by an earlier heuristic is never examined for cold calls.
- The null location of `getModRefInfo(I)`: a location without a pointer is one that no oracle tells apart.
- File names, file input and output and the preamble lines of `embed_header.py`; trigraphs, which C++17 removed.
- Printing, statistics, pass manager plumbing, command-line flags, build scripts, the debugger, COM and C interfaces, and `utils/generate_hlsl_embedded_headers.py`.

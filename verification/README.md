# Verified models of the hashing library

This project models the parts of the hashing repository whose correctness is hardest to see,
and proves what they are meant to guarantee for every input, every run and every reachable
state.

- **Division by invariants.** `Bits`, `WideDivision`, `UnsignedDivision`, `SignedDivision` and
  `Reduction` cover libdivide's 32- and 64-bit dividers, plain and branch-free, with their
  bounded arithmetic written out modulo 2^32 and 2^64: the portable 128-by-64 and 128-by-128
  divisions, generation, division and recovery, and the fast modulo built on them. The width is
  a parameter where the two sources differ in nothing else.
- **RadixSpline.** `SplineBuilder`, `RadixSplineIndex` and `MultiMap` cover the one-pass corridor
  builder, the radix table, interpolation and search. Keys, positions and limits are integers and
  estimates are reals.
- **Minimal perfect hash.** `MphGraph`, `Mph`, `MphLaws` and `Emit` cover the hypergraph with its in-place
  lists, the peeling, the assignment of node values, and the emitter, whose generated function is
  modelled as the constants printed into its text plus one interpreter.
- **Hash tables.** `Tables`, `ProbingFuncs`, `Probing`, `RobinHood` and `Cuckoo` cover the tables with
  linear, quadratic, Robin Hood and cuckoo placement. A table is a sequence of buckets that the
  methods overwrite; a ghost map gives each key its one place; contracts speak of the table as a
  map. `RobinHoodExample` is a concrete run.
- **Streaming hashes.** `Blocks`, `Xxh`, `Xxh3` and `Spooky` cover XXH32, XXH64, XXH3 and
  SpookyHash V2: whatever the chunks, the digest is the one-shot hash. `XxhLaws`, `Xxh3Laws` and
  `SpookyLaws` say in plain numbers what these hashes read and compute.
- **Semaphore.** `Semaphore` is the counting semaphore as a state machine over the stretches of
  code under the mutex, and as a class whose methods are its steps.

Hash functions, random numbers and, for XXH3 and SpookyHash, the mixing rounds are parameters:
the statements hold for all of them. A thrown exception is an outcome value. Where code and
comments disagree the model follows the code:

- `RobinhoodProbing::insert` is documented to throw only when all buckets of a cycle are full. That
  holds for linear probing with any bucket size, and `RobinHood.RobinhoodProbing.Insert` proves it
  in both directions. With quadratic probing it holds for the throw for a cycle
  (probing.hpp:323-325); at the throw for a loop (probing.hpp:306-307) the path is full exactly
  when the slots still ahead of the carried key are taken, in the table before the call as after
  the throw. `RobinHoodExample.ThrowsDespiteRoom` runs six insertions that end in that throw with
  an empty bucket ahead. Any throw loses one entry.
- The emitter's compaction assumes bytes up to 127, since the key statistics read signed chars.
  `Emit.ReadsRightIff` proves that the generated code reads the entries of the in-memory hash for a
  key set exactly when it is not compacted or no key has a byte above 127, and
  `Emit.HighByteMisreads` is a key set on which compacted code reads wrong entries inside its table.
- The builder closes the spline at the last position of the maximum key. The spline error bound holds
  exactly when that point does not lie above the corridor (`SplineBuilder.Builder.Finalize`), always
  when the maximum key is unique, and `SplineBuilder.RepeatedMaximum` gives keys that break it.
- The multimap searches the first position of a key, while its spline is made for the distribution of
  first positions. `MultiMap.MultiMap.AllPlacesIff` proves that `lower_bound` is right for every key
  exactly when every gap between neighbouring different keys passes a test that can be made once
  after construction. An accurate spline passes when no key occurs more than twice and finds every
  present key in any case; `MultiMap.LongRunMissed` builds a map that misses an absent key.
- A reduction with more buckets than the hash type can count divides by the count cut to that type;
  `Reduction.FastModulo.IsModuloIff` says for which hashes the result is still the remainder, and
  `Reduction.CutCountFails` is a hash for which it is not.
- The semaphore keeps its counter in range exactly when it starts there; nothing checks the start
  value, and above the maximum the unsigned difference in `release` wraps.

`dafny verify dfyconfig.toml` checks the whole project.

## Model

| member | source | states |
|---|---|---|
| WideDivision.CountLeadingZeros32 | thirdparty/thirdparty/libdivide.h:317-342 | byte scan and mask climb find the number of leading zeros of every 32-bit word, 32 for zero |
| WideDivision.CountLeadingZeros64 | thirdparty/thirdparty/libdivide.h:344-361 | the same for 64-bit words, from the two halves; for zero the fallback gives 64 |
| WideDivision.MulHiU64 | thirdparty/thirdparty/libdivide.h:269-293 | the four half products and their carries give exactly the high word of the 128-bit product |
| WideDivision.MulHiS64 | thirdparty/thirdparty/libdivide.h:295-315 | the signed form gives the floor of the product over 2^64, with arithmetic shifts and no overflow |
| WideDivision.DivDigit | thirdparty/thirdparty/libdivide.h:436-448 | the estimate-and-correct loop ends on the exact quotient digit of a normalised three-digit by two-digit division |
| WideDivision.Normalize | thirdparty/thirdparty/libdivide.h:412-426 | shifting divisor and dividend left keeps the value scaled and the high word below the divisor |
| WideDivision.Div128By64 | thirdparty/thirdparty/libdivide.h:382-462 | exact quotient and remainder of a 128-bit by 64-bit division whenever the high word is below the divisor, although the differences wrap modulo 2^64; otherwise the all-ones pair |
| WideDivision.ShiftLeft128 | thirdparty/thirdparty/libdivide.h:467-480 | left shift of a two-word value modulo 2^128, and exact when no bit of the high word is shifted out |
| WideDivision.ShiftRight128 | thirdparty/thirdparty/libdivide.h:467-480 | right shift of a two-word value is the floor of the quotient by a power of two |
| WideDivision.EstimateQuotient | thirdparty/thirdparty/libdivide.h:515-534 | the normalised division by the top divisor word, scaled back, is the quotient or one more |
| WideDivision.EstimateWithinOne | thirdparty/thirdparty/libdivide.h:515-540 | the estimate by the top word differs from the true quotient by at most one |
| WideDivision.Div128By128 | thirdparty/thirdparty/libdivide.h:482-575 | the division built on it is exact whenever the quotient fits 64 bits |
| UnsignedDivision.MagicFloor | thirdparty/thirdparty/libdivide.h:645-660 | a multiplier slightly above 1/d divides every word in range exactly |
| UnsignedDivision.DoIsDivision | thirdparty/thirdparty/libdivide.h:645-660 | for every w, every divider of d and every w-bit n, the shift, multiply and add paths give n / d |
| UnsignedDivision.BranchfreeDoIsDivision | thirdparty/thirdparty/libdivide.h:662-666 | the branch-free path gives n / d for every divider of d > 1 |
| UnsignedDivision.InternalGen | thirdparty/thirdparty/libdivide.h:581-630 | for every d > 0 a divider of d is generated, with the short factor whenever d has one and no add path is forced; d = 0 is refused |
| UnsignedDivision.MagicFactor | thirdparty/thirdparty/libdivide.h:597-622 | a factor for one shift exactly when there is one, the only one; otherwise the doubled factor, marked by 0x40 for the add path |
| UnsignedDivision.DoubleMagic | thirdparty/thirdparty/libdivide.h:768-778 | doubling the factor in wrapping arithmetic still gives the low word of the (w+1)-bit factor |
| UnsignedDivision.Gen | thirdparty/thirdparty/libdivide.h:632-634 | the generated divider divides every w-bit n by d; its magic is zero exactly for powers of two |
| UnsignedDivision.BranchfreeGen | thirdparty/thirdparty/libdivide.h:636-643 | the branch-free divider divides every w-bit n by d, refusing only d <= 1 |
| UnsignedDivision.Recover | thirdparty/thirdparty/libdivide.h:826-867 | the divisor is recovered from every divider, 32-bit form included |
| UnsignedDivision.BranchfreeRecover | thirdparty/thirdparty/libdivide.h:869-901 | the divisor is recovered from every branch-free divider |
| UnsignedDivision.LongRecover64 | thirdparty/thirdparty/libdivide.h:838-866 | the 65-bit factor is divided out with the 128-bit division, doubled and corrected |
| UnsignedDivision.LongRecover32 | thirdparty/thirdparty/libdivide.h:680-704 | the 33-bit factor is divided out and corrected |
| SignedDivision.SignedDoIsDivision | thirdparty/thirdparty/libdivide.h:981-1007 | signed division by magic number is truncating division for every d, MIN included, and every n except MIN / -1 |
| SignedDivision.SignedBranchfreeDoIsDivision | thirdparty/thirdparty/libdivide.h:1009-1031 | the same for the branch-free form |
| SignedDivision.SignedInternalGen | thirdparty/thirdparty/libdivide.h:905-969 | every nonzero d gets a signed divider of d, in branching mode with the short factor whenever there is one; zero is refused |
| SignedDivision.SignedFactor | thirdparty/thirdparty/libdivide.h:925-955 | the signed factor fits without the add path exactly when a fitting one exists, and is that one; otherwise it is doubled |
| SignedDivision.SignedGen | thirdparty/thirdparty/libdivide.h:971-973 | the generated divider truncates n / d exactly for every n with a representable quotient |
| SignedDivision.SignedBranchfreeGen | thirdparty/thirdparty/libdivide.h:975-979 | the same for the branch-free divider |
| SignedDivision.SignedRecover | thirdparty/thirdparty/libdivide.h:1033-1070 | the signed divisor is recovered from both kinds of divider |
| SignedDivision.SignedMagicFloor | thirdparty/thirdparty/libdivide.h:981-1007 | a factor slightly above 1/|d| gives the floor quotient for non-negative n and one less for negative n |
| Reduction.FastModulo.IsModulo | reduction/reduction.hpp:83-90 | hash - (hash / divider) * N is hash mod N, below N, for every hash, when N fits the hash type |
| Reduction.FastModulo.IsModuloIff | reduction/reduction.hpp:77-90 | for every 64-bit N the result is the remainder by N cut to the hash width; it is the remainder by N exactly when N fits or the hash is below the cut count |
| Reduction.NewFastModulo | reduction/reduction.hpp:77-77 | a reduction object exists for every 64-bit bucket count except those cut to 0, and for the branch-free one also those cut to 1; its divider is made for the cut count |
| Reduction.CutCountFails | reduction/reduction.hpp:77-90 | with 2^32 + 2 buckets and 32-bit hashes, hash 3 goes to bucket 1 instead of 3 |
| SplineBuilder.TurnCompares | learned_models/rs/builder.h:97-105 | the sign of the cross product decides whether a point lies above or below a line |
| SplineBuilder.TightenCorridor | learned_models/rs/builder.h:183-196 | narrowing the limits keeps every pending point reachable within the error |
| SplineBuilder.FreshCorridor | learned_models/rs/builder.h:140-142 | the limits after a spline point keep the next point within the error |
| SplineBuilder.SegmentCloses | learned_models/rs/builder.h:172-182 | ending a segment at the previous point leaves every point it spans within the error |
| SplineBuilder.ClosingApproximates | learned_models/rs/builder.h:43-58 | a spline whose segments so far are within the error, closed by a point at the last key, approximates the distribution exactly when the closing segment does |
| SplineBuilder.CoversExactly | learned_models/rs/builder.h:172-196 | a closing point at or above the candidate is within the error of every pending point exactly when it does not lie above the upper limit |
| SplineBuilder.Builder.constructor | learned_models/rs/builder.h:16-32 | an empty builder with a table of max prefix + 2 zeros, at most two to the radix bits and one |
| SplineBuilder.Builder.AddKey | learned_models/rs/builder.h:35-41 | adding keys in order keeps the table exact so far and the corridor invariant |
| SplineBuilder.Builder.PossiblyAddKeyToSpline | learned_models/rs/builder.h:120-199 | one step of the greedy corridor keeps the curve invariant |
| SplineBuilder.Builder.ExtendCorridor | learned_models/rs/builder.h:183-198 | a next point strictly between the limits tightens the corridor and adds no spline point; any other, and only such a one, makes the previous point a spline point: exactly when the line to it escapes a pending point |
| SplineBuilder.Builder.CutCorridor | learned_models/rs/builder.h:172-182 | the previous point, and nothing else, is appended to the spline, and the limits start afresh |
| SplineBuilder.Builder.PossiblyAddKeyToRadixTable | learned_models/rs/builder.h:201-209 | entries up to the new prefix count the spline points before it |
| SplineBuilder.Builder.FinalizeRadixTable | learned_models/rs/builder.h:211-216 | the remaining entries count all spline points |
| SplineBuilder.Builder.CloseAtLastKey | learned_models/rs/builder.h:48-50 | the maximum key with its last position becomes the last spline point; the spline is then within the error of every added key exactly when that point did not lie above the corridor |
| SplineBuilder.Builder.Finalize | learned_models/rs/builder.h:43-58 | on at least two different keys the table is exact, all points but the closing one are the greedy choice among the points of the distribution, and the spline approximates every added key within the error exactly when the closing point did not lie above the corridor, so always with a unique maximum key |
| SplineBuilder.GreedyUnique | learned_models/rs/builder.h:120-199 | two splines over one distribution whose points are each the first forced one after its predecessor are equal before the closing point |
| SplineBuilder.EscapesIff | learned_models/rs/builder.h:149-182 | a new point is not strictly between the limits exactly when the line to it passes some pending point at the error or further, the lower side cut off at 0 |
| SplineBuilder.ForcedIff | learned_models/rs/builder.h:149-182 | so the newest point is forced, over the distribution alone, exactly when the limits say so |
| SplineBuilder.CutTest | learned_models/rs/builder.h:172-177 | the two turn tests against the limits decide whether the newest point is forced |
| SplineBuilder.ZeroErrorKeepsAll | learned_models/rs/builder.h:120-199 | with error 0 every point of the distribution becomes a spline point |
| SplineBuilder.ConsecutiveKeys | learned_models/rs/builder.h:16-58 | a builder fed first, first + 1, ... ends with two spline points for every error of at least 1, and with all points for error 0 |
| SplineBuilder.CdfExact | learned_models/rs/builder.h:120-135 | the distribution consists of exactly the places where a key first occurs |
| SplineBuilder.RepeatedMaximum | learned_models/rs/builder.h:43-58 | one key and then the maximum key several times: the error bound holds exactly up to error + 1 repetitions, so with error 1 the keys 1, 5, 5, 5 break it |
| SplineBuilder.PrefixBound | learned_models/rs/builder.h:63-73 | the shift is the least one for which prefixes stay below two to the number of radix bits, which bounds the table size |
| SplineBuilder.NewPointKeepsEntries | learned_models/rs/builder.h:201-209 | a new spline point does not disturb entries already written |
| RadixSplineIndex.LowerBound | learned_models/rs/radix_spline.h:81-83 | std::lower_bound on a partitioned range returns the split point |
| RadixSplineIndex.TableBrackets | learned_models/rs/radix_spline.h:67-70 | the two table entries bracket the first spline point at or above the key |
| RadixSplineIndex.GetSplineSegment | learned_models/rs/radix_spline.h:65-84 | for min < key < max the linear and the binary branch both return the global first spline point at or above the key, between 1 and size - 1 |
| RadixSplineIndex.GetEstimatedPosition | learned_models/rs/radix_spline.h:26-46 | interpolation on that segment, clamped outside the key range |
| RadixSplineIndex.EstimateOnLine | learned_models/rs/radix_spline.h:36-45 | inside the key range the estimate lies on the line through the two spline points around the key, by cross products |
| RadixSplineIndex.ErrorBound | learned_models/rs/radix_spline.h:26-46 | with an approximating spline the estimate of every added key is within the error of its position |
| RadixSplineIndex.EstimateMonotone | learned_models/rs/radix_spline.h:26-46 | the estimate never decreases, also across segments and at the clamped ends |
| RadixSplineIndex.GetSearchBound | learned_models/rs/radix_spline.h:49-55 | from the floor of the estimate less the error, or 0, to the floor plus the error and two, or the number of keys |
| MultiMap.BoundCoversIff | learned_models/rs/multi_map.h:91-98 | for every sorted array and every spline over it, accurate or not: the search bound contains the lower bound of every query key exactly when every gap between different keys passes one test at its greatest and one at its least key |
| MultiMap.GapExact | learned_models/rs/multi_map.h:91-98 | all keys of one gap have their lower bound in the search bound exactly when the gap passes its test |
| MultiMap.AccurateGap | learned_models/rs/multi_map.h:91-98 | with an accurate spline a gap passes exactly when the estimate for its least key reaches far enough |
| MultiMap.PresentCovered | learned_models/rs/multi_map.h:100-105 | with an accurate spline the bound contains the first position of every present key, however often keys repeat |
| MultiMap.TwiceCovered | learned_models/rs/multi_map.h:91-98 | with an accurate spline and no key more than twice, every gap passes |
| MultiMap.FirstEstimate | learned_models/rs/multi_map.h:91-98 | the estimate of a key is within the error of the position of its first occurrence |
| MultiMap.LongRunMissed | learned_models/rs/multi_map.h:46-98 | a map built over the keys 0, 1, 1, 1, 9 with maxError 0 answers key 2 with 3 instead of 4, although its spline is accurate |
| MultiMap.SortByKey | learned_models/rs/multi_map.h:69-75 | sorting gives an ordered permutation of the entries |
| MultiMap.BuildSpline | learned_models/rs/multi_map.h:77-86 | feeding the sorted keys gives a valid spline on points of the distribution, and an approximating one when the largest key occurs once |
| MultiMap.CopySorted | learned_models/rs/multi_map.h:60-75 | the copy holds the same entries in order, and is the input itself when that is in order |
| MultiMap.BuildEmpty | learned_models/rs/multi_map.h:51-58 | an empty range gets a spline without points over all keys |
| MultiMap.MultiMap.constructor | learned_models/rs/multi_map.h:46-87 | the map holds the input sorted, with a spline over its keys; an empty range gives the empty map |
| MultiMap.MultiMap.AllPlacesIff | learned_models/rs/multi_map.h:89-98 | the answer agrees with the lower bound over the whole array for every key, present or not, exactly when all gaps pass their test |
| MultiMap.MultiMap.LowerBoundOf | learned_models/rs/multi_map.h:89-98 | lower_bound is the lower bound over the whole array moved into the search bound; the two agree when all gaps pass, so when the spline is accurate and no key occurs more than twice, and with an accurate spline for every present key |
| MultiMap.MultiMap.Find | learned_models/rs/multi_map.h:100-105 | find returns the end for absent keys and, with an accurate spline or when all gaps pass, the first position of every present key, repeated or not |
| MphGraph.HalfParts | hashing/external/mph-1.2/graph.h:47-48 | half-edge numbers encode edge and end without collisions |
| MphGraph.Graph.constructor | hashing/external/mph-1.2/graph.c:10-27 | a new graph has empty lists |
| MphGraph.Graph.AddEdge | hashing/external/mph-1.2/graph.c:41-48 | pushing a half-edge keeps the links spelling out the lists |
| MphGraph.Graph.GrAddEdge | hashing/external/mph-1.2/graph.c:50-59 | after adding an edge the lists hold exactly the half-edges of the linked edges |
| MphGraph.Graph.GrDelEdges | hashing/external/mph-1.2/graph.c:61-68 | all lists are emptied |
| MphGraph.Graph.DelEdge | hashing/external/mph-1.2/graph.c:70-86 | one half-edge is unlinked from its list, all others keep their order |
| MphGraph.Graph.GrDelEdge | hashing/external/mph-1.2/graph.c:88-97 | the lists hold exactly the half-edges of the remaining edges |
| MphGraph.Graph.Degree1 | hashing/external/mph-1.2/graph.c:99-106 | the two link tests decide whether exactly one half-edge hangs at the node |
| MphGraph.Graph.CyclicDelEdge | hashing/external/mph-1.2/graph.c:108-119 | peeling a node removes edges of no core, empties its list, and leaves no node whose list changed with one half-edge |
| MphGraph.Graph.Pop1 | hashing/external/mph-1.2/graph.c:113-114 | the removed edge had the node to itself and goes onto the stack |
| MphGraph.Graph.GrCyclic | hashing/external/mph-1.2/graph.c:121-133 | reports a cycle exactly when some non-empty edge set has every touched node in at least two of its edges; otherwise every edge is stacked in peeling order |
| MphGraph.CoreAvoids | hashing/external/mph-1.2/graph.c:108-119 | an edge with a private node is in no core |
| MphGraph.PeelAppend | hashing/external/mph-1.2/graph.c:108-119 | pushing such an edge keeps the peeling order |
| MphGraph.Graph.RemainderIsCore | hashing/external/mph-1.2/graph.c:128-132 | with no node of degree one left, the remaining edges form a core |
| MphGraph.FullStack | hashing/external/mph-1.2/graph.c:132-132 | the stack is full exactly when no edge is left |
| Mph.Ff2 | hashing/external/mph-1.2/mph.c:94-116 | the two running sums with the wrapping cursor give the node function, which NodeIsSum and LoopOptionSpreads state without it |
| Mph.Ff3 | hashing/external/mph-1.2/mph.c:118-156 | the three running sums and the spreading give the node function, which NodeIsSum and LoopOptionSpreads state without it |
| MphLaws.NodeIsSum | hashing/external/mph-1.2/mph.c:94-138 | without the loop option node t of a key is the remainder by n of the 32-bit sum of the entries that its bytes select in table t, for two and three tables |
| MphLaws.LoopOptionSpreads | hashing/external/mph-1.2/mph.c:140-151 | with the loop option and at least d nodes, node t is the first place from that remainder on, round the circle, that no earlier node has |
| MphLaws.NoLoopIff | hashing/external/mph-1.2/mph.c:140-151 | with the loop option a key maps to a loop exactly when there are fewer nodes than ends |
| Mph.SpreadAvoidsLoops | hashing/external/mph-1.2/mph.c:140-151 | with the loop option and at least d nodes no key maps to a loop |
| Mph.GenEdges | hashing/external/mph-1.2/mph.c:212-232 | links one edge per key in input order, or fails exactly when some key maps to a loop |
| Mph.CompletesSum | hashing/external/mph-1.2/mph.c:189-191 | the C remainder, lifted when negative, completes the node sum to the edge number |
| Mph.AssignEdge | hashing/external/mph-1.2/mph.c:183-191 | the unset nodes of an edge get values that complete its sum and keep all earlier sums |
| Mph.EdgeDone | hashing/external/mph-1.2/mph.c:182-192 | setting only unset nodes keeps the sums of all edges done before |
| Mph.PopOne | hashing/external/mph-1.2/mph.c:183-183 | the popped edge has a node that no edge popped before touches |
| Mph.Assign | hashing/external/mph-1.2/mph.c:173-193 | after assignment every edge sums to its number modulo m |
| Mph.AssignedIsPerfect | hashing/external/mph-1.2/mph.c:158-171 | then every key hashes to its place in the input, and no key sees an unset node |
| Mph.PerfectIsBijection | hashing/external/mph-1.2/mph.c:158-171 | a perfect hash maps the keys one to one onto 0..m-1 |
| Mph.Verify | hashing/external/mph-1.2/mph.c:158-171 | the check passes exactly when every key hashes to its place |
| Mph.Build | hashing/external/mph-1.2/mph.c:234-245 | one round succeeds exactly when no key maps to a loop and no set of keys forms a core; the hash is then perfect and the check cannot fail |
| MphLaws.AnyEdges | hashing/external/mph-1.2/mph.c:94-138 | for different one-byte keys and any list of edges over n nodes some tables give exactly these edges |
| MphLaws.BuildEdges | hashing/external/mph-1.2/mph.c:234-245 | under these tables a round succeeds exactly when the given edges have no loop and no core |
| MphLaws.PerfectSums | hashing/external/mph-1.2/mph.c:158-171 | in a perfect hash the values of the two or three nodes of key e sum to e modulo the number of keys |
| Mph.DuplicateKeysFail | hashing/external/mph-1.2/mph.c:234-245 | repeated keys form a core, so no round ever succeeds on them |
| Emit.SaveKey | hashing/external/mph-1.2/keys.c:30-59 | one more key keeps the length and signed-char bounds tight |
| Emit.KeyNew | hashing/external/mph-1.2/keys.c:61-79 | the greatest and least length and char of all keys, from 0 and 4096 for lengths and 0 and 255 for chars on |
| Emit.NegativeMinChar | hashing/external/mph-1.2/keys.c:42-45 | the least char is negative exactly when some key has a byte above 127 |
| Emit.EmitT | hashing/external/mph-1.2/emitc.c:84-111 | the emitted table keeps exactly the used columns of every row, in order |
| Emit.EmitC | hashing/external/mph-1.2/emitc.c:237-251 | the values and tables read back are those that mph wrote, in its order |
| Emit.CursorMoves | hashing/external/mph-1.2/emitc.c:156-160 | the emitted step and wrap rule keep the shifted cursor in place |
| Emit.RunningStep | hashing/external/mph-1.2/emitc.c:151-167 | the compacted entry under the shifted cursor is the one the in-memory hash adds |
| Emit.Run | hashing/external/mph-1.2/emitc.c:113-206 | the generated function equals the in-memory hash on its whole domain, for d = 2 and 3, with and without loop, and in safe mode returns -1 elsewhere |
| Emit.RunOnKey | hashing/external/mph-1.2/emitc.c:113-206 | on the key set of a perfect hash the generated function returns each key its place |
| Emit.KeysInDomain | hashing/external/mph-1.2/emitc.c:94-96 | the key set lies in the domain on which Run is modelled exactly when the code is not compacted or no key has a byte above 127 |
| Emit.ReadsRightIff | hashing/external/mph-1.2/emitc.c:84-167 | for every key set, and over all tables: every read of every key finds the entry that the in-memory hash adds exactly when the code is not compacted or no key has a byte above 127 |
| Emit.CursorRuns | hashing/external/mph-1.2/emitc.c:137-160 | the printed start, step and wrap constants move the index through these reading positions |
| Emit.DroppedColumnReadsWrong | hashing/external/mph-1.2/emitc.c:84-111 | a byte whose column is not emitted is read wrong for some tables, wherever the code looks |
| Emit.HighByteMisreads | hashing/external/mph-1.2/emitc.c:84-167 | for the keys FF 61 61 and 7A 61 61 with three columns every read stays inside the table, yet a read of the second, plain key finds the entry of another byte in another row |
| Emit.NegativeMinCharReadsOutside | hashing/external/mph-1.2/emitc.c:137-159 | with a negative least char, compacted code seeks the greatest char in the last table column past the end of the table |
| ProbingFuncs.LinearProbe | hashtable/include/probing.hpp:22-28 | the subtraction loop is the remainder |
| ProbingFuncs.QuadraticProbe | hashtable/include/probing.hpp:42-44 | the fast modulo of index plus squared step |
| ProbingFuncs.Prober.Next | hashtable/include/probing.hpp:108-108 | the probing function object visits the specified bucket |
| ProbingFuncs.ProbeBounds | hashtable/include/probing.hpp:22-44 | a path stays in the directory and is back after n steps at the latest |
| ProbingFuncs.PathStep | hashtable/include/probing.hpp:22-44 | the next bucket of a linear path is the successor round the directory, that of a quadratic one lies 1, 3, 5, ... further |
| ProbingFuncs.LinearVisits | hashtable/include/probing.hpp:22-28 | linear probing visits every bucket before it comes back |
| Probing.Probing.Insert | hashtable/include/probing.hpp:84-113 | inserts exactly the new keys, keeps first payloads, refuses stored keys, and throws, changing nothing, exactly when the whole path is full |
| Probing.Probing.InsertInBucket | hashtable/include/probing.hpp:96-105 | one bucket fills its first empty slot, finds the duplicate, or is full |
| Probing.Probing.Lookup | hashtable/include/probing.hpp:121-147 | returns the payload of exactly the stored keys |
| Probing.Probing.Clear | hashtable/include/probing.hpp:215-221 | leaves the empty map; payloads stay in memory |
| Probing.Probing.constructor | hashtable/include/probing.hpp:66-69 | a new table is the empty map |
| Probing.EmptyEndsSearch | hashtable/include/probing.hpp:97-104 | where a walk meets an empty slot the key is stored nowhere |
| Probing.ReturnEndsSearch | hashtable/include/probing.hpp:108-111 | where a path comes back the key is stored nowhere and the path is full |
| Probing.PlaceKey | hashtable/include/probing.hpp:98-100 | filling that slot adds the key and keeps every other key reachable |
| Probing.LinearPathFull | hashtable/include/probing.hpp:76-77 | with linear probing a full path is a full table |
| RobinHood.RobinhoodProbing.Insert | hashtable/include/probing.hpp:277-327 | runs slot by slot to the one end of Next; refuses stored keys untouched, otherwise adds the key, or throws having lost exactly one entry and with the same slots taken; slots never lose psl. In the table before the call the path of the key carried last has an empty slot on success, is full on the throw for a cycle, and on the throw for a loop is full exactly when the slots still ahead are taken; with linear probing it throws exactly when no slot is empty |
| RobinHood.EndsSameTaken | hashtable/include/probing.hpp:290-326 | until an insertion ends the set of taken slots stays as it was |
| RobinHood.ReportsEarlier | hashtable/include/probing.hpp:290-326 | so what the end of an insertion tells about the path of the last key also held before the call |
| RobinHood.EndsOnce | hashtable/include/probing.hpp:290-326 | an insertion ends in one place, one way and with one table |
| RobinHood.GoingPathFull | hashtable/include/probing.hpp:306-307 | anywhere on the walk the path of the carried key is full exactly when its slots from there on are taken |
| RobinHood.RobinhoodProbing.Walk | hashtable/include/probing.hpp:290-326 | the insertion loop follows Next and ends: each swap shrinks the room left for psl, otherwise the step grows |
| RobinHood.RobinhoodProbing.ScanSlot | hashtable/include/probing.hpp:297-318 | one slot is filled, refused, robbed or passed as Next says, and the carried key keeps its invariants |
| RobinHood.StealStep | hashtable/include/probing.hpp:303-318 | a theft conserves the entries, keeps every stored key at its psl-th probe, and lets the displaced key go on from the next slot |
| RobinHood.TakeSlot | hashtable/include/probing.hpp:309-313 | taking a slot keeps every other key at its psl-th probe behind no richer slot |
| RobinHood.WalkEndsAbsent | hashtable/include/probing.hpp:297-303 | where an unmet key finds an empty or richer slot it is stored nowhere |
| RobinHood.SwapShrinksRoom | hashtable/include/probing.hpp:303-318 | every swap raises the sum of psl |
| RobinHood.GapShrinks | hashtable/include/probing.hpp:322-322 | a linear walk that leaves a full bucket comes nearer to any hole |
| RobinHood.LoopStep | hashtable/include/probing.hpp:306-307 | meeting the new key again loses exactly the carried entry, and never happens with a hole under linear probing |
| RobinHood.CycleStep | hashtable/include/probing.hpp:323-325 | a path that came back is full and loses exactly the carried entry |
| RobinHood.LinearPathFull | hashtable/include/probing.hpp:269-270 | with linear probing a full path is a full table |
| RobinHood.RobinhoodProbing.Lookup | hashtable/include/probing.hpp:335-361 | finds exactly the stored keys with their payloads |
| RobinHood.RobinhoodProbing.Clear | hashtable/include/probing.hpp:429-435 | leaves the empty map |
| RobinHood.RobinhoodProbing.constructor | hashtable/include/probing.hpp:259-262 | a new table is the empty map |
| RobinHoodExample.ThrowsDespiteRoom | hashtable/include/probing.hpp:306-307 | inserting six keys into an empty, quadratically probed table throws for a loop and loses one, although a bucket on its path is empty, against the comment of insert |
| RobinHoodExample.Fill | hashtable/include/probing.hpp:290-320 | the first five insertions and the table they leave |
| Cuckoo.Cuckoo.Insert | hashtable/include/cuckoo.hpp:238-276 | updates stored keys without throwing, adds new keys, and on reaching the kick limit loses exactly the entry in flight; a throw comes after exactly 50001 random draws, a success after at most 50000, and a stored key or one with room in its buckets neither draws nor throws; the sentinel key changes nothing while one of its buckets has room |
| Cuckoo.Cuckoo.Kick | hashtable/include/cuckoo.hpp:37-63 | fills the bucket the policy prefers, or, exactly when both are full, draws one number and displaces the entry it selects; table and victim hold the old entries and the new one |
| Cuckoo.Cuckoo.CountTaken | hashtable/include/cuckoo.hpp:86-92 | the counts are the lengths of the packed prefixes |
| Cuckoo.Cuckoo.Update | hashtable/include/cuckoo.hpp:256-266 | a stored key is found in one of its buckets and gets the new payload; the sentinel key is found exactly when one of its buckets has room |
| Cuckoo.EmptyPayload | hashtable/include/cuckoo.hpp:256-266 | a payload written into an empty slot belongs to no key |
| Cuckoo.Cuckoo.Lookup | hashtable/include/cuckoo.hpp:156-182 | returns the payload of exactly the stored keys; the sentinel key is found exactly when one of its buckets has room |
| Cuckoo.Cuckoo.Clear | hashtable/include/cuckoo.hpp:231-235 | leaves the empty map |
| Cuckoo.Cuckoo.constructor | hashtable/include/cuckoo.hpp:150-154 | a new table is the empty map |
| Cuckoo.PutKey | hashtable/include/cuckoo.hpp:46-62 | writing into the first empty or a taken slot keeps keys unique, in one of their buckets, and buckets packed |
| Cuckoo.KickKeepsFlight | hashtable/include/cuckoo.hpp:269-275 | table plus entry in flight is the old map with the new entry, at every kick |
| Cuckoo.LostInFlight | hashtable/include/cuckoo.hpp:241-243 | a throw loses exactly the entry in flight |
| Cuckoo.InOneBucket | hashtable/include/cuckoo.hpp:249-266 | a key is stored exactly when one of its two buckets holds it |
| Cuckoo.Config.SecondBucket | hashtable/include/cuckoo.hpp:249-251 | the second bucket is the one reduced to, or the successor of the first when these coincide; they differ unless the directory has one bucket |
| Blocks.FoldPrefix | thirdparty/thirdparty/xxhash.h:4277-4288 | later bytes never change the state after earlier blocks |
| Xxh.OneShot | thirdparty/thirdparty/xxhash.h:1904-1941 | the one-shot loop computes the hash of the message, 32- and 64-bit |
| XxhLaws.LaneRound | thirdparty/thirdparty/xxhash.h:1711-1716 | a lane takes a word by multiplying, turning 13 or 31 bits and multiplying again, with the primes written out for both widths |
| XxhLaws.FirstLanes | thirdparty/thirdparty/xxhash.h:1917-1920 | the four lanes before the first stripe, with the primes written out |
| XxhLaws.Stripe32 | thirdparty/thirdparty/xxhash.h:1922-1930 | stripe k of XXH32 gives its four little-endian words to the four lanes in order |
| XxhLaws.Stripe64 | thirdparty/thirdparty/xxhash.h:2488-2496 | stripe k of XXH64 gives its four little-endian words to the four lanes in order |
| XxhLaws.Converge32 | thirdparty/thirdparty/xxhash.h:1933-1933 | the lanes of XXH32 are turned by 1, 7, 12 and 18 bits and added |
| XxhLaws.Converge64 | thirdparty/thirdparty/xxhash.h:2499-2503 | those of XXH64 likewise, and each is then merged into the hash |
| XxhLaws.Tail32 | thirdparty/thirdparty/xxhash.h:1801-1827 | the last bytes of XXH32 are taken as words of four while there are any, then one by one, with the primes and turns written out |
| XxhLaws.Tail64 | thirdparty/thirdparty/xxhash.h:2302-2339 | those of XXH64 as words of eight, at most one word of four, then one by one |
| XxhLaws.AvalancheIs | thirdparty/thirdparty/xxhash.h:2291-2298 | the final mixing, with shifts 15, 13, 16 and 33, 29, 32 and the primes written out |
| XxhLaws.HashReads | thirdparty/thirdparty/xxhash.h:2470-2512 | messages below 16 or 32 bytes start from the seed and the fifth prime, others from the lanes after all whole stripes; the length is added and the rest follows |
| Xxh.XxhState.constructor | thirdparty/thirdparty/xxhash.h:1981-1991 | a reset state has seen nothing |
| Xxh.XxhState.Update | thirdparty/thirdparty/xxhash.h:2565-2626 | any chunk extends the message; full stripes are mixed and the rest is buffered |
| Xxh.XxhState.Digest | thirdparty/thirdparty/xxhash.h:2629-2653 | the digest is the one-shot hash of everything added, for either width, unless the 64-bit total of XXH64 has wrapped to that of a short message, when it takes the short branch |
| Xxh.StateLength | thirdparty/thirdparty/xxhash.h:2006-2007 | the sticky flag of XXH32 tells short messages from long ones for every length, the wrapping total of XXH64 exactly for the lengths of LengthOk |
| Xxh.DigestParts | thirdparty/thirdparty/xxhash.h:2068-2073 | before the first stripe the third lane holds the seed |
| Xxh3.Accumulate | thirdparty/thirdparty/xxhash.h:4277-4288 | stripes of one block use consecutive secret segments |
| Xxh3.ConsumeStripes | thirdparty/thirdparty/xxhash.h:4621-4640 | up to one block of stripes, scrambling exactly at a block end, advances the accumulators of the message |
| Xxh3.HashLong | thirdparty/thirdparty/xxhash.h:4290-4320 | block by block, partial block and last stripe give the specified accumulators, which StripeReads and LastReads state in plain offsets |
| Xxh3.OneShot | thirdparty/thirdparty/xxhash.h:4439-4460 | short messages go to the short function, long ones to the long loop and the merge |
| Xxh3.BlockStart | thirdparty/thirdparty/xxhash.h:4293-4309 | blocks and the last partial block hold floor((len - 1) / 64) stripes |
| Xxh3.HashBlock | thirdparty/thirdparty/xxhash.h:4296-4300 | one block of stripes and its scramble advance the accumulators of the message |
| Xxh3.HashEnd | thirdparty/thirdparty/xxhash.h:4302-4320 | the partial block and the last 64 bytes, under the 64 secret bytes that end 7 before its end, complete the long hash |
| Xxh3Laws.StripeReads | thirdparty/thirdparty/xxhash.h:4277-4304 | stripe k reads bytes 64k to 64k + 63 of the message under the secret from 8 times its place in the block; only the last stripe of a block is followed by a scramble with the last 64 secret bytes |
| Xxh3Laws.LastReads | thirdparty/thirdparty/xxhash.h:4313-4318 | the last 64 bytes of the message are accumulated with the secret bytes from size - 71 to size - 8 |
| Xxh3Laws.HashReads | thirdparty/thirdparty/xxhash.h:4439-4460 | up to 240 bytes the short function hashes, above them the merge of the long accumulators with the secret from byte 11 on |
| Xxh3Laws.ThreeHundred | thirdparty/thirdparty/xxhash.h:4290-4320 | 300 bytes under 192 secret bytes, read by read: 0..64, 8..72, 16..80, 24..88, and 121..185 for the last stripe |
| Xxh3Laws.FirstBlockEnds | thirdparty/thirdparty/xxhash.h:4301-4311 | under 192 secret bytes stripe 15 is followed by a scramble with secret 128..192, and stripe 16 reads secret 0..64 again |
| Xxh3.Xxh3State.Update | thirdparty/thirdparty/xxhash.h:4645-4703 | any chunk extends the message; buffer, stripe and block bookkeeping stay consistent |
| Xxh3.Xxh3State.CompleteBuffer | thirdparty/thirdparty/xxhash.h:4675-4684 | a buffer filled up is consumed as the next four stripes |
| Xxh3.Xxh3State.ConsumeInput | thirdparty/thirdparty/xxhash.h:4686-4697 | input is consumed by buffer sizes while something remains, and the last stripe is kept |
| Xxh3.Xxh3State.DigestLong | thirdparty/thirdparty/xxhash.h:4711-4734 | the digest of a long message gives the accumulators of the one-shot loop, with the last 64 bytes rebuilt from the buffer tail and read under the same secret bytes |
| Xxh3.Xxh3State.Digest | thirdparty/thirdparty/xxhash.h:4737-4751 | the digest is the one-shot hash of everything added: up to 240 bytes the short function, above them the merge with the secret from byte 11 on |
| Xxh3.Xxh3State.Reset | thirdparty/thirdparty/xxhash.h:4586-4591 | a state with the default secret of 192 bytes and no input |
| Xxh3.Xxh3State.ResetWithSecret | thirdparty/thirdparty/xxhash.h:4594-4604 | refuses exactly the secrets under 136 bytes, of any size, and still leaves a state that can be reset |
| Xxh3.Xxh3State.ResetWithSeed | thirdparty/thirdparty/xxhash.h:4607-4616 | the custom secret always belongs to the seed, also when it is not derived again |
| Xxh3.LastStripe | thirdparty/thirdparty/xxhash.h:4724-4731 | kept and buffered bytes together are the last 64 bytes of the message |
| Xxh3.StripesBeforeLast | thirdparty/thirdparty/xxhash.h:4717-4718 | accumulated and buffered stripes are all stripes before the last byte |
| Spooky.Hash128 | hashing/external/spookyhash/SpookyV2.cpp:127-186 | the one-call hash: all blocks, then the padded tail |
| SpookyLaws.InitialWords | hashing/external/spookyhash/SpookyV2.cpp:150-152 | the twelve initial words, written out |
| SpookyLaws.PaddedBytes | hashing/external/spookyhash/SpookyV2.cpp:176-180 | the tail is followed by zeros, and byte 95 holds its length |
| SpookyLaws.HashReads | hashing/external/spookyhash/SpookyV2.cpp:127-186 | below 192 bytes the short hash; else the first two words left by End after all whole blocks and the padded rest |
| SpookyLaws.TwoHundredFifty | hashing/external/spookyhash/SpookyV2.cpp:127-186 | 250 bytes: two blocks, and 58 bytes that are padded |
| Spooky.SpookyHash.Init | hashing/external/spookyhash/SpookyV2.cpp:191-197 | a state that has seen nothing |
| Spooky.SpookyHash.Update | hashing/external/spookyhash/SpookyV2.cpp:201-301 | any fragment extends the message; buffered and mixed blocks stay consistent |
| Spooky.SpookyHash.UseBuffer | hashing/external/spookyhash/SpookyV2.cpp:247-261 | a filled buffer is mixed in as two blocks |
| Spooky.SpookyHash.Final | hashing/external/spookyhash/SpookyV2.cpp:305-350 | each final reports the hash of everything added so far and leaves the state able to go on |
| Spooky.SpookyHash.Pad | hashing/external/spookyhash/SpookyV2.cpp:340-343 | padding writes only beyond the stashed bytes |
| Spooky.FinalParts | hashing/external/spookyhash/SpookyV2.cpp:332-346 | at most one whole block is left in the buffer before the tail |
| Semaphore.StepKeepsInv | convenience/include/semaphore.hpp:26-46 | every step of every thread keeps the counter in range and enough notified threads for every un-notified sleeper |
| Semaphore.RunKeepsInv | convenience/include/semaphore.hpp:26-46 | so does every run |
| Semaphore.CounterBoundIff | convenience/include/semaphore.hpp:19-19 | the counter stays within 0..max on every run exactly when it starts there |
| Semaphore.StartAboveMaxGrows | convenience/include/semaphore.hpp:29-32 | starting above the maximum, the unsigned check wraps and release raises the counter further |
| Semaphore.NoLostWakeup | convenience/include/semaphore.hpp:32-45 | while someone sleeps un-notified and permits are left, a notified thread can take one right away |
| Semaphore.AsleepMeansEmpty | convenience/include/semaphore.hpp:41-46 | once every notified thread has run, a sleeper means that no permit is left |
| Semaphore.TakesOne | convenience/include/semaphore.hpp:41-46 | an acquiring step takes one permit exactly when the counter is positive |
| Semaphore.CounterLedger | convenience/include/semaphore.hpp:26-46 | on every run the final counter plus the number of acquiring steps that found a positive counter is the start counter plus the updates of the releases that did not throw |
| Semaphore.DrainAnyOrder | convenience/include/semaphore.hpp:41-46 | however the scheduler picks the woken threads, each runs once, permits are conserved, and when all have run nobody sleeps or no permit is left |
| Semaphore.Drain | convenience/include/semaphore.hpp:41-46 | from every state such a run exists |
| Semaphore.PairedUse | convenience/include/semaphore.hpp:26-46 | under paired use held permits and counter add up to the start value and no release throws |
| Semaphore.CountingSemaphore.Aquire | convenience/include/semaphore.hpp:41-46 | one step of the machine: takes exactly one permit when the counter is positive, else goes to sleep and takes none |
| Semaphore.CountingSemaphore.Resume | convenience/include/semaphore.hpp:43-45 | a woken thread checks the counter again and takes one permit or sleeps on |
| Semaphore.CountingSemaphore.Release | convenience/include/semaphore.hpp:26-35 | one step of the machine: throws, changing nothing, or raises the counter by exactly the update and notifies once per unit |
| Semaphore.CountingSemaphore.NotifyEach | convenience/include/semaphore.hpp:33-34 | the loop wakes as many sleepers as units, or all of them |
| Semaphore.CountingSemaphore.constructor | convenience/include/semaphore.hpp:17-19 | a semaphore with its start value and nobody waiting |

## Left out

- Vector, assembly and AES code of libdivide, XXH3, aqua and meow; only the portable branches are modelled.
- Rounding of doubles and the fused multiply-add of the spline: `ComputeOrientation` is the exact sign of the cross product and `EstimatedPosition` an exact real.
- MultiMap.MultiMap.constructor: entries that all have one key, as the spline builder with equal least and greatest key, for which the prefix width takes the undefined `clz(0)`.
- MultiMap.MultiMap.LowerBoundOf: the empty map is searched for key 0 only. Between its least and greatest key the source reads a spline point that does not exist, and from the greatest key on it casts the wrapped position num_keys - 1 to an index out of range.
- MultiMap.MultiMap.Find: searches the empty map for key 0 only, as LowerBoundOf.
- 32-bit counts of spline points and table entries are unbounded naturals.
- `std::sort` is modelled as insertion sort by key; only order and permutation of its result are used.
- RMI, PGM, chained hashing, City, Murmur, multiplicative and tabulation hashes.
- Reading keys, random tables and the retry loop of the perfect hash generator: `Mph.Build` is one round, for any tables.
- The perfect hash of an empty key set, and a zero limit on the table columns with non-empty keys.
- The constant c of the perfect hash header and the seed and iteration count, which are only printed.
- Emit.Run: with the safe option off, the generated function is modelled on its domain only, since outside it reads outside its tables.
- MphGraph.Graph.DelEdge: walks its list assuming that the half-edge is there, as the source does; a ghost index says where.
- Mixing rounds of XXH3 and SpookyHash (accumulate, scramble, merge, Mix, End, the short hashes): they are parameters, as is the derivation of a custom secret.
- XXH3 for 128-bit results, which shares update and the accumulator loops and differs in the final merge only.
- The branches of XXH32 and XXH64 finalisation by jump table, which consume the same words and bytes as the loops.
- Xxh3.Xxh3State.Digest: messages of 2^64 bytes or more, where the total length wraps.
- Xxh3.Xxh3State.ResetWithSecret: the null secret, which has no counterpart for sequences.
- Xxh3.Xxh3State.Update: the null input pointer, which has no counterpart for sequences.
- Payload layout, packing, allocation failure and statistics of the tables; `lookup_statistics` only counts.
- Probing.Probing.Insert: like the Robin Hood form, it takes a directory size with n * n + n below 2^64, so that a squared step does not wrap.
- The assertion against the sentinel key: it is modelled as the refusal that follows it.
- Cuckoo.Cuckoo.Insert: the sentinel key with both of its buckets full, where the kick writes it over a stored entry and the buckets stop being packed.
- The mutex and the condition variable of the semaphore as such: one stretch under the mutex is one step, and which sleeper a notification wakes is arbitrary.
- Overflow of the node sums in the perfect hash, which would need more than 2^30 keys.

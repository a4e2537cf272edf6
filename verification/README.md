# Verification of the cqjs runtime libraries and request protocol

A Dafny model of the parts of cqjs that have an exact specification, with proofs that the code meets it. The model
follows the code: an object that is updated in place is a class, a loop is a loop, and each such method is proved
against a function or a predicate that does not mention how it works.

What is modelled, and where:

- **Regular expressions** (`quickjs/libregexp.c`): the pattern as a tree, the one-pass compiler as a class that
  inserts into and patches its code buffer, the backtracking machine as a step function and as a class, and the
  continuation-style matcher of section 22.2.2 of ECMA-262 as the reference. Modules `Subject`, `RegexSyntax`,
  `RegexSemantics`, `RegexVm`, `RegexRanges`, `RegexExplore`, `RegexSteps`, `RegexAtoms`, `RegexLoops`, `RegexGreedy`,
  `RegexQuant`, `RegexErase`, `RegexCorrect`, `RegexSearch`, `RegexStack`, `RegexMatch`, `RegexCompiler`, `RegexExec`,
  `RegexRangeBytes`, `RegexEngine`, `Surrogates`. The proof goes through lists of end positions: the reference matcher
  takes the first acceptable one, and the machine visits them in that order. Programs are first taken with the saves
  of their groups forgotten, and a step-by-step correspondence brings the groups back.
- **Printing and reading doubles** (`quickjs/dtoa.c`): limb arithmetic in place, division by a precomputed reciprocal,
  exact scaling by powers with one sticky bit, rounding to 53 bits, the search for digits that read back, and the text
  in both directions. Modules `Powers`, `Limbs`, `Reciprocal`, `LimbDivision`, `Rounding`, `SmallPowers`, `BigNum`,
  `ExactScaling`, `ScaledPower`, `Doubles`, `LogRadix`, `RoundTrip`, `DecimalDigits`, `DtoaFree`, `DoubleBits`,
  `DecimalText`, `DecimalReading`, `NumberText`, `NearestDoubles`, `DecimalBounds`, `DecimalLiterals`, `Extremes`.
- **Sorting and UTF-8** (`quickjs/cutils.h`): introsort on an array with its 50-entry stack, and the codecs between
  UTF-8 and 16-bit units. Modules `SortSpec`, `HeapSort`, `Partitioning`, `Rqsort`, `Utf8`, `Utf8Buffers`.
- **Character sets and compressed tables** (`quickjs/libunicode.c`, `quickjs/libunicode.h`): modules `CharSets`,
  `CharRanges`, `CharOverlap`, `UnicodeTables`.
- **The request protocol** (`main.c`, `env_manager.c`, `go/cqjs.go`): the Go client, the standard-input thread, the
  main thread and the environment threads as atomic steps that interleave in any order. Modules `Protocol`,
  `ProtocolInvariant`, `ProtocolSteps`, `ProtocolProgress`, `ProtocolResults`, `ProtocolDropped`, `ProtocolDrops`,
  `ProtocolChoice`, `Queues`.
- **Smaller state**: the bytecode cache (`LruSpec`, `BytecodeCache`), the timers (`Timers`) and Base64 (`Base64`).

Four things one might expect do not hold of the code. Not every request gets a reply: what is still in the queue of an
environment when its thread finds `running` cleared is lost, and nothing else is (`ProtocolDrops.LostExactly`). A
request that is queued when `destroy_env` is handled is still answered if the thread is in its fetch loop. A caller
can tell beforehand what is safe: only an evaluation that is followed by a `destroy_env` of the same environment can
be lost (`ProtocolDrops.DropNeedsDestroy`), and every other request is answered
(`ProtocolDrops.AnsweredUnlessDestroyed`). That condition is exact as far as the caller can see: where a destroy has
been written behind an evaluation, with no exit and any other requests in between, the threads decide, and both
outcomes are possible (`ProtocolChoice.MayBeLost`, `ProtocolChoice.MayBeAnswered`). Base64 text that contains `8` or
`9` does not decode to what was encoded, because the decode table has no entry for them; `Base64.RoundTrip` gives the
exact condition. Minus zero is printed as `0` unless the flag for it is set; `NumberText.PrintThenRead` says that this
and NaN are the only doubles that do not come back. A decimal literal is not always read as the nearest double: the
place of its first digit is computed in 32 bits, and `123456789e2147483639` reads as zero
(`DecimalLiterals.HugeReadsAsZero`); `DecimalLiterals.PlaceFits` is the exact condition. The overflow of that sum is
undefined in C; the model takes the wrap-around that two's complement gives.

Clocks, callbacks and what a script does are parameters: `Timers` takes the actions of each callback and the clock
readings, none before the time sampled at the start of the pass, and `BytecodeCache` takes the reading of each access.
In `Protocol` the evaluation of a script is one step that ends, pipes do not fill up, and lines arrive whole. Integers
are unbounded; where some short input makes the code wrap around or mask, that is written out, and counters that
overflow only after 2^31 steps or characters are not.

## Model

| member | source | states |
|---|---|---|
| RegexRanges.RangeOpAcceptsSet | quickjs/libregexp.c:784-820 | for every canonical character set, the interval list that is emitted, 16-bit with 0xffff as infinity or 32-bit, accepts a code point exactly when it is in the set |
| RegexRangeBytes.RangeContains | quickjs/libregexp.c:2362-2438 | the binary search over the emitted bytes, with its two shortcuts, reads nothing outside them and hits exactly the intervals that hold the character |
| RegexRangeBytes.PairsFit | quickjs/libregexp.c:784-820 | no endpoint is cut off when it is written: every one fits in the 16 or 32 bits of the form that is chosen |
| RegexRangeBytes.EmitRange | quickjs/libregexp.c:784-820 | the bytes are the count and the endpoints, low byte first; 65535 intervals or more are refused |
| RegexRangeBytes.EmitThenSearch | quickjs/libregexp.c:784-2438 | a set that is emitted and then searched accepts a code point exactly when it is in the set, and is refused exactly when it has too many intervals |
| RegexRanges.TestOpFaithful | quickjs/libregexp.c:2162-2438 | the instruction chosen for a character, a class, a dot or any character accepts exactly what the test means |
| RegexAtoms.NoCheckNeeded | quickjs/libregexp.c:942-994 | an atom for which re_need_check_advance says no never matches the empty string, in either direction |
| RegexAtoms.SimpleEnds | quickjs/libregexp.c:998-1036 | an atom judged simple has at most one way to match, and its code runs straight through it |
| RegexAtoms.StraightRunBack | quickjs/libregexp.c:998-1036 | stepping back by the counted characters from the end of a simple atom leads to its start |
| RegexGreedy.GreedyListIsRepeat | quickjs/libregexp.c:2124-2146 | the positions that the one-state greedy loop keeps, longest first, are those the general repetition tries, in the same order |
| RegexGreedy.GreedyQuantifier | quickjs/libregexp.c:2445-2486 | simple_greedy_quant, with one saved state that steps back char_count characters, explores the same end positions in the same order as the general loop, for every minimum and maximum |
| RegexQuant.RepeatSplits | quickjs/libregexp.c:1573-1664 | a repetition is its required iterations followed by its optional ones, end positions in the same order |
| RegexQuant.QuantifierRuns | quickjs/libregexp.c:1537-1664 | whatever form the code of a quantifier takes (greedy shortcut, skip, loop, counted loop, plus form, required part and rest), it explores exactly the repetitions of its atom in the order of ECMA-262 |
| RegexErase.EraseQuant | quickjs/libregexp.c:1579-1604 | the form of a quantifier does not depend on which captures its atom saves |
| RegexSemantics.MatcherIsFirstAccepted | quickjs/libregexp.c:2074-2492 | the continuation matcher of section 22.2.2 of ECMA-262 returns what its continuation makes of the first end position it accepts, in backtracking order |
| RegexCorrect.Simulate | quickjs/libregexp.c:1185-1748 | the code of every pattern node, in either direction, explores exactly the end positions of the node, one after the other, and leaves stack and captures as they were |
| RegexSearch.ForgetfulPatternIsCorrect | quickjs/libregexp.c:1830-1852 | the whole program, with the search loop unless sticky, ends with the answer of RegExpBuiltinExec (section 22.2.7.2 of ECMA-262) |
| RegexStack.ComputeStackSize | quickjs/libregexp.c:1751-1793 | one pass gives the largest linear depth of the code, or reports that it is above the limit |
| RegexStack.BalancedCode | quickjs/libregexp.c:1185-1748 | in the code of every pattern the depth is the same however an instruction is reached, and is zero again at the end |
| RegexStack.ReachableIsSafe | quickjs/libregexp.c:2091-2295 | in every reachable state of every compiled pattern, also after backtracking or leaving a lookaround, the stack is as deep as the linear depth at its instruction, and so is every saved stack |
| RegexStack.StackSizeIsSound | quickjs/libregexp.c:1751-1793 | no reachable state has a stack deeper than the computed size or is without a next step |
| RegexMatch.EraseStep | quickjs/libregexp.c:2250-2271 | forgetting the groups commutes with every step of the machine |
| RegexMatch.CompiledPatternIsCorrect | quickjs/libregexp.c:2074-2492 | every well-formed pattern, compiled and run from a character boundary, terminates, succeeds exactly when ECMA-262 does, and gives the same start and end |
| RegexCompiler.Compiler.EmitQuantifier | quickjs/libregexp.c:1537-1664 | inserting, copying and patching in the code buffer produces the quantifier code around the atom already emitted |
| RegexCompiler.Compiler.CompileAlt | quickjs/libregexp.c:1715-1748 | the split inserted before the first alternative and the goto patched after the second give the code of the alternation |
| RegexCompiler.Compiler.CompileSeq | quickjs/libregexp.c:1679-1713 | backward sequences are emitted term by term and rotated into reverse order |
| RegexCompiler.Compiler.CompileCapture | quickjs/libregexp.c:1303-1327 | saves around the body in the order of the direction, or a rejection when there are 255 captures |
| RegexCompiler.Compiler.Compile | quickjs/libregexp.c:1185-1748 | the one-pass compiler leaves exactly the code of the pattern at the end of the buffer and counts its groups, or rejects it for too many groups, too many intervals, or 64 MB of code before some term, alternative or group |
| RegexCompiler.CompilePattern | quickjs/libregexp.c:398-1862 | the result is the whole program with its capture count and stack size; the pattern alone decides whether it is rejected, for groups, intervals or the size of the code, or needs too large a stack |
| RegexExec.Machine.PushState | quickjs/libregexp.c:2025-2061 | the state of the moment is on top, and every state saved before lies below it unchanged, also when the array has to grow |
| RegexExec.Machine.ExecuteControl | quickjs/libregexp.c:2183-2295 | each control instruction changes the machine as the step function says |
| RegexExec.Machine.Unwind | quickjs/libregexp.c:2091-2156 | failing and succeeding unwind the saved states as the step function says |
| RegexExec.Machine.Turn | quickjs/libregexp.c:2074-2492 | one turn of the interpreter loop is one step |
| RegexExec.Execute | quickjs/libregexp.c:2497-2534 | the loop terminates; it finds a match exactly when ECMA-262 does, with the start and end of capture 0 |
| RegexEngine.CapturesAgree | quickjs/libregexp.c:1799-1862 | the number of groups the compiler counts is the number the machine makes room for |
| RegexEngine.CompileAndExecute | quickjs/libregexp.c:398-2534 | compiling and running gives the answer of RegExpBuiltinExec of ECMA-262 for every pattern within the limits on groups, intervals, code size and stack, and a refusal exactly for the others |
| Limbs.AddSmall | quickjs/dtoa.c:74-88 | the limbs and the carry are the old value plus the addend |
| Limbs.MulSmall | quickjs/dtoa.c:91-103 | the limbs and the carry are the old value times the factor plus the carry in |
| Reciprocal.DivideIsExact | quickjs/dtoa.c:106-134 | with the precomputed reciprocal, udiv1norm gives the exact quotient and remainder for every normalized divisor and every dividend with a high limb below it |
| LimbDivision.DivSmall | quickjs/dtoa.c:136-149 | schoolbook division: quotient limbs and remainder of the value with the incoming remainder |
| LimbDivision.ShiftRight | quickjs/dtoa.c:151-166 | the limbs are the value shifted down and the bits shifted out are returned |
| LimbDivision.ShiftLeft | quickjs/dtoa.c:169-183 | the limbs are the value shifted up, with the bits carried out |
| LimbDivision.DivNormalized | quickjs/dtoa.c:185-198 | in place, by the shifted divisor and its reciprocal: quotient and remainder by the unshifted divisor |
| LimbDivision.DivisionsAgree | quickjs/dtoa.c:136-198 | two divisions of the same value by the same divisor give the same limbs and the same remainder, so mp_div1norm agrees with mp_div1 |
| Rounding.StickyRound | quickjs/dtoa.c:312-397 | a floor quotient with one sticky bit and two guard bits rounds, in all three modes, like the exact fraction |
| SmallPowers.DigitsFit | quickjs/dtoa.c:701-707 | for every odd radix the digits per limb are as many as fit in 32 bits |
| SmallPowers.Pow5InverseIsInverse | quickjs/dtoa.c:220-239 | the reciprocals in the table are those that udiv1norm_init computes |
| SmallPowers.PowUi | quickjs/dtoa.c:241-267 | tables and repeated squaring give the power whenever it fits in 64 bits |
| SmallPowers.PowUiInverse | quickjs/dtoa.c:270-296 | the normalized power, its shift and its reciprocal |
| BigNum.Mpb.GetBit | quickjs/dtoa.c:299-309 | the bit of the value at that place, also beyond its limbs |
| BigNum.Mpb.ShrRound | quickjs/dtoa.c:312-397 | the value shifted down and rounded in the mode asked for; the part of mpb_shr_round for shifts that are not negative |
| ScaledPower.ShrRound | quickjs/dtoa.c:312-397 | for every value, zero included, and both signs of the shift: rounded down in the mode asked for, or exactly multiplied |
| BigNum.Mpb.FloorLog2 | quickjs/dtoa.c:447-455 | the place of the highest bit |
| BigNum.Mpb.MulAdd | quickjs/dtoa.c:1332-1350 | the value times the base plus a limb, a base of zero standing for 2^32; one limb longer at most |
| LogRadix.MulLog2IsFloor | quickjs/dtoa.c:473-487 | for radix 10 and every argument from -2048 to 2047, the multiplication by the constant is the floor of the logarithm |
| ScaledPower.MulPow | quickjs/dtoa.c:892-955 | the exact product, or the sticky quotient with enough bits, by chunks that fit in a limb; no limb beyond the room is written |
| ScaledPower.MulPowRound | quickjs/dtoa.c:958-966 | m times 2^e times radix^f, rounded once, for every mantissa, exponents, radix and mode |
| Doubles.RoundToD | quickjs/dtoa.c:969-1002 | the 53-bit mantissa and exponent, with fewer bits for subnormals and the carry out of the mantissa |
| Doubles.MulPowRoundToD | quickjs/dtoa.c:1005-1012 | the nearest double, ties to even, of a times radix^f |
| RoundTrip.NearestUnique | quickjs/dtoa.c:1353-1606 | only one mantissa and exponent is nearest, so reading back is deterministic |
| NearestDoubles.NearestIsDouble | quickjs/dtoa.c:1353-1606 | what is nearest to a value and not zero has 53 bits and an exponent of at least -1073, so the branch for smaller exponents discards nothing; up to exponent 1024 it is a finite double |
| DecimalDigits.FirstTry | quickjs/dtoa.c:1179-1235 | seventeen digits at the first exponent convert back, without being checked |
| DecimalDigits.SecondTry | quickjs/dtoa.c:1179-1235 | so do seventeen digits at the next exponent when the first one overflows |
| DtoaFree.FreeDigits | quickjs/dtoa.c:1179-1235 | the digits chosen convert back to the double, have no trailing zero, and one digit fewer does not convert back; the fixed buffer suffices |
| DoubleBits.EncodeDecode | quickjs/dtoa.c:1107-1166 | taking a finite double apart and assembling it is the identity |
| DoubleBits.DecodeEncode | quickjs/dtoa.c:1107-1606 | storing a finite double and taking it apart gives it back, so no double is stored as another or as zero |
| NumberText.U64ToA | quickjs/dtoa.c:615-643 | the decimal digits of a 64-bit integer |
| NumberText.OutputDigits | quickjs/dtoa.c:846-888 | the digits of a value with the point at its place |
| NumberText.JsDtoa | quickjs/dtoa.c:1107-1316 | for every bit pattern, the text in free format: digits that are nearest to the double, in the layout of Number.prototype.toString |
| DecimalReading.LayoutReads | quickjs/dtoa.c:1353-1606 | each of the four layouts is scanned back to its sign, digits and exponent |
| NumberText.JsAtod | quickjs/dtoa.c:1353-1606 | for every string, a refusal, or bits that decode to the double nearest to the value read, to infinity or to zero; the range checks add in 32 bits as the code does |
| DecimalBounds.NearestExists | quickjs/dtoa.c:1353-1606 | every positive value has a nearest double |
| DecimalBounds.OverflowIsNearest | quickjs/dtoa.c:1353-1606 | where the exponent check answers infinity without converting, the nearest double is out of range |
| DecimalBounds.VanishIsNearest | quickjs/dtoa.c:1353-1606 | where the exponent check answers zero without converting, the nearest value is zero |
| DecimalBounds.StoredIsRounded | quickjs/dtoa.c:1353-1606 | the bits that js_atod assembles decode to the nearest double, to zero if that is nearest, and to infinity if it is out of range |
| DecimalLiterals.ScanMantissa | quickjs/dtoa.c:1353-1606 | wherever the point stands and however many zeros lead, the scan finds the significant digits, their number and the place of the point |
| DecimalLiterals.ScanTail | quickjs/dtoa.c:1353-1606 | the exponent read is the one written, exactly when that is below 2147483640 in size, and is marked as too large otherwise |
| DecimalLiterals.ReadLiteral | quickjs/dtoa.c:1353-1606 | for every decimal literal of at most 38 significant digits, with or without sign, point, fraction and exponent, and whatever follows it: the bits decode to the double nearest to the number written, ties to even, if and only if the number is zero, the exponent is flagged as too large, or the place of the first digit fits in 32 bits; otherwise a huge number reads as zero and a tiny one as infinity |
| DecimalLiterals.HugeReadsAsZero | quickjs/dtoa.c:1353-1606 | 123456789e2147483639 reads as zero, which is not its nearest double |
| NumberText.PrintThenRead | quickjs/dtoa.c:1107-1606 | printing and reading is the identity on all doubles but NaN, which is refused, and minus zero without the flag, which reads as zero |
| HeapSort.Heapsort | quickjs/cutils.h:1378-1410 | a sorted rearrangement of the segment |
| Partitioning.Median | quickjs/cutils.h:1412-1417 | the middle one of three |
| Partitioning.Partition | quickjs/cutils.h:1450-1513 | smaller, equal and greater elements in three parts, after the equal ones are swapped to the middle |
| Rqsort.InsertionSort | quickjs/cutils.h:1531-1535 | a sorted rearrangement of a short segment |
| Rqsort.StackFits | quickjs/cutils.h:1420-1537 | entries of strictly increasing depth below a limit are no more than the limit, by induction over the entries |
| Rqsort.Sort | quickjs/cutils.h:1420-1537 | for every total preorder, a sorted rearrangement; every push stays within the 50 entries |
| Utf8.DecodeEncodeOne | quickjs/cutils.h:904-1039 | every code point, surrogates included, is decoded from its own bytes whatever follows |
| Utf8.DecodeIsExact | quickjs/cutils.h:948-1039 | for any bytes, the code point whose encoding stands there with exactly its bytes, or an error of one byte when no encoding stands there |
| Utf8.RoundTrip | quickjs/cutils.h:1128-1236 | every string of 16-bit units, lone surrogates included, survives encoding and decoding |
| Utf8Buffers.EncodeBuf16 | quickjs/cutils.h:1198-1236 | the full encoded length for every buffer size; the buffer holds all of it or as many whole code points as leave room for the terminator |
| Utf8Buffers.DecodeBuf16 | quickjs/cutils.h:1128-1152 | the number of units of the text for every buffer size, and as many of them as fit |
| Utf8Buffers.ThereAndBack | quickjs/cutils.h:1128-1236 | the two buffer codecs together give back the string |
| Utf8Buffers.Scan | quickjs/cutils.h:1052-1092 | for any bytes, the length is the number of units that decoding gives, and the four flags say exactly whether all are ASCII, whether a unit is above 255, whether a code point is above 0xFFFF, and whether some byte is not part of an encoding |
| Utf8Buffers.DecodeBuf8 | quickjs/cutils.h:1100-1119 | where the scan found no 16-bit unit, the short decoder agrees with the general one |
| Utf8Buffers.EncodeBuf8 | quickjs/cutils.h:1161-1189 | the full encoded length for every buffer size, and the bytes that the 16-bit encoder gives |
| Utf8Buffers.ThereAndBack8 | quickjs/cutils.h:1100-1189 | every byte string survives the two 8-bit codecs |
| CharSets.MemberIsInside | quickjs/libunicode.c:425-531 | in an ordered list of intervals, membership is the parity of the endpoints passed |
| CharSets.CanonicalIsUnique | quickjs/libunicode.c:425-531 | equal sets have equal canonical lists |
| CharRanges.CharRange.AddPoint | quickjs/libunicode.h:70-78 | one endpoint more at the end, in an array that grows when full |
| CharRanges.CharRange.Compress | quickjs/libunicode.c:424-450 | in place, the canonical list of the same set |
| CharRanges.CharRange.Op | quickjs/libunicode.c:453-503 | for all ordered lists of even length, the canonical list of exactly the union, intersection or symmetric difference |
| CharRanges.CharRange.Union1 | quickjs/libunicode.c:505-515 | the set becomes its union with the list, in canonical form |
| CharRanges.CharRange.UnionInterval | quickjs/libunicode.h:93-99 | the set becomes its union with a closed interval |
| CharRanges.CharRange.Invert | quickjs/libunicode.c:517-530 | the canonical list of the complement within [0, 2^32 - 1) |
| CharRanges.CharRange.InvertTwice | quickjs/libunicode.c:517-530 | inverting twice gives back the same list |
| CharOverlap.SortAndRemoveOverlap | quickjs/libunicode.c:1345-1379 | any list of intervals, in any order and overlapping in any way, becomes an ordered list of the same set, and the canonical one if no interval is empty |
| UnicodeTables.TableRanges | quickjs/libunicode.c:1227-1264 | the ranges built by the plain scan hold exactly the code points the table marks |
| UnicodeTables.IndexPos | quickjs/libunicode.c:272-302 | for a consistent index, a block start that the scan passes with a zero bit at or before the code point, or the answer that it is past the table |
| UnicodeTables.IsInTable | quickjs/libunicode.c:304-338 | for a consistent index, the lookup ends and answers as the plain scan does for every code point |
| UnicodeTables.LookupsAgree | quickjs/libunicode.c:272-338 | the indexed lookup agrees with membership in the ranges built from the same bytes |
| Queues.RequestQueue.Enqueue | env_manager.c:671-681 | the request is last in the linked queue |
| Queues.RequestQueue.Dequeue | env_manager.c:357-366 | the head is taken, or null when the queue is empty |
| Queues.LineQueue.Push | main.c:90-101 | the line is last, in an array that doubles when full |
| Queues.LineQueue.Pop | main.c:103-115 | the first line is taken and the others are shifted down |
| Queues.PushLineOn | main.c:90-101 | pushing onto the array is the PushLine step on the lines of the protocol |
| Queues.SubmitOn | env_manager.c:671-681 | popping a line and appending it to the linked queue is the Submit step on the lines and on the queue of the environment |
| Queues.FetchOn | env_manager.c:357-366 | taking the head of the linked queue is the Fetching step of the thread |
| Protocol.Find | env_manager.c:458-466 | the first environment of that name, or none |
| ProtocolSteps.RunsKeep | env_manager.c:333-685 | the invariant of the protocol holds after every run, whatever the interleaving of client, main thread and environment threads |
| ProtocolResults.AtMostOneReply | main.c:197-394 | each request id gets at most one reply, and only a request that was sent gets one |
| ProtocolResults.RepliesInOrder | env_manager.c:333-397 | for each environment, what was sent to it is answered, in hand, queued and dropped requests in that order, and its replies come in the order the requests were written |
| ProtocolResults.NoLostWakeup | env_manager.c:333-397 | a thread blocked in poll with work to do has a byte in its pipe, unless the giver of the work is about to write it |
| ProtocolProgress.NeverStuck | env_manager.c:333-685 | a server that has not answered everything can take a step that is not a timeout, also while it waits for an environment to end |
| ProtocolResults.EverythingIsAnswered | env_manager.c:333-685 | without any poll timeout the server takes a bounded number of steps, and then has exited or has answered everything but what was dropped with its environment |
| ProtocolResults.UnansweredExactly | env_manager.c:610-669 | a handled request is without a reply exactly while it is in hand, queued, or dropped with its environment; ProtocolDrops.LostExactly and the rows after it say when it is dropped |
| ProtocolResults.DroppedForever | env_manager.c:648-659 | a request dropped with its environment never gets a reply |
| ProtocolDropped.RequestIsDropped | env_manager.c:610-669 | a run in which that happens |
| ProtocolDrops.LostExactly | env_manager.c:333-397 | once the environment is joined, the requests that never get a reply are exactly those in its queue at the moment its thread found running cleared |
| ProtocolDrops.DropNeedsDestroy | env_manager.c:610-669 | a request that is dropped is an evaluation, and the client wrote a destroy_env of its environment after it |
| ProtocolDrops.AnsweredUnlessDestroyed | env_manager.c:333-685 | without poll timeouts, any request not followed by such a destroy_env has its reply after a bounded number of steps, unless the process has exited |
| ProtocolChoice.MayBeLost | env_manager.c:610-669 | from every reachable state in which an evaluation is to be taken and a destroy_env of its environment is written behind it, any other requests but an exit in between, there is a run in which the evaluation is lost |
| ProtocolChoice.MayBeAnswered | env_manager.c:610-669 | from every reachable state in which an evaluation is to be taken there is also a run in which it is answered |
| ProtocolResults.EnvironmentsDistinct | env_manager.c:468-487 | at most 64 environments, all running, no two of the same name |
| ProtocolResults.DeliverNeverBlocks | go/cqjs.go:261-302 | the send of the read loop on a one-slot channel never blocks |
| ProtocolResults.WaiterGetsReply | go/cqjs.go:220-302 | a reply read by the read loop while its caller waits is in the channel of that caller |
| ProtocolResults.OwnReply | go/cqjs.go:220-240 | a caller receives nothing but the reply to its own request |
| BytecodeCache.Cache.Find | bytecode_cache.c:59-77 | a hit exactly when the key is held, with the code of its entry, which becomes the newest |
| BytecodeCache.Cache.FindOldest | bytecode_cache.c:78-99 | the scan over all chains finds an entry that none is older than |
| BytecodeCache.Cache.Evict | bytecode_cache.c:78-110 | that entry is unlinked; buckets, unique keys and count stay right |
| BytecodeCache.Cache.Put | bytecode_cache.c:112-148 | for any clock: a hit keeps the code and becomes the newest, a miss is added after evicting an oldest entry if full, and the count never exceeds the maximum |
| BytecodeCache.PutIsLru | bytecode_cache.c:112-148 | with strictly increasing clock readings the entry evicted is the last of a least-recently-used list |
| BytecodeCache.Replay | bytecode_cache.c:59-148 | any sequence of lookups and insertions with increasing clock readings leaves the cache itself with the list of the least-recently-used history: the most recently touched keys, each with the code that began its present stay |
| LruSpec.HistoryKeepsCode | bytecode_cache.c:112-148 | after any history every entry holds the code of the insertion that began its present stay |
| LruSpec.HistoryHoldsNewest | bytecode_cache.c:59-148 | after any history the list holds exactly the most recently touched keys, as many as there is room for |
| Timers.AddMs | polyfill/timer.c:26-33 | normalized, and later by that many milliseconds |
| Timers.Cmp | polyfill/timer.c:35-41 | the order of the times in nanoseconds |
| Timers.TimerManager.Arm | polyfill/timer.c:43-67 | a new entry at the head, due after the delay, a negative one counting as zero |
| Timers.TimerManager.ArmInterval | polyfill/timer.c:69-93 | a new repeating entry, with a period of at least one millisecond |
| Timers.TimerManager.Disarm | polyfill/timer.c:95-104 | the entry of that number, if any, is marked, and no other |
| Timers.TimerManager.ProcessPending | polyfill/timer.c:106-163 | the pass ends and is, step by step, the reference pass over the live timers: each turn fires the first due one, rearms or removes it, and does what its callback asks; only timers due at the start fire, each at most once and none after it was cleared, every due one fires or is cleared, and none due or cleared is left |
| Timers.PassIsDetermined | polyfill/timer.c:106-163 | timers, callbacks and clock decide which timers fire, in which order, and every state in between |
| Base64.RoundTrip | polyfill/encoding.c:8-69 | decoding the encoded text has the right length always, and is the input exactly when the text contains neither 8 nor 9 |
| Base64.DigitIsInTable | polyfill/encoding.c:8-9 | the digit of each value is the one in the encode table |
| Base64.ValueOfDigit | polyfill/encoding.c:8-20 | the decode table inverts the encode table on every digit but 8 and 9, which read as zero |
| Base64.RoundTripFails | polyfill/encoding.c:11-20 | the byte 240 encodes to 8A== and decodes to 0 |
| Base64.Encode | polyfill/encoding.c:23-45 | the digits and padding of section 4 of RFC 4648, and a terminator |
| Base64.Decode | polyfill/encoding.c:48-69 | the bytes of the text up to its trailing padding and line ends |

## Left out

- The text parser of regular expressions: patterns are trees with their groups numbered from left to right.
- RegexMatch.CompiledPatternIsCorrect: does not give the contents of groups 1 and up, because the code clears them once before a loop and ECMA-262 before every iteration.
- Back-references, named groups and case-insensitive matching of regular expressions.
- The byte-level encoding of regular-expression instructions other than the interval lists: jumps count instructions instead of bytes.
- RegexCorrect.Simulate: code with the saves of its groups forgotten; RegexMatch.EraseStep and RegexMatch.CompiledPatternIsCorrect carry it over to the code as emitted.
- RegexSearch.ForgetfulPatternIsCorrect: likewise with the saves forgotten, and carried over by RegexMatch.CompiledPatternIsCorrect.
- RegexRanges.RangeOpAcceptsSet: about code points up to 0x10FFFF and interval endpoints as numbers; RegexRangeBytes.EmitThenSearch is about the bytes.
- RegexEngine.CompileAndExecute: the check of lre_compile for a native stack overflow in its recursion, which depends on the machine, is not modelled.
- RegexExec.Execute: starts at a character boundary; the memory limit and the interrupt counter are not modelled.
- Fixed and fractional formats of js_dtoa, radixes other than 10, and the forced exponent.
- NumberText.JsAtod: radix 10 without flags; prefixes, digit separators and other radixes are not modelled, and digits beyond the 38th are dropped as the code does.
- LogRadix.MulLog2IsFloor: only radix 10, the radix of the number texts modelled.
- BigNum.Mpb.ShrRound: shifts that are not negative; ScaledPower.ShrRound covers both signs.
- NumberText.OutputDigits: radix 10.
- NumberText.JsDtoa: radix 10, free format and automatic exponent.
- DecimalLiterals.ReadLiteral: not for texts longer than 0x7FFF0000 characters, close to where the position counters overflow; the sums that overflow on short texts are modelled.
- Text output of numbers is a string value instead of a character buffer that is written through a pointer.
- 32-bit overflow of the position counters in number texts longer than 2^31 characters, and of ids and counters after as many steps.
- Swapping elements byte by byte in the sort: an exchange of two array elements.
- Rqsort.Sort: a comparison that is not a total preorder.
- Allocation failures everywhere.
- CharRanges.CharRange.UnionInterval: not for an interval that ends at 2^32 - 1, where the code wraps around to zero.
- Case folding of character sets and the contents of the Unicode tables; a table and its index are parameters with a consistency condition.
- Composition and decomposition of Unicode text, with the sorting of combining classes.
- Event lines from the server to the client, which carry no id and never touch the table of pending calls.
- Lines that are not JSON, end of input on standard input, and requests without an id: the modelled client sends neither.
- ProtocolResults.EverythingIsAnswered: a script that never ends and a full pipe are not modelled.
- BytecodeCache.PutIsLru: not for equal clock readings, where the scan order decides; Put holds for any clock.
- BytecodeCache.Replay: likewise for increasing clock readings.
- Chains of the bytecode cache are sequences instead of linked entries, and so is the timer list; the read lock under which lookups race is not modelled.
- Timers.TimerManager.ProcessPending: not for a clock that goes back, and not for a zero delay armed by a callback while the clock stands still, with which the pass could go on for ever.
- The next poll timeout of the timers, hex encoding, fetch, crypto, zlib, console and buffer polyfills.

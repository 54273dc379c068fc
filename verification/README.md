# Verified models of the QuickJS support libraries

This project models, in Dafny, the self-contained algorithms of the C libraries under
`cpp/src/quickjs` and proves what each of them is for:

- **libbf.c**, arbitrary-precision arithmetic on strings of limbs: long and Newton division, Karatsuba
  square root, multiplication by number theoretic transforms, correctly rounded addition and
  multiplication, Ziv's rounding test and loop, radix conversion, bitwise logic on signed integers. A limb
  is a natural below `B = 2^LIMB_BITS`; `LIMB_BITS` is 64 or 32 and every result holds for both. Values
  are integers (`Val`) or, where rounding is the subject, reals (`Magnitude`).
- **libregexp.c**, a compiler and a backtracking virtual machine: the emission of bytecode (appended,
  inserted before, copied and rotated), the three scans of emitted bytecode, and the machine as a step
  function. A pattern means an ordered list of end positions together with whether the search goes on
  forever after the last of them (`Found`). The reference for agreement is the recursive matcher of
  section 21.2.2 of ECMA-262, 2020 edition, on the list of characters of the subject and with its own
  character sets and assertions (`RegexReference.CharMatcher`).
- **cutils.c**, `rqsort` with its heap sort and insertion sort fallbacks, in place.
- **libunicode.c / libunicode.h**, interval sets, run-length property tables with their index, and
  canonical ordering.

Allocation always succeeds. `|` on disjoint bits is written as `+`. `hide *` at the start of a proof keeps
definitions it does not need out of the solver's way. `dafny verify dfyconfig.toml` checks everything.

## Layout

| files | content |
|---|---|
| Powers, Limbs, LimbOps, Bits | powers, values of limb strings, one-pass limb operations, bit windows |
| Division, LargeDivision, SquareRoot | quotients and roots |
| NttWord, NttSums, NttConvolution, NttFft, NttConv, NttDigits, NttCrt, NttWrite, NttMul, NttToLimb, NttTables, NttInit, FftMul | transforms, from word operations to the product |
| Rounding, BfRound, BfZiv, BfCancel, BfAdd, BfMul, BfLogic, BfRadix | numbers |
| RegexBytecode, RegexSyntax, RegexCode, RegexVM, RegexRep, RegexClass, RegexCorrect, RegexLoops, RegexQuant, RegexSimple, RegexVisible, RegexGreedy, RegexTheorem, RegexProgram | patterns, bytecode, machine, and the theorem that compiled code offers what the pattern finds |
| RegexCharacters, RegexStandard, RegexReference, RegexAgreement, RegexReach, RegexDomain, RegexEndless, RegexExamples | characters of a subject, comparison with the standard |
| RegexAnalysis, RegexCompiler, RegexCompile, RegexStack, RegexSafety, RegexCapture, RegexGroups | byte-level compiler, byte scans, stack safety, groups and back references |
| SortSpec, HeapSort, QuickSort | sorting |
| CharRanges, UnicodeTable, UnicodeEncoding, CanonicalOrder | Unicode support |

## Model

| member | source | states |
|---|---|---|
| Division.Udiv1norm | cpp/src/quickjs/libbf.c:1214-1242 | two limbs divided by a normalised limb through its precomputed inverse: exact quotient and remainder |
| Division.MpDivnormBase | cpp/src/quickjs/libbf.c:1293-1342 | schoolbook division of limb strings: value(a) = value(q) value(b) + value(rem), rem < b, top quotient limb at most 1, nothing else written; at most two add-backs per digit |
| LargeDivision.MpDivnorm | cpp/src/quickjs/libbf.c:1275-1344 | the same through all three branches (one limb, base case, Newton), for every normalised divisor |
| LargeDivision.MpRecip | cpp/src/quickjs/libbf.c:1351-1412 | the Newton reciprocal r of a on n limbs: a r < B^(2n) < a (r + 2), top limb 1, through the recursion |
| LargeDivision.MpDivnormLarge | cpp/src/quickjs/libbf.c:1433-1522 | division by the reciprocal, subtracting only nb + 1 limbs: exact quotient and remainder, the ones the base case computes |
| LargeDivision.MpMul | cpp/src/quickjs/libbf.c:1176-1194 | the exact product, by the base case or, from 100 limbs on, by transforms |
| SquareRoot.MpSqrtrem1 | cpp/src/quickjs/libbf.c:1887-1928 | root and remainder of one limb from the table and one correction |
| SquareRoot.MpSqrtremRec | cpp/src/quickjs/libbf.c:1976-2046 | for n >= 1 and top limb at least B/4: a = s^2 + r with 0 <= r <= 2s, in place, r split into n limbs and a returned carry |
| SquareRoot.MpSqrtrem | cpp/src/quickjs/libbf.c:2050-2068 | the same for the entry point |
| SquareRoot.SqrtRemUnique | cpp/src/quickjs/libbf.c:1976-2068 | root and remainder are determined by the operand |
| NttWord.MulModFast3Is | cpp/src/quickjs/libbf.c:7441-7452 | the lazy modular product: congruent and below 2m for any limb times a residue, no word overflow |
| NttWord.ModFastIs | cpp/src/quickjs/libbf.c:7387-7406 | the masked reduction of a double word below B 2^NTT_MOD_LOG2_MIN is the exact remainder |
| NttFft.Fft | cpp/src/quickjs/libbf.c:7721-7778 | the Stockham transform: output i is congruent to the sum of x_j w^(ij), every butterfly value below 2m |
| NttConvolution.FoldConv | cpp/src/quickjs/libbf.c:7882-7970 | folding a cyclic convolution of length n1 n2 along a root of unity gives convolutions of the folded rows |
| NttConvolution.UnfoldFold | cpp/src/quickjs/libbf.c:7882-7938 | the inverse partial transform of the forward one is n1 times the identity |
| NttConv.Convolve | cpp/src/quickjs/libbf.c:7940-7970 | partial transforms, recursion on rows, pointwise products: the cyclic convolution times 2^k norm modulo m |
| NttDigits.DigitResidue | cpp/src/quickjs/libbf.c:7973-8030 | the dpl bits from a position of the operand, up to three limbs wide, reduced modulo m |
| NttCrt.Garner | cpp/src/quickjs/libbf.c:8179-8191 | the eliminations give the mixed radix digits of the number with the given residues, without overflow since the moduli increase |
| NttCrt.BackToLimbs | cpp/src/quickjs/libbf.c:8193-8214 | mixed radix digits to limbs, with the carry added, exactly |
| NttToLimb.NttToLimb | cpp/src/quickjs/libbf.c:8146-8243 | residues of all coefficients to the limbs of their sum weighted by powers of 2^dpl, cut to the result length |
| NttMul.ConvValue | cpp/src/quickjs/libbf.c:8358-8457 | when nothing wraps around, the value of the convolution of the digits is the product of the values |
| NttTables.RootsSound | cpp/src/quickjs/libbf.c:7290-7326 | the constants ntt_proot really have order 2^NTT_PROOT_2EXP modulo ntt_mods and are inverse to each other, for both limb widths |
| NttTables.CrSound | cpp/src/quickjs/libbf.c:7296-7333 | the constants ntt_mods_cr are the inverses the recombination needs, for the last 1 to 5 moduli |
| NttTables.IntBitsSound | cpp/src/quickjs/libbf.c:7294-7321 | the product of the last nb moduli has at least the bits ntt_int_bits promises |
| NttInit.FftSize | cpp/src/quickjs/libbf.c:8308-8355 | the exact outcome with the bits computed in limbs: none found where the source aborts; a size found is long enough, and no coefficient then exceeds the moduli, if and only if nothing wraps around |
| FftMul.MulModulus | cpp/src/quickjs/libbf.c:8420-8431 | for one modulus: digits, transforms, products and inverse transform give residues of the exact coefficients |
| FftMul.CoefficientBound | cpp/src/quickjs/libbf.c:8318-8341 | every coefficient is below the product of the moduli |
| FftMul.FftMultiply | cpp/src/quickjs/libbf.c:8358-8457 | value(result) = value(a) value(b), with the constant tables of the source, for all operands of at least 100 limbs that some transform is long enough for, and ok for exactly those |
| Rounding.RoundNearestClosest | cpp/src/quickjs/libbf.c:395-446 | the rounding specification, to nearest: no representable number is closer (with RoundDownGreatest and RoundUpLeast for the directed modes) |
| Rounding.RoundDownGreatest | cpp/src/quickjs/libbf.c:395-446 | toward zero the result is the greatest representable number not above the value |
| Rounding.RoundUpLeast | cpp/src/quickjs/libbf.c:395-446 | away from zero it is the least representable number not below it |
| Rounding.RoundRepresentable | cpp/src/quickjs/libbf.c:395-446 | the result has at most prec bits |
| BfRound.Number.Round | cpp/src/quickjs/libbf.c:484-590 | __bf_round on limbs is that rounding, for every precision and mode but faithful; inexact is reported exactly when the value changed |
| BfZiv.CanRound | cpp/src/quickjs/libbf.c:631-664 | the bit scan accepts exactly when the k - prec bits after the precision are not all zeros or all ones, counted from the middle for the nearest modes |
| BfZiv.CanRoundExactly | cpp/src/quickjs/libbf.c:627-664 | when the test accepts the approximation x and the value r is at most 2^(EXP(x)-k) away, both round to the same number if and only if not: r lies the whole distance below x, and is a number of prec bits rounded away from zero or, in RNDN, a midpoint with an even lower neighbour |
| BfZiv.CanRoundSound | cpp/src/quickjs/libbf.c:631-664 | so an error strictly below 2^(EXP(a)-k) is always enough, in every mode but faithful, also across a power of two |
| BfZiv.ZivRounding | cpp/src/quickjs/libbf.c:4220-4260 | a result is found exactly when one of the tries is exact or accepted, and it is the correctly rounded value (zero for zero), for any approximating function with that error |
| BfZiv.ZivStopsExactly | cpp/src/quickjs/libbf.c:4236-4254 | the loop ends if and only if some try is exact or the value is no breakpoint: no number of prec bits in the directed modes, no midpoint in the nearest modes |
| BfCancel.CountCancelledBits | cpp/src/quickjs/libbf.c:816-865 | with a count of n the difference lies strictly between 2^(e-n-1) and 2^(e-n+1), e the exponent of the larger operand: it loses n - 1 or n leading bits |
| BfAdd.StickyRounds | cpp/src/quickjs/libbf.c:935-994 | truncated limbs with a sticky last bit round as the exact value does |
| BfAdd.SumRounds | cpp/src/quickjs/libbf.c:868-1010 | the computed limbs of a sum, exact or cut with a sticky bit, round as the exact sum |
| BfAdd.Add | cpp/src/quickjs/libbf.c:868-1010 | for all finite operands, every precision and every mode but faithful: the correctly rounded sum or difference, its sign, and the sign of an exact zero, also of two zeros (section 6.3 of IEEE 754-2008) |
| BfMul.Mul | cpp/src/quickjs/libbf.c:1524-1604 | for all finite operands: the correctly rounded product and its sign |
| BfLogic.LogicOperation | cpp/src/quickjs/libbf.c:2322-2406 | and, or, xor of any two integers are, bit by bit, the infinite two's complement operation, also with the shortened limb count of and: one clause per operation; zero is never negative |
| BfLogic.BitsAdd | cpp/src/quickjs/libbf.c:2309-2320 | the three operations as arithmetic: x + y = xor + 2 and, or = xor + and |
| BfLogic.BitwiseUnique | cpp/src/quickjs/libbf.c:2322-2406 | that specification has one solution |
| BfLogic.HighResult | cpp/src/quickjs/libbf.c:2362-2375 | beyond the chosen limb count every bit of the result is its sign |
| BfRadix.FromRadixRec | cpp/src/quickjs/libbf.c:2693-2729 | the value of n digits; each memoised power is right for every visit of its level, and the table is never left |
| BfRadix.ToRadixRec | cpp/src/quickjs/libbf.c:3373-3456 | n digits below the radix with the given value, whatever quotient the reciprocal suggests; other output untouched; with the reciprocal of the source no step corrects a quotient more than twice |
| BfRadix.FewCorrections | cpp/src/quickjs/libbf.c:3405-3445 | the quotient by a reciprocal rounded to (n2 + 1) radixl_bits + 2 bits, itself rounded to n1 radixl_bits bits and cut, is within 2 of the exact one |
| BfRadix.SplitFits | cpp/src/quickjs/libbf.c:2704-2706 | at every level the lengths are one of two neighbours, so both halves are nonempty and the low one depends on the level alone |
| BfRadix.LevelBound | cpp/src/quickjs/libbf.c:2741-2741 | a level that splits is within ceil_log2(n) + 2 |
| BfRadix.DigitsRoundTrip | cpp/src/quickjs/libbf.c:3459-3482 | to radix after from radix returns the digits |
| BfRadix.ValueRoundTrip | cpp/src/quickjs/libbf.c:2732-2753 | from radix after to radix returns the integer |
| RegexRep.OffersBind | cpp/src/quickjs/libregexp.c:2042-2078 | backtracking runs compose: each result of a first fragment is continued by a second, and a run that never returns stays so |
| RegexClass.ClassHit | cpp/src/quickjs/libregexp.c:821-857 | for every sorted disjoint range list, the emitted 16-bit (0xffff unbounded) or 32-bit instruction accepts exactly the class |
| RegexClass.RangeMatch | cpp/src/quickjs/libregexp.c:2359-2435 | the machine's unsigned binary search finds a range exactly when one contains the character, with no index underflow |
| RegexClass.ClassMatch | cpp/src/quickjs/libregexp.c:2359-2435 | that search on the ranges emitted for a class decides membership in the class |
| RegexCorrect.LookOffers | cpp/src/quickjs/libregexp.c:1278-1308 | a lookaround succeeds or fails as its body finds something, does not move, and hangs only if its body does before finding anything |
| RegexGreedy.QuantIsDown | cpp/src/quickjs/libregexp.c:2442-2481 | the simple greedy quantifier: one run, then steps back of char_count characters, visits exactly the positions of q, q-1, ..., min iterations in order |
| RegexSyntax.StepBackInverts | cpp/src/quickjs/libregexp.c:1916-2004 | a step back undoes a step forward if and only if the position is not inside a surrogate pair |
| RegexCharacters.OffsetBack | cpp/src/quickjs/libregexp.c:1948-2004 | from the place of every character but the first, one step back is the place of the one before, and that character is what is read behind |
| RegexCharacters.IndexOffset | cpp/src/quickjs/libregexp.c:1916-2004 | characters stand exactly at the positions outside surrogate pairs |
| RegexCharacters.EncodedReads | cpp/src/quickjs/libregexp.c:1916-1933 | reading the UTF-16 form of a list of characters gives the list back if and only if no two lone surrogates in it join |
| RegexCharacters.ReadEncodes | cpp/src/quickjs/libregexp.c:1916-1933 | the UTF-16 form of what is read is the subject, for every subject |
| RegexTheorem.QuantOffers | cpp/src/quickjs/libregexp.c:1558-1680 | every quantifier code offers the iterated results of its body, in order |
| RegexTheorem.NodeOffers | cpp/src/quickjs/libregexp.c:1210-1762 | the code of a pattern offers what the pattern finds, given that of its parts |
| RegexTheorem.CodeOffers | cpp/src/quickjs/libregexp.c:2081-2487 | for every pattern, wherever its code stands: the machine leaves it at the results in order, and after the last is rejected backtracks or, where the pattern goes on forever, never returns |
| RegexProgram.ProgramFinds | cpp/src/quickjs/libregexp.c:1813-1899 | for every pattern and aligned start: the whole program reports the leftmost match with its preferred end, or that there is none, or never stops, exactly as the search comes to |
| RegexProgram.ProgramStops | cpp/src/quickjs/libregexp.c:2081-2488 | the program stops if and only if the search is not endless |
| RegexEndless.StarHangsExactly | cpp/src/quickjs/libregexp.c:1591-1632 | the search of a lazy unbounded loop goes on forever if and only if iterations lead to a position the body can stay at |
| RegexEndless.LazyLoopReturns | cpp/src/quickjs/libregexp.c:1591-1632 | its code, before a continuation that always fails, backtracks if and only if there is no such position, and otherwise the machine never stops |
| RegexStandard.StandardSearches | cpp/src/quickjs/libregexp.c:1558-1680 | the standard's matcher finds what the program finds first, for every continuation, when the optional iterations of every quantifier agree |
| RegexReference.SameAssertion | cpp/src/quickjs/libregexp.c:2219-2314 | at the place of every character the machine's assertions are those of section 21.2.2.6, on the list of characters |
| RegexReference.SameCharacter | cpp/src/quickjs/libregexp.c:1903-1914 | an atom accepts exactly its character set |
| RegexReference.Simulates | cpp/src/quickjs/libregexp.c:1916-2004 | for every pattern, direction, character and pair of continuations that agree, the matcher on characters and the one on code units come to the same end |
| RegexAgreement.BoundedAgrees | cpp/src/quickjs/libregexp.c:1633-1644 | the whole family {0,0} to {0,k} agrees with the standard if and only if leaving out empty first iterations never changes the order of first occurrences |
| RegexAgreement.GreedyAgrees | cpp/src/quickjs/libregexp.c:1633-1644 | the whole greedy family, k >= 1, agrees if and only if nothing new ever follows the empty match of the body |
| RegexAgreement.MaybeAgrees | cpp/src/quickjs/libregexp.c:1610-1615 | body? and body?? at one position: they agree unless greedy and the body tries the empty match before something new |
| RegexReach.OneBoundedAgrees | cpp/src/quickjs/libregexp.c:1633-1644 | one quantifier {0,k} at one position agrees if and only if the loop and the standard, which leaves out iterations that do not move, come to the same positions for the first time in the same order |
| RegexReach.GreedyStarAgrees | cpp/src/quickjs/libregexp.c:1616-1632 | body* agrees everywhere if and only if, wherever the body matches the empty string, iterations from what it offers before that match lead to everything else it offers |
| RegexAgreement.LazyStarAgrees | cpp/src/quickjs/libregexp.c:1591-1632 | body*? agrees everywhere if and only if the body consumes |
| RegexDomain.DomainSound | cpp/src/quickjs/libregexp.c:1558-1680 | patterns of a syntactic domain (unbounded lazy bodies consume; bodies of body?? are arbitrary; other optional bodies try the empty match last) satisfy those conditions on every subject |
| RegexDomain.ReadingDomain | cpp/src/quickjs/libregexp.c:1558-1680 | the domain holds every pattern whose quantified bodies read at least one character |
| RegexDomain.DomainMeetsStandard | cpp/src/quickjs/libregexp.c:1813-1899 | on that domain every program from every aligned start of every subject reports what the standard, on the characters of the subject, prescribes |
| RegexDomain.AtomStart | cpp/src/quickjs/libregexp.c:2491-2527 | a single atom started sticky anywhere does so if and only if the start is aligned or the atom treats the lone second half like the whole character |
| RegexDomain.AlignedExactly | cpp/src/quickjs/libregexp.c:2491-2527 | all patterns of the domain do so from a start if and only if it is not inside a surrogate pair |
| RegexAnalysis.CheckAdvance | cpp/src/quickjs/libregexp.c:950-1031 | the byte scan decides whether straight code surely consumes a character (back references taken as empty), or that it refers to a capture it sets |
| RegexSimple.AdvanceSound | cpp/src/quickjs/libregexp.c:950-1031 | code that passes the scan belongs to a pattern that cannot match the empty string |
| RegexVisible.ScansVisible | cpp/src/quickjs/libregexp.c:950-1071 | both scans answer for the code of a pattern exactly what the pattern shows: the code surely advances if and only if an atom is read before any branch, and is simple if and only if it is a straight run of atoms and assertions |
| RegexAnalysis.SimpleQuantifier | cpp/src/quickjs/libregexp.c:1034-1071 | the byte scan counts the characters of simple code |
| RegexAnalysis.ComputeStackSize | cpp/src/quickjs/libregexp.c:1765-1807 | the byte scan computes the largest prefix height, or reports that it exceeds the limit |
| RegexAnalysis.OpcodeListed | cpp/src/quickjs/libregexp-opcode.h:27-56 | instructions carry the numbers and sizes of the opcode list |
| RegexCompiler.Emitter.EmitRange | cpp/src/quickjs/libregexp.c:821-857 | appends the bytes of the class instruction, or fails when there are too many ranges |
| RegexCompiler.Emitter.Quantify | cpp/src/quickjs/libregexp.c:1558-1686 | turns the bytes of an atom at the end of the buffer into those of the quantifier, inserting before and copying |
| RegexCompiler.Emitter.Disjunction | cpp/src/quickjs/libregexp.c:1733-1762 | appends exactly the bytes of the code of the pattern, failing exactly when a class does not fit |
| RegexCompile.LreCompile | cpp/src/quickjs/libregexp.c:1813-1899 | the compiled bytes are those of the program and the stack size its peak; it fails exactly when a class or the stack does not fit |
| RegexSafety.StepSafe | cpp/src/quickjs/libregexp.c:2081-2488 | one step keeps the machine on an instruction boundary with the height the linear scan predicts, also in every saved state |
| RegexCapture.BareProgram | cpp/src/quickjs/libregexp.c:1813-1899 | of a pattern without groups that program is the one proved to find what the search comes to |
| RegexCapture.RunsStaySafe | cpp/src/quickjs/libregexp.c:1765-1807 | every run of every compiled pattern, with groups and back references, stays on instruction boundaries, never pops an empty stack, never leaves the captures, and never exceeds the computed stack size |
| RegexGroups.GroupRecords | cpp/src/quickjs/libregexp.c:2249-2254 | a group around code that gets from one position to another records the text in between, start before end also when matched backward, and nothing else |
| RegexGroups.ReferenceStep | cpp/src/quickjs/libregexp.c:2315-2359 | a back reference to a set capture goes over the captured text if and only if it stands there, forward or backward, and the far end cuts no character; otherwise the machine backtracks |
| RegexGroups.ResetsItsGroups | cpp/src/quickjs/libregexp.c:1597-1607 | a repetition that may be skipped first resets exactly the groups of its body |
| SortSpec.SortedUnique | cpp/src/quickjs/cutils.c:512-629 | a sorted permutation is determined by a total order |
| SortSpec.KeysOrder | cpp/src/quickjs/cutils.c:512-629 | answers that compare keys, whatever their size, follow a total preorder, and sorted by it means that the keys do not decrease |
| HeapSort.Heapsort | cpp/src/quickjs/cutils.c:470-502 | in place, whatever the comparison answers at each call: a permutation; answers that follow a total preorder: sorted |
| QuickSort.Partition | cpp/src/quickjs/cutils.c:542-599 | the three-way partition around the median of three |
| QuickSort.Rqsort | cpp/src/quickjs/cutils.c:512-629 | in place, whatever the comparison answers at each call: ends with a permutation, never using more than the 50 slots; when the answers follow a total preorder: sorted by it |
| CharRanges.ContainsParity | cpp/src/quickjs/libunicode.c:384-402 | in a nondecreasing even list, a character is in the set if and only if an odd number of bounds is at most it |
| CharRanges.CharRange.Compress | cpp/src/quickjs/libunicode.c:325-352 | in place: same set, strictly increasing bounds |
| CharRanges.CharRange.Op | cpp/src/quickjs/libunicode.c:355-405 | union, intersection and xor of the sets two nondecreasing lists denote, one clause each, as a strictly increasing list |
| CharRanges.CharRange.UnionInterval | cpp/src/quickjs/libunicode.h:91-97 | adds exactly the characters c1 to c2 |
| CharRanges.CharRange.Invert | cpp/src/quickjs/libunicode.c:419-431 | the complement in [0, UINT32_MAX) |
| CharRanges.ListsUnique | cpp/src/quickjs/libunicode.c:326-431 | equal sets have equal strictly increasing lists |
| UnicodeTable.PropertyRanges | cpp/src/quickjs/libunicode.c:1129-1166 | the intervals collected are exactly the characters plain decoding assigns the property |
| UnicodeTable.IndexPos | cpp/src/quickjs/libunicode.c:172-203 | the index search finds a place plain decoding passes, at or before the character, or that it is beyond the table |
| UnicodeTable.IsInTable | cpp/src/quickjs/libunicode.c:205-238 | for every consistent index the lookup agrees with plain decoding and never reads outside the table |
| UnicodeTable.LookupAgrees | cpp/src/quickjs/libunicode.c:172-238 | so it holds exactly when the character lies in one of the collected intervals |
| UnicodeEncoding.EncodedRanges | cpp/src/quickjs/libunicode.c:1129-1166 | for every list of runs written as records of one to three bytes, the intervals collected are the runs with odd numbers |
| UnicodeEncoding.EveryTable | cpp/src/quickjs/libunicode.c:1129-1166 | every table that decodes to its end is such a list |
| UnicodeEncoding.IndexConsistent | cpp/src/quickjs/libunicode.c:172-203 | an index written with 21 bits of character and 3 bits of offset for every block of 32 bytes is consistent with its table |
| UnicodeEncoding.EncodedLookup | cpp/src/quickjs/libunicode.c:205-238 | with such an index the lookup answers whether the character lies in a run with an odd number |
| CanonicalOrder.ExchangesUnique | cpp/src/quickjs/libunicode.c:773-807 | exchanging reorderable pairs until none is left has one outcome, whatever the order of exchanges |
| CanonicalOrder.CanonicalIsTheOrder | cpp/src/quickjs/libunicode.c:773-807 | insertion reaches it by such exchanges (section 3.11 of the Unicode Standard) |
| CanonicalOrder.CanonicalKeeps | cpp/src/quickjs/libunicode.c:773-807 | it is a permutation that moves no starter |
| CanonicalOrder.SortCc | cpp/src/quickjs/libunicode.c:773-807 | the in-place loops compute it, for any combining class function |

## Findings

Claims one might expect of the code that fail, each with an input that shows it and the exact condition
under which they hold.

| claim | input | condition, proved |
|---|---|---|
| a greedy optional quantifier does what the standard prescribes | `(?:\|a)?` on "a": the program reports the empty match, the standard "a" (`RegexExamples.EmptyFirstDiffers`) | `RegexAgreement.GreedyAgrees` for the family {0,0} to {0,k} and `MaybeAgrees` for `body?` at one position: nothing new follows the empty match of the body; `RegexReach.GreedyStarAgrees` for `body*`: iterations from what the body offers before its empty match lead to whatever follows it |
| a lazy bounded quantifier does | `(?:\|[^]\|[^][^][^]){0,2}?` on three characters, before a continuation that accepts 2 and 3: the standard finds 2, the program 3 (`RegexExamples.LazyTwiceDiffers`) | `RegexReach.OneBoundedAgrees` and, for the family, `RegexAgreement.BoundedAgrees`; `body??` always does (`LazyMaybeAgrees`), and any bounded quantifier whose body puts nothing new after its empty match (`LocalAgrees`) |
| a lazy unbounded quantifier ends | `(?:)*?a` on the empty string never ends, the standard reports no match (`RegexExamples.LazyEmptyDiverges`) | `RegexEndless.LazyLoopReturns` for the loop, `RegexProgram.ProgramStops` for whole programs, `RegexAgreement.LazyStarAgrees` for agreement |
| a search may start anywhere | the literal U+1F600 sticky at 1 inside its surrogate pair: the standard matches from 1 to 2, the program fails (`RegexExamples.MisalignedDiffers`) | `RegexDomain.AlignedExactly` for all patterns, `AtomStart` for one atom |
| the rounding test tolerates an error of one unit, as documented | 5/8 for 1/2 at one bit, away from zero (`BfZiv.StrictBoundNeeded`) | `BfZiv.CanRoundExactly`: unless the value lies a whole unit below and is left upward by the rounding |
| Ziv's loop ends | any breakpoint, with a function that is never exact (`BfZiv.RefusedAtBreakpoint`) | `BfZiv.ZivStopsExactly` |
| a transform size found is long enough | 2^27 limbs of 32 bits, whose bits wrap around to 0 (`NttInit.SizeTooShort`) | `NttInit.FftSize`: the bits of the operands and one digit stay below 2^LIMB_BITS |

Where comments and code differ, the model follows the code: the comment at libbf.c:1346 states the
bound on the reciprocal loosely; the one before count_cancelled_bits says "at least n" where n - 1 bits
may be all that is lost.

## Left out

- RegexCapture.RunsStaySafe: the code of groups and references is a function of the pattern, not emitted byte by byte as the rest is; back references compare without ignoring case.
- LargeDivision.MpMul: where no transform is long enough the source aborts; here the base case takes over.
- BfZiv.ZivRounding: the unbounded loop is cut after `turns` tries, whose sufficiency `ZivStopsExactly` decides; the status flags of the function are reduced to exact or not.
- BfRadix.FewCorrections: takes the division that forms the reciprocal (bf_div) as correctly rounded; integers stand for numbers of infinite precision.
- BfRadix.IntegerFromRadix: the digit count per limb of each radix (get_limb_radix) is a parameter.
- BfAdd.Add: NaN and infinities, exponent overflow and underflow, subnormal results, faithful rounding.
- BfMul.Mul: NaN and infinities, overflow and underflow, faithful rounding and its shortened operands.
- BfLogic.LogicOperation: operands whose exponent comes within two limbs of BF_PREC_INF.
- NttConv.Convolve: the partial transform takes one column at a time, not strips of sixteen; buffers are sequences, so their reuse and aliasing are not captured.
- FftMul.FftMultiply: operand overlap and resizing flags, the second buffer of reduced memory use, the optional product check; where the size is computed too short (2^27 limbs of 32 bits) the source goes on, here the result is not ok.
- RegexTheorem.CodeOffers: capture groups and back references, and with them DomainMeetsStandard; `RegexGroups` states what one group records and what one reference matches, not what a whole pattern captures. Ignore-case matching and named groups.
- RegexCompile.LreCompile: the seven header bytes, the surface syntax and its parser, growth of the byte buffer.
- CharRanges.CharRange.UnionInterval: an upper end of UINT32_MAX, where c2 + 1 wraps around to 0 and the list of bounds is no longer in order.
- The AVX2 branch of the transforms, which computes in floating point.
- Transcendental functions and constants, whose precision analysis the source leaves open.
- Decimal numbers (bfdec), which repeat the binary algorithms.
- Text parsing and printing of numbers.
- Unicode data tables, scripts, normalization and case conversion.
- The Dart, Swift, Kotlin and C++ wrappers.

# StateDB: verified models

StateDB is a small networked key-value store. This project models the parts of its
repository that carry the most logic and proves what they promise, in Dafny:

* **Arbitrary-precision integers** (`Digits`, `BigIntCore`, `BigIntSmall`, `BigIntDiv`,
  `Karatsuba`, `SixDigits`, `BigIntMul`, `BigIntText`, `BigIntAlgebra`): sign and base-10^9 limbs; the
  abstraction function is `BigIntCore.Value`.
* **The B+ tree index** (`LeafList`, `BptShape`, `BptHeap`, `BptChain`, `BptLeaves`, `BptSteps`,
  `BPlusTree`): real heap objects, updated in place. The structure is a graph with shared, stale
  list tails and aliased children, so the invariant is not a tree shape. Every node answers for
  an interval of keys (`Info.lo`, `Info.hi`); only its live list nodes count; a child whose
  interval is empty may be anything; a ghost rank falls along routing.
* **Command line and usage formatting** (`ArgSpec`, `ArgTheorems`, `ArgMeaning`,
  `ArgReparse`, `ArgFlag`, `ArgParser`, `OptionList`, `ArgStore`, `Utf8`, `LineParts`, `LineWrapping`, `ColumnWidths`): the in-place reordering parser, tagged
  option lists, the part iterator, the line wrapper with its ring, and the column-width loop.
* **Connection queues** (`WriteQueue`, `ReadQueue`): state machines over submissions,
  completions, failures and closes, with the classes that refine them.
* **Logging queue and thread pool** (`CircularQueue`, `ThreadPool`): the ring of slots, and all
  interleavings of producers, workers and the shutdown as atomic steps under the mutex.

Each mutating loop or object is a method or class proved against a specification function or
predicate, and the laws are proved about that specification.

Results that correct a first impression of the code:

* `operator<` on big integers is integer order except on operand pairs with a negative zero;
  `BigIntCore.Misordered` lists exactly those pairs, and unary minus of zero gives one
  (`BigIntCore.NegatedZeroIsLess`). `+` and `-` yield a negative zero exactly in the cases stated
  in `Add` and `Sub`; no canonical operands do.
* A quotient digit estimated by `divmod` is corrected at most twice.
* The product of two big integers is not exact for all sizes: the carry is cast to `int`. Operands
  with m and n limbs are all multiplied exactly if and only if m or n is at most 1431
  (`BigIntMul.ProductsExactIff`; 2147 six-digit limbs, `SixDigits.ExactIff`); two given operands
  are, if and only if no carry of theirs is cut off (`BigIntMul.Multiply`). The 64-bit sums of the
  recursion hold exactly up to a padded length of 16384 (`SixDigits.SpanIff`).
* Pending writes are not served in submission order (`WriteQueue.NotFifo`). Over a run the line of
  started writes and, behind them, those still waiting is in submission order exactly when at each
  completion the handler submits nothing, or nothing waits and it submits at most two writes; if
  nothing is left waiting, that is the order in which all writes were started
  (`WriteQueue.ServedInOrderIff`).
* The comment on `parse` (DBTestTerminal/optionparser.h:1137-1139) says that the `gnu` flag has
  no further effect on a reordered vector. That holds for checkers that only look at an
  argument's presence (`ArgFlag.PresenceOnlyIdle`). It fails for some that read its contents
  (`ArgFlag.FlagNotAlwaysIdle`): exactly for those under which an option declines a plain word,
  takes an option word in its place, and so leaves a plain word bare (`ArgFlag.FlagIdleIff`).
* Sizing and storing rely on more, namely that a second pass over the reordered vector repeats the
  first one. For a checker that takes an argument when there is one and does without otherwise it
  does not (`ArgReparse.NotAlwaysRepeatable`). It does, for any checker, exactly if no word that
  reordering may bring behind an option changes what the option means
  (`ArgReparse.RepeatableIff`); the library's and its manual's checkers are of that kind
  (`ArgReparse.StandardRepeats`).
* A pool whose queue has room for no item can never be shut down; every other pool can
  (`ThreadPool.ShutdownPossibleIff`).

`dafny verify dfyconfig.toml` checks the whole project.

## Model

| member | source | states |
|---|---|---|
| `BigIntCore.CanonicalUnique` | StateDatabase/bigint.h:255-260 | two canonical integers with the same value are the same limb vector and sign |
| `BigIntCore.Trim` | StateDatabase/bigint.h:255-260 | the result is canonical and has the same value |
| `BigIntCore.FromInt` | StateDatabase/bigint.h:71-78 | the canonical integer of the given value |
| `BigIntCore.Less` | StateDatabase/bigint.h:228-237 | integer order if and only if the pair is not one of the listed negative-zero pairs, although limb counts are multiplied by the sign in unsigned arithmetic |
| `BigIntCore.Equal` | StateDatabase/bigint.h:248-250 | true exactly for identical representations, hence for equal values if and only if zero does not meet negative zero |
| `BigIntCore.NegatedZeroIsLess` | StateDatabase/bigint.h:228-270 | unary minus of zero compares below zero although both are zero |
| `BigIntCore.AddLimbs` | StateDatabase/bigint.h:82-92 | the carry loop gives the exact sum as proper limbs without a leading zero |
| `BigIntCore.SubLimbs` | StateDatabase/bigint.h:100-106 | the borrow loop gives the exact difference and never runs past the last limb |
| `BigIntCore.Add` | StateDatabase/bigint.h:80-95 | exact sum for all signs, negative zero only from two negative zeros; the mutual recursion with `-` ends |
| `BigIntCore.Sub` | StateDatabase/bigint.h:97-113 | exact difference for all signs, negative zero only from negative zero minus zero |
| `BigIntSmall.MulSmall` | StateDatabase/bigint.h:115-133 | canonical exact product with an `int` |
| `BigIntSmall.TruncatedLaw` | StateDatabase/bigint.h:189-213 | quotient and remainder as C++ has them: identity, remainder smaller than the divisor and of the dividend's sign |
| `BigIntSmall.DivTopIsDivision` | StateDatabase/bigint.h:192-196 | dividing limb by limb from the top is division: x = v*q + rem with 0 <= rem < v and proper limbs |
| `BigIntSmall.DivSmall` | StateDatabase/bigint.h:189-204 | canonical quotient truncated toward zero |
| `BigIntSmall.ModSmall` | StateDatabase/bigint.h:206-213 | the remainder of truncated division, with the dividend's sign |
| `BigIntDiv.EstimateNotTooSmall` | StateDatabase/bigint.h:165-167 | the estimated quotient digit is never below the true one |
| `BigIntDiv.EstimateNotTooLarge` | StateDatabase/bigint.h:165-167 | with a normalised divisor it exceeds the true one by at most two |
| `BigIntDiv.NormaliserLifts` | StateDatabase/bigint.h:156-158 | the normaliser brings the top limb to at least half the base without overflowing it |
| `BigIntDiv.NormalisedShape` | StateDatabase/bigint.h:156-158 | the normalised divisor keeps its limb count and has a top limb of at least half the base |
| `BigIntDiv.EstimateDigit` | StateDatabase/bigint.h:165-167 | the estimate brackets the true digit, which lies in [0, base) |
| `BigIntDiv.CorrectDigit` | StateDatabase/bigint.h:169-170 | adding the divisor back ends with the true digit and the true remainder |
| `BigIntDiv.ReduceDigit` | StateDatabase/bigint.h:165-171 | one digit step: the digit is the quotient, in [0, base), the rest is the remainder |
| `BigIntDiv.LongDivide` | StateDatabase/bigint.h:159-172 | estimating and correcting computes exactly the schoolbook quotient and remainder |
| `BigIntDiv.ExactDenormalise` | StateDatabase/bigint.h:178 | the scaled remainder is an exact multiple of the normaliser |
| `BigIntDiv.DivMod` | StateDatabase/bigint.h:155-179 | a = q*b + r, abs(r) < abs(b), r zero or of a's sign, both results canonical, for all canonical a and nonzero b |
| `Karatsuba.ThreeProducts` | StateDatabase/bigint.h:359-384 | the identity behind the three recursive products, coefficient by coefficient |
| `Karatsuba.Multiply` | StateDatabase/bigint.h:349-386 | the recursion equals the schoolbook convolution at every position, for every length it can halve |
| `Karatsuba.ConvolutionIsProduct` | StateDatabase/bigint.h:353-355 | the convolution evaluates to the product of the operands' values in every base |
| `Karatsuba.NothingOverflows` | StateDatabase/bigint.h:349-386 | no value formed at any level of the recursion exceeds the peak bound: schoolbook sums, half sums, differences, partial sums of the recombination, results |
| `BigIntMul.ConvertBase` | StateDatabase/bigint.h:326-347 | re-basing between digit widths keeps the value, even of limbs of both signs; proper limbs stay proper, without leading zero limb or superfluous digits |
| `SixDigits.PaddingTest` | StateDatabase/bigint.h:397-398 | `n & (n - 1)` is zero exactly at powers of two |
| `SixDigits.CeilPowerIsLeast` | StateDatabase/bigint.h:397-398 | the padded length is the least power of two that is long enough |
| `SixDigits.Pad` | StateDatabase/bigint.h:393-398 | both operands padded with zero limbs to that length |
| `SixDigits.Carry` | StateDatabase/bigint.h:402-406 | the carry loop leaves the limbs of `Limbs`, with its truncated division and its cast, whatever the coefficients |
| `SixDigits.FittingIsExact` | StateDatabase/bigint.h:402-406 | if every carry fits an `int`, the limbs are proper, keep the value, and no carry is left over |
| `SixDigits.LossShows` | StateDatabase/bigint.h:402-406 | the first carry that is cut off makes the limbs wrong |
| `SixDigits.ExactIffFits` | StateDatabase/bigint.h:402-406 | for any two operands within the span the limbs are the product if and only if no carry is cut off |
| `SixDigits.ExactIff` | StateDatabase/bigint.h:402-406 | for all lengths m and n: the limbs are the product for all six-digit operands of these lengths if and only if m or n is at most 2147, and so for the carries |
| `SixDigits.KaratsubaFits` | StateDatabase/bigint.h:349-399 | up to 16384 six-digit limbs each, every value the padded multiplication forms fits 64 bits |
| `Karatsuba.AllFitIff` | StateDatabase/bigint.h:349-386 | nothing overflows for any operands of a length if and only if the peak bound does not |
| `SixDigits.SpanIff` | StateDatabase/bigint.h:349-399 | at a padded length, every value fits 64 bits for all operands if and only if the length is at most 16384 |
| `SixDigits.SumsFit` | StateDatabase/bigint.h:403 | within the span, coefficient plus carry fits 64 bits |
| `SixDigits.MultiplySix` | StateDatabase/bigint.h:391-406 | pad, multiply and carry leave the carry loop's limbs for the product's coefficients, within the 64-bit span |
| `BigIntMul.Multiply` | StateDatabase/bigint.h:388-410 | for operands within the 64-bit span: the result is the carry loop's value; that is the product if and only if no carry is cut off, and the result is then canonical |
| `BigIntMul.ProductsExactIff` | StateDatabase/bigint.h:388-410 | all operands of m and n limbs are multiplied exactly if and only if m or n is at most 1431 |
| `BigIntText.Print` | StateDatabase/bigint.h:317-324 | sign and shortest decimal of the magnitude, across zero-padded chunks |
| `BigIntText.Read` | StateDatabase/bigint.h:292-308 | canonical integer of the numeral's value, any number of leading signs |
| `BigIntText.SignLaws` | StateDatabase/bigint.h:296-300 | a plus sign in front changes nothing, a minus sign negates |
| `BigIntText.SignsThenDigits` | StateDatabase/bigint.h:292-308 | signs followed by digits are a numeral whose value is negated exactly for an odd count of minus signs |
| `BigIntText.ReadSigned` | StateDatabase/bigint.h:292-308 | reading them gives that value |
| `BigIntText.DecimalNotation` | StateDatabase/bigint.h:303-322 | each digit character stands for itself, the most significant first |
| `BigIntText.PrintThenRead` | StateDatabase/bigint.h:292-324 | reading what was printed restores the integer |
| `BigIntText.ReadThenPrint` | StateDatabase/bigint.h:292-324 | printing what was read gives the shortest decimal of its value |
| `BigIntText.DecimalIsShortest` | StateDatabase/bigint.h:317-324 | no other digit string of the same value is as short |
| `BigIntAlgebra.Gcd` | StateDatabase/bigint.h:285-287 | the recursion ends with a common divisor that every common divisor divides; its sign is that of the first operand after an even number of remainders, else that of the second, so not negative for operands that are not |
| `BigIntAlgebra.RemainderIs` | StateDatabase/bigint.h:285-287 | the remainder of `divmod` is the truncated one |
| `BigIntAlgebra.GcdIsGreatest` | StateDatabase/bigint.h:285-287 | its magnitude is the greatest common divisor unless both inputs are zero |
| `BigIntAlgebra.Power` | StateDatabase/bigint.h:31-39 | x to the power n, canonical, if the last square used and the part below the top bit have at most 1431 limbs and the top power, squared once more to no effect, stays within 64 bits |
| `LeafLists.PutFind` | StateDatabase/list.h:52-83 | a leaf insertion changes exactly one binding |
| `LeafLists.PutSorted` | StateDatabase/list.h:52-83 | it keeps strict key order |
| `LeafLists.LeafList.Set` | StateDatabase/list.h:52-83 | the linked list becomes the sorted list with the binding added or replaced |
| `LeafLists.LeafList.Split` | StateDatabase/list.h:85-100 | lower and upper half, or nothing happens below two entries |
| `LeafLists.LeafList.Get` | StateDatabase/list.h:104-118 | the value stored for the key, or none |
| `LeafLists.LeafList.Iterate` | StateDatabase/list.h:151-160 | visits all pairs in order |
| `BptHeap.LeafSplit` | StateDatabase/leaf.h:73-91 | the upper half becomes a new leaf, next in the chain; null and no change below two entries |
| `BptHeap.ChildNode` | StateDatabase/bpt_internal.h:190-202 | stops at the last live node not above the key and never steps onto the stale tail |
| `BptHeap.RouteStep` | StateDatabase/bpt_internal.h:205-212 | the child whose interval contains the key |
| `BptHeap.InsertKid` | StateDatabase/bpt_internal.h:145-183 | a new list node at its key's position; the node holds the enlarged list |
| `BptHeap.SplitNode` | StateDatabase/bpt_internal.h:219-243 | both halves around the middle key; the left one keeps a stale tail that begins with a key never routed to it |
| `BptHeap.TwoEntriesLeaveNothing` | StateDatabase/bpt_internal.h:230-240 | of two entries none is left for the right node, so the order must be at least three |
| `BptShape.InsertInner` | StateDatabase/bpt_internal.h:145-183 | after an insertion every child of the node still answers for exactly its interval |
| `BptShape.SplitAll` | StateDatabase/bpt_internal.h:219-243 | a split keeps all nodes in order, the split one up to its middle key |
| `BptShape.WrapOK` | StateDatabase/bpt_internal.h:169-175 | storing the whole new root as a child, with its aliased lesser child, keeps all nodes in order |
| `BptShape.AdoptOK` | StateDatabase/bpt_internal.h:176-181 | taking only the right node keeps all nodes in order |
| `BptShape.RootOK` | StateDatabase/bpt.h:51-53 | replacing the root keeps all nodes in order |
| `BptChain.ChainPut` | StateDatabase/leaf.h:37-46 | an insertion into the right leaf updates the abstract map the chain stores |
| `BptChain.ChainSplit` | StateDatabase/leaf.h:73-91 | splitting a leaf keeps the chain tiled and its map unchanged |
| `BptChain.FlattenIsMap` | StateDatabase/leaf.h:55-64 | the entries along the chain are exactly the abstract map, strictly ascending |
| `BptLeaves.SplitOff` | StateDatabase/leaf.h:73-91 | a leaf split on the heap; all other leaves keep what they store and no two share a cell |
| `BptSteps.Lookup` | StateDatabase/bpt_internal.h:33-36 | routing ends at the leaf the keys say and finds the abstract map's binding |
| `BptSteps.WalkChain` | StateDatabase/leaf.h:55-64 | visits all entries of the chain in order |
| `BptSteps.PutInLeaf` | StateDatabase/leaf.h:37-46 | the map gains the binding; a leaf over capacity is split and all leaves are within capacity |
| `BptSteps.InsertLeaf` | StateDatabase/bpt_internal.h:145-163 | the new leaf is routed to for its interval; all nodes stay in order |
| `BptSteps.InsertInternal` | StateDatabase/bpt_internal.h:166-183 | a pending split is taken in by either branch; all nodes stay in order |
| `BptSteps.SplitFull` | StateDatabase/bpt_internal.h:219-243 | a full node is split and handed up; all nodes within capacity |
| `BPlusTree.SetIn` | StateDatabase/bpt_internal.h:43-75 | `set` below any node: the abstract map is updated, no other node of the same or a higher rank changes, and the split handed up is well formed |
| `BPlusTree.FirstNode` | StateDatabase/bpt_internal.h:16-30 | the first root: an empty lesser leaf linked before the leaf with the pair |
| `BPlusTree.Tree.Get` | StateDatabase/bpt.h:11-16 | the abstract map's binding, or none |
| `BPlusTree.Tree.Set` | StateDatabase/bpt.h:43-55 | the abstract map updated at one key, the whole invariant kept |
| `BPlusTree.Tree.Iterate` | StateDatabase/bpt.h:18-22 | exactly the abstract map, strictly ascending |
| `BPlusTree.Capacities` | StateDatabase/bpt_internal.h:105-108 | every node and leaf holds at most ORDER-1 entries, and sizes are right |
| `BPlusTree.LeafReached` | StateDatabase/bpt_internal.h:190-212 | routing a key from the root ends at a leaf of the chain if and only if that leaf's interval holds the key |
| `BPlusTree.Intervals` | StateDatabase/leaf.h:55-64 | every leaf of the chain has a non-empty interval, and the intervals tile the keys |
| `BPlusTree.AfterIsLatest` | StateDatabase/bpt.h:43-55 | the map after a run of sets holds for each key the latest value set |
| `BPlusTree.Run` | StateDatabase/bpt.h:11-55 | after any run of `set` calls `get` returns the latest value or none, and `iterate` yields each key once, ascending, with its latest value |
| `ArgTheorems.StablePartition` | DBTestTerminal/optionparser.h:1539-1718 | a successful pass splits the vector into option part and rest, each in its original order |
| `ArgTheorems.NothingLost` | DBTestTerminal/optionparser.h:1377-1385 | no word is lost or doubled |
| `ArgMeaning.WordKinds` | DBTestTerminal/optionparser.h:1552-1576 | which words are options, plain, or the end mark |
| `ArgMeaning.AttachedIs` | DBTestTerminal/optionparser.h:1629-1636 | an attached argument is what follows the first equals sign, without it |
| `ArgMeaning.MatchesExactly` | DBTestTerminal/optionparser.h:1315-1321 | an exact match is equality with the name before the equals sign |
| `ArgMeaning.MatchesAbbreviated` | DBTestTerminal/optionparser.h:1347-1357 | an abbreviation is that name as a prefix of at least the minimal length |
| `ArgMeaning.ExactFound` | DBTestTerminal/optionparser.h:1603-1605 | a name in the table is found by its first entry, whatever is attached |
| `ArgMeaning.NotExact` | DBTestTerminal/optionparser.h:1607-1621 | another name is matched with an entry if and only if it abbreviates that one and no other |
| `ArgMeaning.AmbiguousMatchesNothing` | DBTestTerminal/optionparser.h:1612-1620 | an abbreviation of two entries matches nothing |
| `ArgMeaning.UnknownGoesToDummy` | DBTestTerminal/optionparser.h:1656-1665 | what matches nothing goes to the first entry without any name, or to none |
| `ArgMeaning.LongAttached` | DBTestTerminal/optionparser.h:1600-1696 | `--name=value` as a vector: reported with the value, without argument, or fatal, as the checker says |
| `ArgMeaning.LongSeparate` | DBTestTerminal/optionparser.h:1600-1703 | `--name value`: the same, and the word is taken only with the value |
| `ArgMeaning.LongUnknown` | DBTestTerminal/optionparser.h:1656-1696 | an unknown long option is reported under the entry for those, or not at all |
| `ArgMeaning.ShortAttached` | DBTestTerminal/optionparser.h:1640-1686 | `-cvalue`: the value is the rest of the word |
| `ArgMeaning.ShortSeparate` | DBTestTerminal/optionparser.h:1640-1703 | `-c value`: the value is the next word |
| `ArgMeaning.ShortPair` | DBTestTerminal/optionparser.h:1640-1698 | `-cd`: two options in order |
| `ArgMeaning.SingleMinus` | DBTestTerminal/optionparser.h:1585-1627 | `-name` is a long option exactly if those are allowed with one minus |
| `ArgMeaning.GnuRest` | DBTestTerminal/optionparser.h:1548-1566 | unless it met the end mark, a GNU pass leaves only plain words |
| `ArgMeaning.PosixRest` | DBTestTerminal/optionparser.h:1548-1566 | a POSIX pass leaves the vector as it is and stops at the first plain word |
| `ArgReparse.RepeatableIff` | DBTestTerminal/optionparser.h:1522-1537 | for any checker: every successful GNU pass is repeated by a second pass in any mode if and only if no word that reordering may bring behind an option word changes what that word means |
| `ArgReparse.SteadyIffSettled` | DBTestTerminal/optionparser.h:1670-1692 | for checkers that only look at an argument's presence, it is enough that a word content to come last is not changed by one word behind it |
| `ArgReparse.LeavesNextIsSettled` | DBTestTerminal/optionparser.h:1674-1691 | it is enough that an option which leaves one separate argument alone leaves any other alone |
| `ArgReparse.StandardRepeats` | DBTestTerminal/optionparser.h:877-939 | with the library's checkers and the manual's `Required`, `NonEmpty`, `Numeric` and `Unknown`, every successful GNU pass is repeated by a second pass in any mode |
| `ArgReparse.NotAlwaysRepeatable` | DBTestTerminal/optionparser.h:1674-1692 | a checker and a vector for which the second pass differs from the first |
| `ArgFlag.FlagIdleIff` | DBTestTerminal/optionparser.h:1134-1139 | for any checker: on vectors reordered by a successful GNU pass both modes scan alike if and only if no option declines a plain word and, by taking option words, leaves a plain word bare |
| `ArgFlag.PresenceOnlyIdle` | DBTestTerminal/optionparser.h:1134-1139 | they do for checkers that only look at an argument's presence |
| `ArgFlag.RepeatableIdle` | DBTestTerminal/optionparser.h:1134-1139 | and for those whose second pass repeats the first |
| `ArgFlag.FlagNotAlwaysIdle` | DBTestTerminal/optionparser.h:1137-1139 | a checker that reads contents, and a reordered vector whose POSIX pass leaves an option that the GNU pass takes |
| `ArgParser.StrEq` | DBTestTerminal/optionparser.h:1315-1321 | the name, possibly with an attached argument |
| `ArgParser.StrEqAbbr` | DBTestTerminal/optionparser.h:1347-1357 | a long enough common prefix, possibly with an attached argument |
| `ArgParser.FindLong` | DBTestTerminal/optionparser.h:1603-1621 | the first exact match, else the only abbreviation match, else none |
| `ArgParser.ShortOptions` | DBTestTerminal/optionparser.h:1594-1698 | the loop over a short-option group yields the options of the word, stops at an argument or a fatal error, and respects the action's room |
| `ArgParser.Shift` | DBTestTerminal/optionparser.h:1377-1385 | rotates one word in front of the words before it, in place |
| `ArgParser.Workhorse` | DBTestTerminal/optionparser.h:1539-1718 | success exactly when the scan succeeds within the action's room; then the vector is option part followed by rest, and `finished` gets exactly the rest |
| `ArgParser.OptionsMax` | DBTestTerminal/optionparser.h:1526-1533 | every index lies below the array size minus one, and the size is no larger than needed |
| `ArgParser.StatsAdd` | DBTestTerminal/optionparser.h:1522-1537 | the buffer size grows by the number of options accepted |
| `ArgParser.SizeThenParse` | DBTestTerminal/optionparser.h:1515-1537 | the second pass scans the reordered vector; for settled checkers it stores exactly `buffer_max - 1` options, the ones counted; every list index is in range |
| `ArgStore.ReadCommandLine` | DBTestTerminal/optionparser.h:1456-1537 | sizing, allocating, parsing and filing: each slot heads the list of exactly the accepted options of its index, in order; for settled checkers those of the whole command line |
| `ArgStore.SettledSuffices` | DBTestTerminal/optionparser.h:1515-1537 | for settled checkers the buffer sized by the first pass holds what the second one finds |
| `OptionList.OptionNode.First` | DBTestTerminal/optionparser.h:608-614 | from any member, the head of the list |
| `OptionList.OptionNode.Last` | DBTestTerminal/optionparser.h:640-643 | from any member, the end of the list |
| `OptionList.OptionNode.Count` | DBTestTerminal/optionparser.h:559-569 | from any member, the length of the list, zero for an unused option |
| `OptionList.OptionNode.Append` | DBTestTerminal/optionparser.h:731-739 | the tagged circular list with one more node |
| `OptionList.Store.Perform` | DBTestTerminal/optionparser.h:1482-1498 | each slot heads a well-formed list of exactly the stored options of its index, in order; lists are disjoint; an option beyond the buffer is dropped without error |
| `OptionList.Store.PerformAll` | DBTestTerminal/optionparser.h:1482-1498 | the same after any run of options; exactly the first ones up to the free room are stored |
| `OptionList.Store.Ends` | DBTestTerminal/optionparser.h:559-651 | from any member, count, first and last agree with the stored options of that index |
| `Utf8.Decode` | DBTestTerminal/optionparser.h:1974-1989 | length and screen width of one character |
| `Utf8.EncodeThenDecode` | DBTestTerminal/optionparser.h:1974-1989 | decoding the standard encoding of a code point of two to four bytes gives it back, and its width |
| `Utf8.WideExamples` | DBTestTerminal/optionparser.h:1903-1912 | which code points are wide: members and non-members of the ranges, none below 0x1100 |
| `Utf8.WidthConcat` | DBTestTerminal/optionparser.h:1968-1991 | widths add up wherever a character begins |
| `LineParts.ScansAreTranspose` | DBTestTerminal/optionparser.h:2089-2155 | the scans from row start, one per line, find exactly the transpose of cells by lines, padded with empty parts |
| `LineParts.SplitThenJoin` | DBTestTerminal/optionparser.h:1928-1929 | cells and lines are the pieces between separators: joining restores the text, and no piece holds one |
| `LineParts.TransposeAt` | DBTestTerminal/optionparser.h:1936-1946 | part `c` of line `t` of the transpose is line `t` of cell `c`, empty if there is none |
| `LineParts.LinesCount` | DBTestTerminal/optionparser.h:1943-1947 | the transpose has as many parts as columns times lines |
| `LineParts.LastLineIsGreatest` | DBTestTerminal/optionparser.h:1959 | there are as many lines as in the cell with the most |
| `LineParts.ManualExample` | DBTestTerminal/optionparser.h:1940-1941 | the manual's row gives its parts in the order 1, 2, 3, 4 |
| `LineParts.Measure` | DBTestTerminal/optionparser.h:1968-1991 | length and screen width of the part at the cursor |
| `LineParts.Iterator.Next` | DBTestTerminal/optionparser.h:2089-2155 | hands out the next part of the transpose, false exactly at its end; the scan-and-restart loop ends |
| `LineParts.AllParts` | DBTestTerminal/optionparser.h:2070-2155 | successive calls yield the whole transpose of the row, with screen widths |
| `LineWrapping.CutIsGood` | DBTestTerminal/optionparser.h:2355-2422 | a piece fits the column, takes at least one byte, and with its dropped space is how the text begins |
| `LineWrapping.CutIsLongest` | DBTestTerminal/optionparser.h:2364-2421 | no later space, nor the end of the text, would have fitted |
| `LineWrapping.WrapIsGood` | DBTestTerminal/optionparser.h:2351-2426 | joining the pieces restores the text except for at most one space per cut; every piece fits |
| `LineWrapping.FindFit` | DBTestTerminal/optionparser.h:2364-2392 | how many bytes fit on the line |
| `LineWrapping.LineWrapper.Output` | DBTestTerminal/optionparser.h:2286-2292 | queues a piece and never overwrites one |
| `LineWrapping.LineWrapper.WriteOneLine` | DBTestTerminal/optionparser.h:2297-2313 | the oldest piece goes out, after a line break and indentation unless it is the first |
| `LineWrapping.IndentationIs` | DBTestTerminal/optionparser.h:1867-1883 | so many spaces |
| `LineWrapping.LinesOf` | DBTestTerminal/optionparser.h:2297-2313 | the first piece stands on the current line, another after a line break and indentation |
| `LineWrapping.LineWrapper.Process` | DBTestTerminal/optionparser.h:2351-2426 | all pieces of the text follow the earlier ones in order; at least one piece goes out if there is any; the output is the written pieces, one per line |
| `LineWrapping.LineWrapper.Flush` | DBTestTerminal/optionparser.h:2321-2331 | everything queued goes out in order, each piece on an indented line, with a closing line break |
| `LineWrapping.WrapAll` | DBTestTerminal/optionparser.h:2321-2426 | over any sequence of texts, every piece comes out once and in order |
| `ColumnWidths.WidestFalls` | DBTestTerminal/optionparser.h:2508-2514 | the threshold strictly falls while the columns are too wide |
| `ColumnWidths.ColWidthIsWidest` | DBTestTerminal/optionparser.h:2483-2493 | a column's width is that of its widest part below the threshold that is not a heading, or zero |
| `ColumnWidths.LastColumnIsGreatest` | DBTestTerminal/optionparser.h:2485 | the last column is the greatest one in use among the first eight |
| `ColumnWidths.LeftIsSum` | DBTestTerminal/optionparser.h:2508-2514 | the left width is the sum, the next threshold the maximum of the columns left of the last |
| `ColumnWidths.Pass` | DBTestTerminal/optionparser.h:2474-2495 | one pass computes last column and column widths under the threshold |
| `ColumnWidths.Determine` | DBTestTerminal/optionparser.h:2471-2516 | the loop ends, with the widths of the mildest threshold under which the sum of the left columns fits |
| `WriteQueue.CompleteKeeps` | StateDatabase/connection.cpp:277-315 | a completion keeps the invariant: one write in flight, nothing lost, the handler's first write started next |
| `WriteQueue.EveryRun` | StateDatabase/connection.cpp:105-315 | in every run: at most one write in flight, each write in exactly one of in flight, pending, completed; nothing pending without a write in flight or a fatal error; a handler's first write (the body behind its preamble) is the next one started |
| `WriteQueue.OnlyEmptyRawDropped` | StateDatabase/connection.cpp:105-116 | only raw writes of no bytes are dropped; any other starts on an idle connection and is queued last otherwise |
| `WriteQueue.FatalIff` | StateDatabase/connection.cpp:295-301 | a completion is fatal exactly if the write was required and failed |
| `WriteQueue.NothingAfterFatal` | StateDatabase/connection.cpp:295-301 | after that no run starts another write |
| `WriteQueue.BodyFollowsPreamble` | StateDatabase/asio_server.cpp:206-219 | in every run the body of a value is the next write started after its preamble is completed |
| `WriteQueue.CompleteOutstanding` | StateDatabase/connection.cpp:303-314 | every completion that is not fatal brings the end exactly one write nearer |
| `WriteQueue.Drains` | StateDatabase/connection.cpp:277-315 | with that many successful completions every write is done |
| `WriteQueue.InOrderIff` | StateDatabase/connection.cpp:307-314 | after a completion the line of started and waiting writes is in submission order if and only if it was before and the handler submits nothing, or nothing waited and it submits at most two writes |
| `WriteQueue.ServedInOrderIff` | StateDatabase/connection.cpp:105-315 | over any run: the line of started and waiting writes is in submission order if and only if every completion met that guard; if nothing is left waiting, the same for the writes started |
| `WriteQueue.NotFifo` | StateDatabase/connection.cpp:303-314 | a run in which a later write starts before an earlier one |
| `WriteQueue.Writer.AsyncWrite` | StateDatabase/connection.h:151-192 | starts the write, or queues it behind one in progress; empty raw writes are dropped |
| `WriteQueue.Writer.HandleWrite` | StateDatabase/connection.cpp:277-315 | the completion step on the connection's own flag and queue |
| `ReadQueue.HandleDataOutcome` | StateDatabase/connection.cpp:208-275 | what a reply leads to, in spite of the detour of the next preamble through the queue |
| `ReadQueue.EveryRun` | StateDatabase/connection.cpp:142-275 | in every run: one HELLO, then only behind a valid one preambles, each GET or SET preamble followed by the read of its announced body; at most one read queued; exactly one in flight while open |
| `ReadQueue.BodyHasPreamble` | StateDatabase/asio_server.cpp:137-153 | a body read was announced, with its size, by the preamble right before it |
| `ReadQueue.BodyIds` | StateDatabase/asio_server.cpp:83-90 | a preamble with id 1 or 4 is followed by the read of its body, any other by a preamble unless closed |
| `ReadQueue.NothingFollows` | StateDatabase/connection.cpp:180-231 | a failed read or an invalid HELLO closes the connection, and no read follows |
| `ReadQueue.Reader.HandleMessage` | StateDatabase/connection.cpp:262-275 | the body read, if any, then the next preamble unless closed |
| `ReadQueue.Reader.Arrive` | StateDatabase/connection.cpp:208-246 | the completion step on the connection's own flag and queue |
| `CircularQueue.CircularQ.PushBack` | spdlog/details/circular_q.h:26-36 | the item is added, the oldest one making room and being counted if the queue is full |
| `CircularQueue.CircularQ.PopFront` | spdlog/details/circular_q.h:40-44 | the oldest item leaves |
| `CircularQueue.CircularQ.Empty` | spdlog/details/circular_q.h:46-49 | true exactly if there are no items |
| `CircularQueue.CircularQ.Full` | spdlog/details/circular_q.h:51-55 | true exactly if the capacity is used up |
| `ThreadPool.EveryRun` | spdlog/details/thread_pool.h:184-234 | in every interleaving: pushed equals popped or overrun, in order, then queued; overruns are counted; a worker leaves only with a terminate message of its own |
| `ThreadPool.ReadyExactly` | spdlog/details/thread_pool.h:124-138 | the constructor accepts exactly one to a thousand threads |
| `ThreadPool.WhoWaits` | spdlog/details/mpmc_blocking_q.h:35-54 | a blocking post waits exactly while the queue is full, the other policy never |
| `ThreadPool.BlockingLosesNothing` | spdlog/details/thread_pool.h:184-194 | in every run whose posts all block nothing is overrun: everything pushed was taken or is queued |
| `ThreadPool.OverrunningNeverWaits` | spdlog/details/mpmc_blocking_q.h:46-54 | in every reachable state before the shutdown such a post goes through, losing the oldest message exactly if the queue is full |
| `ThreadPool.AllWorkersGone` | spdlog/details/thread_pool.h:141-158 | in every run, once all workers left: queue empty, one terminate message each, everything pushed was dequeued or counted as overrun |
| `ThreadPool.ShutdownFalls` | spdlog/details/thread_pool.h:141-158 | every step of a shutdown but a timeout brings its end exactly one step nearer |
| `ThreadPool.ShutdownEnds` | spdlog/details/thread_pool.h:141-158 | from every reachable state the shutdown can be brought to its end |
| `ThreadPool.ShutdownPossibleIff` | spdlog/details/thread_pool.h:124-158 | all workers can ever leave if and only if the queue has room for an item |
| `ThreadPool.Shared.PostAsync` | spdlog/details/thread_pool.h:184-194 | posts, overruns the oldest item, or has to wait |
| `ThreadPool.Shared.PostTerminateMsg` | spdlog/details/thread_pool.h:145-148 | one blocking terminate message of the destructor |
| `ThreadPool.Shared.ProcessNext` | spdlog/details/thread_pool.h:204-234 | takes the oldest item; the loop ends exactly on a terminate message |

## Left out

- Tree deletion (StateDatabase/list.h:120-147, StateDatabase/bpt_internal.h:79-142): the code dereferences an empty list and does not advance its loop, so there is nothing to refine.
- Tree order: ORDER is at least 3, since the split of a two-entry node leaves its right half empty (`BptHeap.TwoEntriesLeaveNothing`). The program uses 6.
- Tree iteration passes pairs to a callback; the model collects them instead, so a callback that changes the tree is not covered.
- LeafLists.LeafList.constructor: takes the uninitialised `m_size` (StateDatabase/list.h:163) as zero.
- Tree keys are `size_t`; values are an arbitrary type; memory is never freed.
- Big integers are a value datatype, as the C++ struct is copied by value; update in place of a limb vector is therefore not modelled as aliasing.
- Big-integer multiplication by `long long` (StateDatabase/bigint.h:135-153), the negation of the least `int` and `long long`, `longValue`, `sumof`, `size` and `lcm`.
- Big-integer sizes: limb counts that the code's `int` indices cannot reach are excluded; division leaves a few limbs of slack below that.
- BigIntMul.Multiply: says nothing about operands of more than 16384 six-digit limbs, where the 64-bit sums of the recursion are no longer covered.
- BigIntAlgebra.Power: says nothing where a product that is used may lose a carry; the code also ignores the exponent's sign, and so does the contract.
- BigIntText.Read: strings that are not signs followed by digits; the code turns other characters into arbitrary limbs.
- Sockets, timers, partial transfers, buffers and logging of a connection: each issued operation is one start and one completion. A timeout is a close event on the read side and a failed completion on the write side.
- First-come-first-served order of writes, and adjacency of two writes submitted one after the other (`send_key_not_found`, `async_write_error`): the code does not provide them.
- Message contents, the dispatcher's other commands and the database behind them.
- Condition variables and the ten-second timeout of a worker: waiting is a step that is not enabled, a timeout a step without effect.
- Argument vectors are as long as their count; a null pointer inside one ends it, as in the code, and is not modelled separately.
- Option checkers are parameters; `print_errors` only prints. A parse into a buffer that already holds options is not modelled.
- The lead byte 0xFF, for which the code calls `__builtin_clz` with zero, has no defined value there; the model takes zero.
- LineParts.Iterator.Next: one row; moving to the next row or table is not modelled.
- `printUsage` after the column widths: tab stops and output.
- Files, streams, database header, hashing, the rest of spdlog and fmt.

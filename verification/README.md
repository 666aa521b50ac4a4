# seq: what its algorithms promise, and proofs of it

A model in Dafny of seven components of the C++ library *seq*, with proofs of what they are for. Elements, keys and
characters are values; iterators are positions in an array; every comparator is an arbitrary strict weak order. Code
that updates things in place is modelled as methods over arrays and objects, each proved against a specification
function, and the lemmas say what those functions mean.

* **`net_sort`** (`seq/algorithm.hpp`). `StableSorting` defines the stable merge and the stable sort and proves that the
  stable sort is the only sorted arrangement that keeps equivalent elements in order. Against it are proved the forward
  merge over overlapping storage and its mirror image (`Merging`, `InPlaceMerging`), the merge from both ends
  (`Bidirectional`), the in-place merge with a buffer of any size, including none (`InPlaceMerging`), insertion sort and
  the stable reversal (`SmallSorts`), the sorting network (`NetworkSort`), the ping-pong merges and the merge of an array
  of runs (`Runs`), chunks of up to 128 elements (`Chunks`), run detection (`WaveSort`, with `Waves`, which says what runs
  it finds), and the multi-pass driver with the public entry point (`NetSort`). What comes out is a function of the input,
  `NetSort.NetSorted`; `Stability` says when it is the stable sort.
* **`shared_spinner`** (`seq/lock.hpp`). `SharedSpinner` is a transition system with one atomic operation per step, any
  number of threads and every width of the lock word; `SpinnerCalls` says what each call does and what a request for
  writing means over whole runs.
* **Sorted flat trees over tiered buckets** (`seq/flat_map.hpp`). `BinarySearch` and `TieredVectors` prove the two-level
  search over circular buckets, `SortedSets` says what a sorted sequence means as a map, `FlatTrees` has the operations
  of the container, `FlatTreeRuns` what any run of them leaves, and `UniqueMerge` the merge that drops keys already
  present.
* **Chained hash buckets** (`benchs/flat_hash_map.hpp`). `NodeChains` is the meaning of erasing from a chain,
  `HashBuckets` the linked nodes with their tiny hashes, `HashTables` the table.
* **The double-ended vector** (`seq/devector.hpp`). `Storage` models raw storage whose cells are dead, copied from, moved-from or
  alive, with the lifetime rules as preconditions; `Devectors` is the container.
* **Integer text conversion** (`seq/charconv.hpp`). `Texts` has the text of an integer, `Printing` and `Parsing` are the
  writers and readers. `Numerals` and `Reading` say in terms of characters what is written and, on every text, what is
  read; `RoundTrip` is their relation.
* **128-bit multiplication and digit counting** (`seq/bits.hpp`), in `Bits` and `Digits`.

`Ordering`, `Ranges`, `Sequences`, `Arithmetic` and `Wrappers` are shared. `dafny verify dfyconfig.toml` checks the
whole project.

## Where the code and its documentation disagree

The model follows the code.

* **Stability of `net_sort`.** The documentation calls it a stable sort (docs/algorithm.md:18). Through random access
  iterators, blocks of eight elements go through a sorting network (seq/algorithm.hpp:858-863), which exchanges elements
  that are not neighbours. `NetSorted` is exactly what `net_sort_size` leaves, for every comparator and buffer;
  `NetStableIff` says that this is the stable sort, on all inputs of a given length, if and only if the iterators have no
  random access or there are fewer than 16 elements. Ranges of at most four runs, and so all descending ones, are sorted
  stably in any case (`FewRunsStable`, `DescendingStable`).
* **Stability of range insertion.** A flat multi-container told to be stable is documented to keep the order of
  equivalent new elements (docs/flat_set.md:36). It sorts them with `net_sort` through random access iterators
  (seq/flat_map.hpp:183-188), so `RangeStableIff` says the same of it: exactly for fewer than 16 new elements.
  With unique keys, `FirstKeptIff` says that exactly then the first of several new elements with one key is the one that
  is kept; `LaterKept` has sixteen or more elements of which another one is.
* **An element of the vector as argument.** The documentation of `devector::emplace` says that arguments may refer to a
  value in the container (seq/devector.hpp:837). Where `grow_back` or `grow_front` slides the elements inside the
  storage, the new element is constructed from the argument afterwards (seq/devector.hpp:514-523, 569-577). Elements of
  a type that is not relocatable have then been destroyed; relocatable ones were copied byte by byte and can still be
  read (seq/devector.hpp:150-151). `EmplaceBack`, `EmplaceFront` and `Emplace` say exactly when an argument taken by
  const reference is lost; `OwnElementLost` is such a call, and `OwnElementKept` the same one with relocatable elements.
* **Storage lost.** `resize_front` does not give its old storage back when it takes new one (seq/devector.hpp:489-493).
  `ResizeFront` says exactly when, and `StorageLost` is such a call; every other operation returns what it takes.
* **Writers and readers beyond the capacity of the lock word.** The forms wider than one byte keep writers and readers
  apart exactly up to 2^(bits-2) threads, and their debug assertions and their reader count are right exactly below that
  (`ExclusiveIff`, `AssertsIff`); the one-byte form always.
* **Reading back what was printed.** In bases other than 10 a single digit at the very end of the input is left unread
  and reported as an error, and a hexadecimal `0` followed by `x` is taken for a prefix. `RoundTripIff` is the exact
  condition for the round trip, `LoneDigit` what happens otherwise at the end of the input.
* **Padding.** `write_integral` takes a width of up to 255 digits, but in bases other than 10 the text goes through 65
  characters of scratch space (seq/charconv.hpp:1138-1172). `FitsScratch` is the exact condition for everything to have
  room there, and `CompleteIff` the one for the zeros to be complete; `NarrowFits` says that a width of 62 is always
  enough room, and `WideDoesNotFit` that from 63 on it need not be.
* **The null buffer.** `null_buffer` is documented as a sort without memory, but has the same value as `default_buffer`
  (seq/algorithm.hpp:1149, 1161). `NullBufferAllocates` says what `net_sort` takes for it. It takes nothing exactly for
  fewer than 16 elements or with a buffer of the caller's (`AllocatesNothingIff`), whose size may be 0.
* **Merging sets.** `unique_merge_move` promises to leave out values of the second range that are equal to one of the
  first, and its result becomes a set (seq/flat_map.hpp:329-335, 918-925). It tests `==`, not the order, so elements that
  are equivalent and not equal are both kept: `UnionStrictIff` is the exact condition for the result to be a set, and
  `RepeatedKey` has two sets whose merge is none.

## Model

| member | source | states |
|---|---|---|
| `StableSorting.StableSortIsTheStableSort` | docs/algorithm.md:18 | a sequence is the stable sort of another if and only if it is sorted and has every class of equivalent elements in the same order; it then has the same elements |
| `StableSorting.SortedUnique` | docs/algorithm.md:18 | two sorted sequences with the same classes in the same order are the same, so there is but one stable sort |
| `StableSorting.MergeSorted` | seq/algorithm.hpp:1163-1168 | the stable merge of two sorted ranges is sorted |
| `StableSorting.MergePermutes` | seq/algorithm.hpp:1163-1168 | the stable merge has the elements of both ranges |
| `StableSorting.FilterMerge` | seq/algorithm.hpp:1163-1168 | in the stable merge, of equivalent elements those of the first range come first, all in their order |
| `StableSorting.MergeSplit` | seq/algorithm.hpp:254-318 | a merge falls apart wherever a cut separates both ranges, which is what every algorithm below relies on |
| `StableSorting.MergeMirrored` | seq/algorithm.hpp:539-549 | merging the reversed ranges, exchanged, with the comparator flipped is the reversed stable merge |
| `StableSorting.MergeIsSort` | seq/algorithm.hpp:1163-1168 | the stable merge of two sorted ranges is the stable sort of their concatenation |
| `StableSorting.SortOfSorts` | seq/algorithm.hpp:776-810 | sorting parts first, then the whole, or merging the sorted parts, gives the stable sort of the whole |
| `StableSorting.RearrangesMeans` | seq/algorithm.hpp:996-1083 | two arrangements have the same stable sort exactly if every class of equivalent elements has the same order in both |
| `Merging.Lanes.TakeLeft` | seq/algorithm.hpp:385-410 | writing the next element of the left range keeps the state of the merge, where the output overlaps the right range: it never overwrites an element still to be read |
| `Merging.Lanes.TakeRight` | seq/algorithm.hpp:385-410 | the same for the next element of the right range |
| `Merging.Lanes.MergeSmallLeft` | seq/algorithm.hpp:347-363 | the branch for a much smaller left range takes it completely and keeps the state of the merge |
| `Merging.Lanes.MergeSmallRight` | seq/algorithm.hpp:364-380 | the branch for a much smaller right range takes it completely and keeps the state of the merge |
| `Merging.Lanes.MergeBalanced` | seq/algorithm.hpp:383-410 | the branch for ranges of similar size ends with one range used up and keeps the state of the merge |
| `Merging.Lanes.RestInPlace` | seq/algorithm.hpp:412-424 | when the left range is used up over overlapping storage, the rest of the right range already stands where it belongs |
| `Merging.MergeForward` | seq/algorithm.hpp:333-427 | for sorted ranges the output is exactly the stable merge, forward or reversed, overlapping the right range or not, through each branch; nothing else is written |
| `Bidirectional.Ends.MergeTails` | seq/algorithm.hpp:429-444 | one element is written at each end, into different cells between those written before, and no other cell; the parts in front and behind stay stable merges, and at least two elements are left |
| `Bidirectional.Ends.TailsToTheEnd` | seq/algorithm.hpp:485-486 | however often this is repeated, each end writes only the cells it passes, and at least two elements are left for the finishing step |
| `Bidirectional.Ends.ProbeOrder` | seq/algorithm.hpp:505-525 | the same wherever the balance test gives up: two elements are left, and only the cells that the ends have passed are written |
| `Bidirectional.Ends.Finish` | seq/algorithm.hpp:446-460 | whatever is left between the ends, merging it completes the stable merge, and writes only the cells between them, so that every cell is written once |
| `Bidirectional.MergeMoveBidirectional` | seq/algorithm.hpp:462-537 | for every choice of branch and wherever the balance test gives up, the output is the stable merge, the same as that of the forward merge, and nothing else is written |
| `InPlaceMerging.MergeBackward` | seq/algorithm.hpp:539-549 | from the last elements on, over storage that overlaps the left range, the same stable merge |
| `InPlaceMerging.MergeWithBuffer` | seq/algorithm.hpp:551-566 | if the smaller range fits, the two adjacent ranges become their stable merge and the storage behind the buffer is not touched |
| `InPlaceMerging.RotateOneRight` | seq/algorithm.hpp:568-577 | the last element comes first, the others follow in order |
| `InPlaceMerging.MergeInplaceLeftSubproblem` | seq/algorithm.hpp:254-285 | after the rotation the middle of the left range is in its final place, and merging what is on each side of it gives the stable merge |
| `InPlaceMerging.MergeInplaceRightSubproblem` | seq/algorithm.hpp:287-318 | the same with the middle of the right range |
| `InPlaceMerging.FirstChecks` | seq/algorithm.hpp:589-628 | either the checks finish the stable merge, or merging the elements they leave between completes it |
| `InPlaceMerging.MergeAdaptive` | seq/algorithm.hpp:579-646 | for a buffer of any size, including 0, two adjacent sorted ranges become exactly their stable merge; nothing behind the buffer is written; it ends |
| `InPlaceMerging.InplaceMerge` | seq/algorithm.hpp:1184-1243 | the same for the public function, with a buffer of the caller's |
| `SmallSorts.InsertionSort` | seq/algorithm.hpp:648-674 | leaves exactly the stable sort of the elements, and everything else as it was |
| `SmallSorts.ReverseSort` | seq/algorithm.hpp:676-707 | of a range in which no element is less than one behind it, leaves exactly the stable sort |
| `SmallSorts.ReverseEqual` | seq/algorithm.hpp:694-699 | a whole group of equivalent elements is found and reversed, so that reversing all restores its order |
| `NetworkSort.NetworkSorts` | seq/algorithm.hpp:838-848 | the nineteen exchanges sort eight elements, for every strict weak order, and keep them |
| `NetworkSort.NetworkSort8` | seq/algorithm.hpp:838-848 | performs these exchanges on eight cells and changes nothing else |
| `NetworkSort.AtomSort8` | seq/algorithm.hpp:854-867 | leaves the stable sort of the elements, after the network where they are eight with random access |
| `NetworkSort.AtomStableIff` | seq/algorithm.hpp:854-867 | this is the stable sort of all inputs of a length if and only if it does not use the network |
| `Runs.MergeOrMove` | seq/algorithm.hpp:721-733 | two runs are merged, or moved if they are in order already: either way the output is the stable sort of both |
| `Runs.PingPongMerge3` | seq/algorithm.hpp:747-774 | for a buffer of any size, three adjacent runs become the stable sort of all their elements |
| `Runs.PingPongMerge4` | seq/algorithm.hpp:709-746 | for a buffer of any size, four adjacent runs become the stable sort of all their elements |
| `Runs.MergeSortedRuns` | seq/algorithm.hpp:776-810 | any number of adjacent runs become the stable sort of all their elements, without changing the array of their limits |
| `Runs.RunRecorded` | seq/algorithm.hpp:996-1055 | one more sorted run behind others extends both the runs and the elements whose stable sort they will give |
| `Chunks.AtomSort64` | seq/algorithm.hpp:869-892 | 64 elements become, in the other storage, the stable sort of their blocks of eight |
| `Chunks.BlocksConcat` | seq/algorithm.hpp:904-917 | blocks of eight are arranged independently of those in front of them |
| `Chunks.Sort128` | seq/algorithm.hpp:894-919 | for up to 128 elements and a buffer of any size, both branches leave the stable sort of the same blocks of eight, with the 17 limits in bounds |
| `WaveSort.FindRuns` | seq/algorithm.hpp:933-969 | cuts off a beginning made of at most one run less than there are limits; none is empty, each goes up or down as flagged, and the element at each limit breaks the run in front of it; it ends at the end, or where the last run that there is room for is broken |
| `WaveSort.CloseRun` | seq/algorithm.hpp:957-963 | a run that ends starts the next in the other direction, unless it is a single element, which changes direction |
| `WaveSort.DirectedRun` | seq/algorithm.hpp:982-988 | a run that goes up is its own stable sort, and one that goes down may be reversed into its stable sort |
| `WaveSort.SortRuns` | seq/algorithm.hpp:977-992 | reversing the runs that go down and merging all leaves the stable sort of the elements covered |
| `WaveSort.TryWaveSort` | seq/algorithm.hpp:921-994 | if the runs cover fewer than the least number of elements nothing is changed, and otherwise exactly the covered elements become their stable sort |
| `Waves.WaveDistIff` | seq/algorithm.hpp:922-975 | the elements covered are those of the longest runs from the beginning on, all of them or as many runs as there is room for; each goes the other way than the one in front of it, if its first two elements allow it |
| `Waves.DescendingIff` | seq/algorithm.hpp:922-993 | a descending range is covered whole, unless there is room for one run only, it begins with two equivalent elements and not all are equivalent |
| `Waves.FewRunsStable` | seq/algorithm.hpp:1094-1109 | through every kind of iterator, net_sort leaves the stable sort of a range of at most four runs |
| `Waves.DescendingStable` | seq/algorithm.hpp:1094-1109 | and so of every descending range |
| `NetSort.DescentIsCut` | seq/algorithm.hpp:1011-1041 | in a range made of sorted chunks a descent can only be where one chunk ends |
| `NetSort.SortedUpTo` | seq/algorithm.hpp:1011-1041 | if the first chunk reaches the place where the search starts, everything up to the first descent behind it is sorted |
| `NetSort.IdentifyRun` | seq/algorithm.hpp:1011-1041 | the search that skips the least chunk size finds a sorted range and ends at the end of a chunk, which is not shorter unless it is the last one |
| `NetSort.SortSubRange` | seq/algorithm.hpp:1102-1118 | sorts the beginning of the range at once, by runs or in blocks of eight: at least 128 elements, or all that remain |
| `NetSort.NextGroup` | seq/algorithm.hpp:996-1065 | up to 64 runs become one sorted chunk of at least 64 times the least size, or the last one |
| `NetSort.PassExtended` | seq/algorithm.hpp:1057-1074 | the chunks of a pass, all of at least the new least size, stay an arrangement of the elements with equivalent ones in order |
| `NetSort.OnePass` | seq/algorithm.hpp:996-1074 | a pass either sorts everything or leaves sorted chunks, all but the last at least 64 times as long as before, without changing what the stable sort of the elements is |
| `NetSort.GenericMergeSort` | seq/algorithm.hpp:996-1083 | the passes end, and leave the stable sort of the elements as the first pass arranges them |
| `NetSort.MergeSortInternal` | seq/algorithm.hpp:1085-1123 | the same for every size, with one attempt for fewer than 128 elements |
| `NetSort.NetSortSize` | seq/algorithm.hpp:1299-1322 | for every size, strict weak order and buffer, the range becomes exactly `NetSorted` of its elements, and nothing outside the range and the buffer changes; it allocates exactly `Allocated` elements |
| `NetSort.BufferSizes` | seq/algorithm.hpp:1126-1161 | the buffers stand for the documented parts of the input size, but the null buffer for as much as the default one |
| `NetSort.AllocatesNothingIff` | seq/algorithm.hpp:1299-1322 | no buffer is allocated if and only if there are fewer than 16 elements or the caller provides one |
| `NetSort.NullBufferAllocates` | seq/algorithm.hpp:1149-1161 | with the null buffer as much is allocated as with the default one: half the elements, and at least 16 |
| `NetSort.NetSorts` | seq/algorithm.hpp:1277-1322 | that is the elements in order; and the stable sort, without random access or for fewer than 16 elements |
| `NetSort.SortedStays` | seq/algorithm.hpp:921-994 | a range in order is left as it is |
| `Stability.NetStableIff` | docs/algorithm.md:18 | the sort is stable on all inputs of a length, for all orders, if and only if the iterators have no random access or the length is below 16 |
| `Stability.WitnessUnstable` | seq/algorithm.hpp:838-867 | an input of every length from 16 on that random access sorts without keeping equivalent elements in order |
| `SharedSpinner.StepKeepsInv` | seq/lock.hpp:111-196 | every atomic step of any thread keeps: the part of the word above the two bits is the number of readers counted in, modulo its capacity; the write bit is set exactly while one thread holds the lock for writing; need_lock only while some thread waits; one byte never counts more than 32 readers |
| `SharedSpinner.StepKeepsExclusive` | seq/lock.hpp:120-193 | with no more threads than the word can count, and always for one byte, no step lets a writer in beside a reader or another writer, or a reader beside a writer |
| `SharedSpinner.RunsKeepInv` | seq/lock.hpp:111-196 | both hold after every run, of any length and any interleaving |
| `SharedSpinner.ExclusiveIff` | seq/lock.hpp:176-193 | writers exclude readers and writers in every reachable state if and only if the word is one byte or there are at most 2^(bits-2) threads |
| `SharedSpinner.InvImpliesAsserts` | seq/lock.hpp:152-166 | with fewer threads than that, the debug assertions hold and the word counts the readers exactly |
| `SharedSpinner.AssertsIff` | seq/lock.hpp:152-166 | the debug assertions never fire, and the reader count never overflows, if and only if the word is one byte or there are fewer than 2^(bits-2) threads |
| `SharedSpinner.NoNewReader` | seq/lock.hpp:176-193 | while need_lock or the write bit is set, no step makes a thread a holding reader |
| `SharedSpinner.NoPhantomWriter` | seq/lock.hpp:120-133 | in every reachable state with need_lock set, some thread is inside lock() without the lock |
| `SharedSpinner.LockSucceedsAlone` | seq/lock.hpp:120-150 | from every reachable state without holders and counted readers, a thread inside lock() that runs alone has the lock within three atomic steps |
| `SharedSpinner.Spinner.TakeStep` | seq/lock.hpp:120-193 | the operations on the atomic field are the steps of the transition system |
| `SpinnerCalls.WordSize` | seq/lock.hpp:111-118 | the word has the bits of its type, all but two of which count readers |
| `SpinnerCalls.TryLockSharedAlone` | seq/lock.hpp:176-193 | from every reachable state, running alone, gets in exactly if there is no writer, no request and, for one byte, the high bit is clear; the word then counts one reader more; otherwise nothing changes |
| `SpinnerCalls.LockSharedAlone` | seq/lock.hpp:157-161 | gets in under the same condition, and otherwise looks again |
| `SpinnerCalls.TryLockAlone` | seq/lock.hpp:168-174 | acquires exactly a word that is 0, and otherwise changes nothing |
| `SpinnerCalls.LockAlone` | seq/lock.hpp:120-151 | acquires a word that is 0; otherwise the request is in the word after at most three steps, and the thread waits inside |
| `SpinnerCalls.UnlockAlone` | seq/lock.hpp:152-156 | takes away the writer and every request, and no reader |
| `SpinnerCalls.UnlockSharedAlone` | seq/lock.hpp:162-166 | takes away one reader, and neither writer nor request |
| `SpinnerCalls.FailureAsks` | seq/lock.hpp:120-133 | a thread inside lock() that fails stays inside, and the request is in the word after this step or its next one |
| `SpinnerCalls.WritersPreferred` | seq/lock.hpp:120-193 | over every run: from the step in which a thread has asked in vain until some thread acquires for writing or gives the lock back, the request stays in the word and no thread becomes a reader |
| `Bits.Umul128Correct` | seq/bits.hpp:634-647 | the two words are the 128-bit product of any two 64-bit numbers, and no intermediate sum reaches 2^64 |
| `Bits.CountDigitsCounts` | seq/bits.hpp:982-1043 | for every unsigned width, the decision tree counts the decimal digits of every value, zero having one |
| `Digits.ValueOfDigits` | seq/charconv.hpp:1154-1159 | the digits of a number denote it, in every base |
| `Printing.CharRange.AddSize` | seq/charconv.hpp:272-277 | claims characters, and fails exactly if they do not fit |
| `Printing.TablePair` | seq/charconv.hpp:1184-1190 | the table has the characters of every pair of digits, last one first |
| `Printing.WriteDigits` | seq/charconv.hpp:1154-1159 | fills the scratch space from its end with exactly the digits of the number, within bounds for every base |
| `Printing.WriteIntegerGeneric` | seq/charconv.hpp:1104-1182 | for every width, writes exactly the text of the value, with zeros up to the size of the scratch space, in the range if it fits there, and otherwise fails and writes nothing; exactly where a mark has no room in the scratch space, it stops |
| `Printing.CompleteIff` | seq/charconv.hpp:1160-1165 | the zeros are complete exactly for zero and for widths up to that of the scratch space |
| `Printing.FitsScratchIff` | seq/charconv.hpp:1138-1172 | everything has room in the scratch space exactly if the text, with a width cut to 65, has at most 65 characters |
| `Printing.NarrowFits` | seq/charconv.hpp:1138-1172 | up to a width of 62, every value of every type has room in every base |
| `Printing.WideDoesNotFit` | seq/charconv.hpp:1160-1172 | from a width of 63 on, a negative number with a prefix has no room |
| `Printing.WriteDecimal` | seq/charconv.hpp:1239-1254 | two digits at a time from the end, writes exactly the decimal digits |
| `Printing.WriteIntegral` | seq/charconv.hpp:1192-1263 | for every integer type, value, base and format: the text of the value if it fits, and otherwise failure and nothing written; in bases other than 10, as far as the scratch space goes |
| `Numerals.TextIff` | seq/charconv.hpp:1104-1263 | the text of a number is the one made of a minus sign, 0x, and a numeral of its absolute value, with letters in the case asked for, as wide as asked for, and no zeros in front beyond that; every base and format |
| `Parsing.WrapMulAdd` | seq/charconv.hpp:618-622 | wrapping around after each digit is the same as wrapping once |
| `Parsing.NextNonSpace` | seq/charconv.hpp:560-565 | stops at the first character that is not a space, or at the end |
| `Parsing.ReadDecimalDigits` | seq/charconv.hpp:525-532 | reads exactly the run of digits and leaves the cursor behind it, wherever the input ends |
| `Parsing.ReadIntegralBase10` | seq/charconv.hpp:485-541 | value, cursor and error state are those of the grammar: spaces, sign, digits |
| `Parsing.ReadIntegral` | seq/charconv.hpp:543-634 | the same for every base, with the optional prefix of base 16, and the early exits for a single digit |
| `Parsing.ReadInt64` | seq/charconv.hpp:638-695 | on 1 to 18 digits, their value with the cursor behind them, for odd and even lengths and wherever the input ends; -1 exactly for more digits, an error exactly for none |
| `Parsing.ReadPairs` | seq/charconv.hpp:663-672 | the pairs read denote the digits read, and no product wraps around |
| `Reading.ParseMeans` | seq/charconv.hpp:485-634 | what is read, on every text whatsoever and in every base: blanks, sign, prefix, the digits taken, the value modulo the size of the type, the cursor, and each error |
| `Reading.LayoutExists` | seq/charconv.hpp:485-634 | every text falls apart into blanks, sign and digits in this way |
| `Reading.StoredOnce` | seq/charconv.hpp:367-392 | a number that the type holds is returned as it is |
| `Reading.SpacedRoundTripIff` | seq/charconv.hpp:500-522 | any blanks and, for a number that is not negative, a plus sign in front of printed text change nothing but where it begins |
| `Reading.Int64Digits` | seq/charconv.hpp:638-695 | read_int64 reads the number that the digits stand for, character by character |
| `RoundTrip.RoundTripIff` | seq/charconv.hpp:485-634 | reading what was printed, at any place of any text, returns the value and stops behind it if and only if what follows delimits it; any type, value, base, letter case, prefix and padding |
| `RoundTrip.LoneDigit` | seq/charconv.hpp:608-612 | a single digit at the end of the input, in a base other than 10, is returned but not consumed, with an error |
| `Storage.CopyDestroyInput` | seq/devector.hpp:142-174 | elements go to other storage, or another place, that is empty there; relocatable ones by their bytes, which stay where they were, others are constructed once each and the old objects destroyed |
| `Storage.MoveLeft` | seq/devector.hpp:201-220 | with overlap to the left: new cells are constructed once, living ones assigned, vacated ones destroyed once |
| `Storage.MoveRight` | seq/devector.hpp:229-248 | the same with overlap to the right |
| `Storage.MoveDestroyInput` | seq/devector.hpp:186-258 | in every position of the destination the elements end up there, and nowhere else an object is left |
| `Storage.CloseFromLeft` | seq/devector.hpp:1005-1016 | moving the first elements over a hole, or destroying the hole and copying their bytes over it, erases exactly the hole |
| `Storage.CloseFromRight` | seq/devector.hpp:1018-1028 | the same with the last elements |
| `Devectors.Devector.GrowCapacity` | seq/devector.hpp:176-184 | always more than before, and at least 2 |
| `Devectors.Devector.Reserve` | seq/devector.hpp:289-316 | at least the capacity asked for, the same elements and the same room in front |
| `Devectors.Devector.ReserveBack` | seq/devector.hpp:318-350 | at least the room asked for behind the elements, which stay the same |
| `Devectors.Devector.ReserveFront` | seq/devector.hpp:352-385 | at least the room asked for in front of the elements, which stay the same |
| `Devectors.Devector.ShrinkToFit` | seq/devector.hpp:266-287 | no room left, the same elements |
| `Devectors.Devector.Resize` | seq/devector.hpp:387-446 | cuts elements off at the back, or appends copies of the value; no storage is lost |
| `Devectors.Devector.ResizeFront` | seq/devector.hpp:448-502 | cuts elements off at the front, or puts copies of the value there; it loses one block exactly if it takes new storage and had some |
| `Devectors.Devector.GrowBack` | seq/devector.hpp:503-557 | afterwards a new object is behind the elements, with room for it; it fails exactly if the argument is an element of the vector, the elements slide and they are not relocatable |
| `Devectors.Devector.GrowFront` | seq/devector.hpp:558-612 | the same in front of the elements |
| `Devectors.Devector.EmplaceBack` | seq/devector.hpp:788-797 | appends the value meant; fails exactly in that case |
| `Devectors.Devector.EmplaceFront` | seq/devector.hpp:823-832 | puts the value meant in front; fails exactly in that case |
| `Devectors.Devector.PopBack` | seq/devector.hpp:978-982 | takes the last element away |
| `Devectors.Devector.PopFront` | seq/devector.hpp:985-989 | takes the first element away |
| `Devectors.Devector.Emplace` | seq/devector.hpp:842-864 | inserts the value meant at the position, moving the shorter side; in the first half of the elements an argument of the vector's own is always safe |
| `Devectors.Devector.InsertRange` | seq/devector.hpp:884-928 | inserts the elements in order at the position, from either end |
| `Devectors.Devector.EraseRange` | seq/devector.hpp:996-1032 | erases exactly the range, in place |
| `Devectors.OwnElementLost` | seq/devector.hpp:514-523 | a vector of elements that are not relocatable whose push_back of an element of its own reads a destroyed object |
| `Devectors.OwnElementKept` | seq/devector.hpp:150-151 | the same call with relocatable elements appends the element |
| `Devectors.StorageLost` | seq/devector.hpp:489-493 | a vector whose resize_front loses a block |
| `BinarySearch.LowerBound` | seq/internal/binary_search.hpp:36-114 | every variant finds the one place where the elements below the value end, and tells a match where it compares three ways |
| `BinarySearch.ArithmeticSearch` | seq/internal/binary_search.hpp:41-59 | the branchless halving, twice a turn, keeps the bound within what is left |
| `BinarySearch.SingleSearch` | seq/internal/binary_search.hpp:83-98 | stopping at a match finds the same place, if no two elements match |
| `BinarySearch.BoundUnique` | seq/internal/binary_search.hpp:36-114 | there is but one such place |
| `TieredVectors.Halves` | seq/tiered_vector.hpp:541-563 | the elements of a circular bucket are those up to the end of the buffer, then those at its beginning, for any rotation |
| `TieredVectors.HalfSearched` | seq/flat_map.hpp:282-295 | the bound in the half that the last slot of the buffer tells is the bound in the bucket |
| `TieredVectors.SearchBucket` | seq/flat_map.hpp:276-295 | searching one half of a bucket finds its bound, for any rotation |
| `TieredVectors.BoundInPart` | seq/flat_map.hpp:238-242 | if the bucket is found by the last elements of the buckets, the bound in it is the bound in all |
| `TieredVectors.TieredVector.LowerBound` | seq/flat_map.hpp:223-299 | the two-level search finds the bound in the sequence of all elements, whatever the rotations and the size of the first bucket, and however many elements either level leaves to a linear search |
| `TieredVectors.TieredVector.At` | seq/tiered_vector.hpp:1803-1819 | element access finds the element of the sequence |
| `SortedSets.LookupAfterInsert` | seq/flat_map.hpp:661-689 | in the map of keys, inserting a new key adds it and changes no other |
| `SortedSets.LookupAfterErase` | seq/flat_map.hpp:800-818 | erasing a key takes it out and changes no other |
| `SortedSets.UniqueStrict` | seq/flat_map.hpp:772-776 | taking out repeated keys leaves keys strictly increasing |
| `SortedSets.UniqueLookup` | seq/flat_map.hpp:772-776 | and keeps of every key the first element |
| `SortedSets.LookupInMerge` | seq/flat_map.hpp:769-770 | in a stable merge the keys of the first range win |
| `FlatTrees.FlatTree.LowerBound` | seq/flat_map.hpp:223-299 | the place of the first element whose key is not less |
| `FlatTrees.FlatTree.UpperBound` | seq/flat_map.hpp:301-307 | the search with the negated comparator finds the place of the first greater key |
| `FlatTrees.FlatTree.BinarySearch` | seq/flat_map.hpp:309-327 | the first place of the key, or the size exactly if the key is not there |
| `FlatTrees.FlatTree.EmplacePosMulti` | seq/flat_map.hpp:661-667 | inserts behind all elements with an equivalent key |
| `FlatTrees.FlatTree.EmplacePos` | seq/flat_map.hpp:668-689 | inserts at the right place exactly if the key is new or keys may repeat; otherwise changes nothing and returns the place of the key |
| `FlatTrees.FlatTree.EmplacePosHint` | seq/flat_map.hpp:701-723 | does the same for every hint |
| `FlatTrees.EmplacedMeans` | seq/flat_map.hpp:661-723 | as a map: one key more if it was not there, and no other changed |
| `FlatTrees.FlatTree.Assign` | seq/flat_map.hpp:508-548 | the contents are the elements as `net_sort` leaves them, rid of repeated keys if these may not be, although sorting and dropping are skipped where comparisons of neighbours allow |
| `FlatTrees.FlatTree.InsertRange` | seq/flat_map.hpp:736-778 | the contents are the stable merge of those before and the new elements as `net_sort` leaves them, rid of repeated keys if these may not be |
| `FlatTrees.MergedMeans` | seq/flat_map.hpp:736-778 | as a map: the keys of both, and where both have one the element already present; as a multimap nothing is lost and elements already present come first |
| `FlatTrees.RangeStableIff` | docs/flat_set.md:36 | with repeated keys, inserting a range is stable, whatever the elements, if and only if it has fewer than 16 |
| `FlatTrees.FirstKeptIff` | docs/flat_set.md:30-36 | with unique keys, the element present or else the first new one of each key is kept, whatever the elements, if and only if there are fewer than 16 |
| `FlatTrees.FlatTree.EraseKey` | seq/flat_map.hpp:800-818 | takes out exactly the elements with an equivalent key, and counts them |
| `FlatTreeRuns.StepMeans` | seq/flat_map.hpp:661-818 | every operation keeps the keys in order, and changes the elements of each key as it says, with or without repeated keys |
| `FlatTreeRuns.RunsKeepMap` | seq/flat_map.hpp:661-818 | after every run of emplacing, hinted or not, inserting ranges and erasing keys, the keys are in order and each key has exactly the elements the operations on it leave: a map, or a multimap whose classes grow at the end |
| `UniqueMerge.UnionMeans` | seq/flat_map.hpp:329-406 | the output is sorted and has the keys of both ranges, of which the elements of the first come first; what remains are the elements of the second range equal to one of the first; nothing is lost |
| `UniqueMerge.UnionStrictIff` | seq/flat_map.hpp:359-365 | no key is repeated in the output if and only if no two equivalent elements of the two ranges differ under == |
| `UniqueMerge.RepeatedKey` | seq/flat_map.hpp:918-925 | two sets whose merge has a key twice |
| `UniqueMerge.DrainSecond` | seq/flat_map.hpp:352-356 | takes the elements of the second range below the next of the first, all of which are kept, and new unless equality holds of elements that the order tells apart |
| `UniqueMerge.SkipEquals` | seq/flat_map.hpp:359-365 | takes an equal element of the second range to what remains, before the next of the first is written |
| `UniqueMerge.DrainFirst` | seq/flat_map.hpp:370-374 | takes the keys of the first range below the next of the second |
| `UniqueMerge.UniqueMergeMove` | seq/flat_map.hpp:336-406 | ends, whatever equality is: the output is the merge of the first range and what is kept of the second, the remainder is what is dropped, each equal to an element of the first; unless equality holds of elements that the order tells apart, exactly the elements that the first range has are dropped; alone where the containers are resized, and behind what they held where they are appended to |
| `UniqueMerge.SplitMeans` | seq/flat_map.hpp:329-335 | whatever equality is, the output is sorted, nothing is lost, and where the first range has a key its element comes first |
| `NodeChains.PullShape` | benchs/flat_hash_map.hpp:355-410 | pulling elements forward through a chain keeps every node but the last full and every dense node non-empty |
| `NodeChains.PullFront` | benchs/flat_hash_map.hpp:355-410 | and changes nothing in front of the erased element |
| `NodeChains.PullRest` | benchs/flat_hash_map.hpp:355-410 | and of the elements behind takes none away |
| `NodeChains.PullRemoves` | benchs/flat_hash_map.hpp:355-410 | erasing removes exactly the element at the position |
| `NodeChains.SweepAt` | benchs/flat_hash_map.hpp:654-674 | one turn of the backward sweep: the elements behind are those rejected of the ones visited, and those in front are as they were |
| `NodeChains.KeptMeans` | benchs/flat_hash_map.hpp:654-674 | sweeping keeps every occurrence of the elements that the predicate rejects, and of no others |
| `HashBuckets.MoveFromRight` | benchs/flat_hash_map.hpp:360-366 | the hole is filled, with its tiny hash, by the last element of the next node, which leaves a hole there |
| `HashBuckets.CloseHole` | benchs/flat_hash_map.hpp:367-374 | elements and tiny hashes behind the hole move up together and the last object is destroyed |
| `HashBuckets.PullElements` | benchs/flat_hash_map.hpp:359-366 | the loop through the chain ends at the last node, with all others as they should be |
| `HashBuckets.Unlink` | benchs/flat_hash_map.hpp:383-387 | taking the last node away leaves the others linked both ways |
| `HashBuckets.Chain.EraseFromDense` | benchs/flat_hash_map.hpp:355-388 | erases that position of a dense node, keeping links, shape and tiny hashes |
| `HashBuckets.Chain.EraseFromBucket` | benchs/flat_hash_map.hpp:389-410 | the same for the main node |
| `HashBuckets.Chain.SweepNode` | benchs/flat_hash_map.hpp:655-664 | the sweep over one node visits each of its elements once |
| `HashBuckets.Chain.EraseIf` | benchs/flat_hash_map.hpp:645-674 | calls the predicate exactly once for every element, leaves exactly those it rejects and counts the others |
| `HashBuckets.Chain.FindInNode` | seq/internal/concurrent_hash_table.hpp:348-394 | comparing keys only where tiny hashes agree finds the key if it is there |
| `HashBuckets.Chain.EraseKey` | benchs/flat_hash_map.hpp:598-625 | erases one element with the key, if there is one that the functor accepts, and otherwise nothing |
| `HashBuckets.Chain.EraseKeyDense` | benchs/flat_hash_map.hpp:577-594 | the same in the dense nodes |
| `HashBuckets.Chain.Insert` | seq/internal/concurrent_hash_table.hpp:595-614 | adds the element behind all others exactly if its key is not there, keeping links, shape and tiny hashes |
| `HashBuckets.Chain.InsertDense` | seq/internal/concurrent_hash_table.hpp:573-592 | the same in the dense nodes |
| `HashBuckets.Chain.AppendNode` | seq/internal/concurrent_hash_table.hpp:545-570 | adds a node with the element behind a full last node |
| `HashTables.FlatHashTable.WithBuckets` | benchs/flat_hash_map.hpp:136-149 | a table of empty buckets that share no node |
| `HashTables.FlatHashTable.Insert` | benchs/flat_hash_map.hpp:310-330 | adds the element exactly if its key is nowhere in the table, and no other change; the size stays right, and buckets still share no node |
| `HashTables.FlatHashTable.EraseKey` | benchs/flat_hash_map.hpp:598-625 | the bucket that the hash tells is the only one that can have the key, so this erases the key from the table; the size stays right |
| `HashTables.FlatHashTable.EraseIf` | benchs/flat_hash_map.hpp:633-679 | over all buckets, every element is visited exactly once, exactly the rejected ones stay, the result counts the others and the size stays right |
| `HashTables.SweptBoth` | benchs/flat_hash_map.hpp:633-679 | sweeping two parts one after another is sweeping both |

## Left out

- Exceptions and the rollback paths of every component, allocators, and comparators or predicates that throw or have
  side effects.
- Iterators are positions in an array; the differences between iterator categories are kept where the code branches on
  them, but node-based iterators (`IterWrapper`) are not modelled. Sorted elements keep their values when moved from, so
  for the sort a moved-from object is not told from a live one.
- Relocatable types that own something (`is_relocatable` holds for `std::shared_ptr`): relocatable values are plain, so
  that copied bytes may be read and assigned to. The sort's own byte-wise exchanges do the same as exchanges of values.
- Devectors.Devector.EraseRange: copies bytes for relocatable elements; the source asks for moves that do not throw as
  well, which those of plain values do not.
- Devectors.Devector.Emplace: likewise.
- The overload of `inplace_merge` over an array of iterators, and `inplace_merge` with a buffer it allocates: they only
  choose a buffer size for `MergeSortedRuns` and `InplaceMerge`.
- `seq::unique` of `seq/algorithm.hpp`, `reverse_descending` (a call of `ReverseSort`) and the concurrent map.
- Memory orders, `yield`, the timed locks, `spinlock` and the non-blocking queries of `seq/lock.hpp`: atomic operations
  are sequentially consistent single steps.
- Floating-point conversion, `bool`, other streams than the one over a character range, and string output ranges.
- Printing.WriteIntegerGeneric: where a mark has no room in the scratch space, the operation stops; what a write in front
  of it does is not modelled. The source negates in the signed type (`negate_if_signed`, seq/type_traits.hpp:96-103), which
  overflows for the minimum of a 32- or 64-bit type, undefined in C++; the model takes the value that two's complement
  gives.
- Printing.WriteIntegral: likewise, in both.
- Parsing.ReadIntegral: signed overflow, undefined in C++, wraps around in two's complement; characters have signed
  codes and none has the code -1, which the stream cannot tell from the end of the input.
- `tiered_vector`: its own insertion, erasure and bucket balancing. `TieredVector.Store` lays elements out in one
  admissible way; the search is proved for every admissible layout.
- TieredVectors.TieredVector.Emplace: rebuilds the buckets from the sequence instead of moving elements between them.
- TieredVectors.TieredVector.Erase: likewise.
- Elements of a flat tree stand for their keys; key extraction, mapped values and transparent comparison are left out, as
  are `equal_range` of a container without repeated keys, range insertion through iterators without random access and the
  unstable bucket sort of the manager.
- FlatTrees.FlatTree.InsertRange: the standard library's `inplace_merge` and `unique` are taken as the stable merge and
  as keeping the first element of each class.
- The devector's swap, assignment and comparison operators.
- Devectors.Devector.EmplaceBack: an argument is a value of the caller's or a const reference to an element of the vector;
  what a read of a destroyed object yields is not modelled, the operation stops there.
- UniqueMerge.UniqueMergeMove: for an equality that holds of elements the order tells apart, which of the elements equal
  to one of the first range are dropped is left open.
- HashTables.FlatHashTable.Insert: the rehash before an insertion, which makes the buckets, and the functor called on an
  element already present.
- The hash table's rehash, load factor, node free list, vectorised scan of tiny hashes (a loop here) and
  `erase_full_bucket` after an exception.
- Performance and amortised complexity.

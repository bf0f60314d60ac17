# A verified model of the CoreFoundation containers, big numbers and two C-library routines

This project models the stateful cores of the repository in Dafny and proves, for every
input and every run, that each branchy in-place implementation agrees with a simple
mathematical object.

* **CFBasicHash** (`HashSlots`, `HashSizes`, `BasicHash`, `BasicHashOps`, `HashRuns`,
  `HashIndex`, `HashIndexOps`, `HashEnumeration`). The open-addressed table behind sets,
  dictionaries and bags: three stores of words with sentinel-encoded slots, tombstones with
  a 16-bit counter, counts whose width grows from 8 to 64 bits, and rehashes that grow,
  shrink or purge. Every run of the public operations, of any length and on every kind of
  table, equals the same run on a plain dictionary and a plain multiset; the renumbering
  index refines insertion into and deletion from a sequence.
* **CFArray** (`Memory`, `Bits`, `CFArray`, `ArrayOrder`). The gap-moving deque: all five
  repositioning outcomes implement one splice, with every overlapping move spelled out
  through `memmove`, and the retain/release trace balances the contents. The exchange sort
  is stable; the power-of-two search returns the lower bound.
* **CFBigNumber** (`BigNum`, `Wrapping`, `BigNumWidths`, `BigNumText`). Signed base-10^9
  arithmetic: the exact value equations, exactly when a result is canonical, order, the
  narrowing ladder under two's-complement wrap-around, and printing and parsing as inverses.
* **CFBinaryHeap** (`Bits`, `BinaryHeap`). Hole-based sifting; every run of adds and
  removals is a run of a priority queue that is only a bag.
* **CFApplicationPreferences** (`Preferences`, `PreferencesOrder`, `PreferencesRemoval`). The
  cached merge of a prioritised search list, exactly when suites end up in the documented
  order, and how far the removal of a domain gets.
* **minlibc** (`Memory`, `Strtok`). `memmove`, `memset` and `strtok`.

State that the source changes in place is a class with mutable fields or an array, and its
methods are proved against functions of the old state; the laws about those functions are
lemmas.

Three behaviours differ from what the surrounding names and comments suggest. The model keeps
the code's behaviour and says exactly when the expected property holds:

* `_CFBigNumAdd` carries only when a column exceeds 10^9, so a column of exactly 10^9 is
  stored as one digit; and opposite signs that cancel keep the first operand's sign.
  `BigNum.Add` states that the result is canonical exactly when `SumIsCanonical` holds, a
  condition on the operands.
* `_CFApplicationPreferencesRemoveDomain` subtracts an absolute index from a relative
  length (line 669), so its window shrinks too fast from the third occurrence on.
  `PreferencesRemoval.RemoveDomain` states how many occurrences go, and that all go exactly
  when `Swept` holds; `ThirdStays` is a list on which one stays.
* `_CFApplicationPreferencesAddSuitePreferences` looks for its two places by domains that
  need not exist. `PreferencesOrder.SuiteOrder` states that adding a new suite to the
  documented order gives the documented order exactly when `Placed` holds, a condition on
  which domains exist: for this user, the application's any-host domain is there, or its
  this-host domain is not; for any user, the application's any-host domain is there, or its
  this-host domain is not while a global domain is, or nothing follows. A half of the suite
  that does not exist is always placed right. `SuitesOrder` extends this to every sequence
  of suites, and `SuiteOrderCanFail` shows standard lists on which each half goes wrong.

## Model

| member | source | states |
|---|---|---|
| BasicHash.EncodingRoundTrips | Frameworks/CoreFoundation/CFBasicHash.c:492-514 | storing a word and reading it back gives the word, for every word but the two reserved ones, and no stored word looks free |
| BasicHash.UpCell | Frameworks/CoreFoundation/CFBasicHash.c:1429-1438 | renumbering the stored word renumbers the value it stands for, also when that value is 0 and stored as a sentinel |
| BasicHash.DownCell | Frameworks/CoreFoundation/CFBasicHash.c:1451-1463 | the same downwards, also when the new value is 0 |
| BasicHash.Table.constructor | Frameworks/CoreFoundation/CFBasicHash.c:1583-1654 | a new table is valid and empty |
| BasicHash.Table.SetValue | Frameworks/CoreFoundation/CFBasicHash.c:499-514 | one bucket changes, and the old value is released exactly when it was occupied, managed and not to be ignored |
| BasicHash.Table.SetKey | Frameworks/CoreFoundation/CFBasicHash.c:530-546 | the same for keys |
| BasicHash.Table.BumpCounts | Frameworks/CoreFoundation/CFBasicHash.c:569-626 | widening the count store by one step keeps every count |
| BasicHash.Table.IncSlotCount | Frameworks/CoreFoundation/CFBasicHash.c:628-676 | one count grows by exactly one through any chain of widenings, all others stay, the recursion ends and never has to widen a 64-bit store |
| BasicHash.Table.DecSlotCount | Frameworks/CoreFoundation/CFBasicHash.c:678-686 | one count falls by exactly one, all others stay |
| BasicHash.Table.GetBucket | Frameworks/CoreFoundation/CFBasicHash.c:718-736 | the bucket as the decoded slot has it; a free one has count 0 |
| HashSlots.ProbeProvesAbsence | Frameworks/CoreFoundation/CFBasicHash.c:718-722 | when every entry is reachable from its home bucket without crossing an empty one, a probe that met no match before an empty bucket, or all round, proves that the key is nowhere in the table |
| BasicHash.Table.FindBucket | Frameworks/CoreFoundation/CFBasicHash.c:860-881 | the matching bucket if the key is in the table, else a free bucket an addition may fill, or not found in a full table |
| BasicHash.Table.FindBucketNoCollision | Frameworks/CoreFoundation/CFBasicHash.c:883-902 | with a free bucket left, one that the key's probe path reaches |
| HashSizes.NumBucketsIndexForCapacity | Frameworks/CoreFoundation/CFBasicHash.c:702-708 | the least size index whose capacity suffices |
| HashSizes.TableFits | Frameworks/CoreFoundation/CFBasicHash.c:225-259 | every capacity is at most its number of buckets, and capacities grow strictly |
| BasicHash.Table.RehashIndex | Frameworks/CoreFoundation/CFBasicHash.c:1135-1143 | for every request the tables of sizes can meet, the least sufficient size, one more exactly for a request of 1 with aggressive growth, and no change for a purge |
| BasicHash.Table.MoveEntries | Frameworks/CoreFoundation/CFBasicHash.c:1199-1232 | the moved entries are the old entries, as a multiset with counts, reachable and without tombstones, and none is released |
| HashSlots.MovedPrefix | Frameworks/CoreFoundation/CFBasicHash.c:1199-1232 | the next entry to move is not yet in the new stores, and there is room for it |
| BasicHash.Table.Rehash | Frameworks/CoreFoundation/CFBasicHash.c:1127-1249 | a rehash keeps the entries, clears the tombstones, takes exactly the size the request calls for, keeps the count width and retains and releases nothing |
| HashSlots.SameContents | Frameworks/CoreFoundation/CFBasicHash.c:1127-1249 | two well-probed bucket arrays with the same occupied buckets in any order stand for the same dictionary and bag and miss the same keys |
| HashSlots.InsertEffect | Frameworks/CoreFoundation/CFBasicHash.c:1259-1286 | filling a free bucket on the key's path adds that entry and nothing else, and keeps every other entry reachable |
| HashSlots.RemoveEffect | Frameworks/CoreFoundation/CFBasicHash.c:1300-1313 | a tombstone removes exactly one entry, and keeps every other entry reachable |
| HashSlots.ReplaceEffect | Frameworks/CoreFoundation/CFBasicHash.c:1288-1298 | overwriting an entry by one with an equal key changes that entry only |
| BasicHash.Table.MakeRoom | Frameworks/CoreFoundation/CFBasicHash.c:1261-1266 | afterwards there is capacity for one more, a vacant bucket for the key, the same contents, and a tombstone counter that already discounts the bucket to be filled |
| BasicHash.Table.AddEntry | Frameworks/CoreFoundation/CFBasicHash.c:1259-1286 | entering an absent key adds that entry, through growth or over a tombstone, grows exactly when and as far as needed, retains value and key once, and keeps validity: exact used and tombstone counters, the tombstone quota, and retains less releases equal to occurrences |
| BasicHash.Table.ReplaceEntry | Frameworks/CoreFoundation/CFBasicHash.c:1288-1298 | the entry gets the new key and value, keeps its count; the new ones are retained and the old ones released |
| BasicHash.Table.DropEntry | Frameworks/CoreFoundation/CFBasicHash.c:1300-1313 | the entry is gone and the tombstone counter is the true number of tombstones modulo 2^16 |
| BasicHash.Table.RemoveEntry | Frameworks/CoreFoundation/CFBasicHash.c:1300-1330 | removal releases what the bucket held and keeps validity: the table shrinks to the least size exactly when it is too large, and the tombstone counter is exact in spite of roll-over and below a quarter in tables of 20 buckets or more |
| BasicHash.Table.CountUp | Frameworks/CoreFoundation/CFBasicHash.c:1332-1350 | adding a present key to a counted table raises its count by one |
| BasicHash.Table.CountDown | Frameworks/CoreFoundation/CFBasicHash.c:1378-1391 | removing one of several lowers the count by one |
| BasicHash.Table.ReleaseAll | Frameworks/CoreFoundation/CFBasicHash.c:1062-1125 | every value and key the dropped stores held is released once |
| BasicHash.Table.Drain | Frameworks/CoreFoundation/CFBasicHash.c:1062-1125 | everything is released once and a valid empty table is left |
| BasicHashOps.AddValue | Frameworks/CoreFoundation/CFBasicHash.c:1332-1350 | a new key gets its value and count 1; a present one keeps key and value and gains a count in a counted table; every other entry stays; the result tells whether anything changed; room is needed only for a new key |
| BasicHashOps.SetValue | Frameworks/CoreFoundation/CFBasicHash.c:1364-1376 | in every table the entry has that key and that value, with the old count or 1, and every other entry stays; room is needed only for a new key |
| BasicHashOps.ReplaceValue | Frameworks/CoreFoundation/CFBasicHash.c:1352-1362 | a present key gets the new key and value and keeps its count, an absent one is not added, and every other entry stays |
| BasicHashOps.RemoveValue | Frameworks/CoreFoundation/CFBasicHash.c:1378-1391 | one occurrence goes, the last one with its entry, a sticky count stays, every other entry stays, and the result is the count the key had |
| BasicHashOps.RemoveAllValues | Frameworks/CoreFoundation/CFBasicHash.c:1407-1411 | the table becomes empty, without buckets, and stays valid |
| BasicHashOps.SetCapacity | Frameworks/CoreFoundation/CFBasicHash.c:1251-1257 | the contents stay, and a capacity beyond the entries gives exactly the size it calls for, any other changes nothing |
| BasicHashOps.GetCount | Frameworks/CoreFoundation/CFBasicHash.c:931-941 | the size of the bag as 64-bit arithmetic gives it, hence the size itself below 2^63; in a table without counts the size of the dictionary |
| BasicHashOps.GetCountOfKey | Frameworks/CoreFoundation/CFBasicHash.c:943-951 | the multiplicity of the key in the bag, which is the count of its entry, 0 for a missing or reserved key |
| HashSlots.EntriesSize | Frameworks/CoreFoundation/CFBasicHash.c:931-941 | the number of occupied buckets is the number of distinct keys |
| HashSlots.BagCounts | Frameworks/CoreFoundation/CFBasicHash.c:943-951 | the multiplicity of a key in the bag is the count of its entry |
| HashRuns.DictRefines | Frameworks/CoreFoundation/CFBasicHash.c:1332-1411 | in every table, with counts or without, each operation is the dictionary operation on the stored keys and values |
| HashRuns.BagRefines | Frameworks/CoreFoundation/CFBasicHash.c:1332-1411 | in every table each operation is the multiset operation on keys, a count of LONG_MAX being sticky |
| HashRuns.Run | Frameworks/CoreFoundation/CFBasicHash.c:1127-1411 | every run of add, set, replace, remove, remove-all and set-capacity, of any length and on any table, keeps it valid and equal to the same run on a dictionary of stored keys and values and a multiset of keys, as long as each new key fits beside the entries reached by then |
| BasicHash.Table.RenumberUp | Frameworks/CoreFoundation/CFBasicHash.c:1428-1438 | every value from the position on grows by one, and no bucket moves |
| BasicHash.Table.RenumberDown | Frameworks/CoreFoundation/CFBasicHash.c:1449-1463 | every value after the position falls by one, and the bucket that holds the position is found if there is one |
| HashIndex.RenumberKeeps | Frameworks/CoreFoundation/CFBasicHash.c:1428-1438 | renumbering keeps probe paths, tallies, keys and absences |
| HashIndex.InsertIndex | Frameworks/CoreFoundation/CFBasicHash.c:1413-1443 | renumbering upwards and entering a key at p is insertion at index p of the key sequence |
| HashIndex.DeleteIndex | Frameworks/CoreFoundation/CFBasicHash.c:1445-1465 | renumbering downwards and dropping the key at p is deletion at index p |
| HashIndexOps.PrepareInsert | Frameworks/CoreFoundation/CFBasicHash.c:1423-1427 | the rehash before renumbering keeps the contents, leaves room and finds a vacant bucket |
| HashIndexOps.AddIntValueAndInc | Frameworks/CoreFoundation/CFBasicHash.c:1413-1443 | a table that is the inverse of a sequence of distinct keys becomes the inverse of the sequence with the key inserted: the key at p, the earlier ones where they were, the later ones one up, and no others; a present key changes nothing |
| HashIndexOps.RemoveIntValueAndDec | Frameworks/CoreFoundation/CFBasicHash.c:1445-1465 | it becomes the inverse of the sequence without the key at that index: the earlier ones where they were, the later ones one down, and no others |
| HashIndexOps.PositionHeld | Frameworks/CoreFoundation/CFBasicHash.c:1449-1463 | every position is held by a bucket, and only by the bucket of its key |
| HashEnumeration.FastEnumeration | Frameworks/CoreFoundation/CFBasicHash.c:1035-1052 | a batch is the keys of the buckets it passed, in order; a short batch means there are no more |
| HashEnumeration.EnumerateAll | Frameworks/CoreFoundation/CFBasicHash.c:1035-1052 | batches of any positive sizes, up to the first empty one, list keys that come from strictly ascending occupied buckets, and no occupied bucket is left out |
| HashEnumeration.ListedOnce | Frameworks/CoreFoundation/CFBasicHash.c:1035-1052 | what reading the buckets from front to back means in terms of bucket positions |
| HashEnumeration.KeysAreUsed | Frameworks/CoreFoundation/CFBasicHash.c:1035-1052 | the listed keys are as many as the used buckets and are the multiset of their keys |
| HashEnumeration.GetElements | Frameworks/CoreFoundation/CFBasicHash.c:1019-1033 | as many elements as there are or as the buffer holds, from occupied buckets in order, each key beside the value of its entry, and with enough room from each bucket as often as it counts |
| HashEnumeration.PlacesCount | Frameworks/CoreFoundation/CFBasicHash.c:1019-1033 | each bucket is read exactly as often as it counts |
| HashEnumeration.CopiesAreBag | Frameworks/CoreFoundation/CFBasicHash.c:1019-1033 | the keys so listed occur as often as in the bag |
| Memory.Memmove | minlibc/libc.c:406-420 | each cell of the destination range receives what the matching source cell held at the start, whatever the overlap and whichever way unrelated pointers compare; the rest stays |
| Memory.AscendingCorrectIff | minlibc/libc.c:411-417 | copying upwards is right for all contents exactly when the destination does not begin inside the source, which is why the direction is chosen |
| Memory.Memset | minlibc/libc.c:378-384 | the range is filled and the rest stays |
| Bits.RoundUpBounds | Frameworks/CoreFoundation/CFArray.c:46-49 | a rounded capacity is 4 below 4, and from there the power of two that is greater than what was asked for and at most twice as large |
| CFArray.MutableArray.constructor | Frameworks/CoreFoundation/CFArray.c:365-418 | a new mutable array is empty, without a store |
| CFArray.MutableArray.Reallocate | Frameworks/CoreFoundation/CFArray.c:797-816 | regions A and C reappear in a larger store with the wanted gap between them |
| CFArray.MutableArray.MoveC | Frameworks/CoreFoundation/CFArray.c:819-826 | the same in place by moving C |
| CFArray.MutableArray.MoveA | Frameworks/CoreFoundation/CFArray.c:827-835 | the same in place by moving A |
| CFArray.MutableArray.RecenterLeft | Frameworks/CoreFoundation/CFArray.c:836-851 | the same in place by moving both to the left, A first |
| CFArray.MutableArray.RecenterRight | Frameworks/CoreFoundation/CFArray.c:852-857 | the same in place by moving both to the right, C first |
| CFArray.MutableArray.RepositionDequeRegions | Frameworks/CoreFoundation/CFArray.c:775-859 | whichever of the five outcomes is chosen, A and C are kept and the gap lies inside the capacity; there is a new store of the rounded size exactly when the old one is too small or too full |
| CFArray.MutableArray.RetainValues | Frameworks/CoreFoundation/CFArray.c:934-943 | what the retain callback returned for each new value, in order |
| CFArray.MutableArray.ReleaseValues | Frameworks/CoreFoundation/CFArray.c:197-240 | the values of the range are released in order, and the rest of the contents stays |
| CFArray.MutableArray.ReplaceValues | Frameworks/CoreFoundation/CFArray.c:922-993 | the contents are old[..loc] + new + old[loc + len..]; all new values are retained before any old one is released; retains less releases stay equal to occurrences |
| CFArray.ReplaceBalances | Frameworks/CoreFoundation/CFArray.c:934-958 | retaining the new and releasing the replaced values keeps retains equal to releases plus contents |
| CFArray.MutableArray.SetValueAtIndex | Frameworks/CoreFoundation/CFArray.c:695-720 | what the retain callback returned for the value replaces one value, or is appended when the index is the count |
| CFArray.MutableArray.OverwriteValue | Frameworks/CoreFoundation/CFArray.c:703-717 | one value is replaced; the new one is retained before the old one is released |
| CFArray.MutableArray.ExchangeValuesAtIndices | Frameworks/CoreFoundation/CFArray.c:733-751 | two values change places and nothing is retained or released |
| CFArray.MutableArray.RemoveAllValues | Frameworks/CoreFoundation/CFArray.c:762-772 | the array is empty, its store is gone and every value was released |
| CFArray.MutableArray.SetCapacity | Frameworks/CoreFoundation/CFArray.c:871-907 | the contents survive in a store of the rounded capacity |
| ArrayOrder.ZSort | Frameworks/CoreFoundation/CFArray.c:1006-1018 | in terms of the comparator alone: no later value of the range compares less than an earlier one; a permutation says where each value came from and keeps values that compare equal in their old order; the rest of the array stays |
| ArrayOrder.BubblePass | Frameworks/CoreFoundation/CFArray.c:1009-1016 | one pass brings a greatest value to its final place and keeps the rearrangement stable |
| ArrayOrder.SwapIsStable | Frameworks/CoreFoundation/CFArray.c:1011-1015 | exchanging strictly inverted neighbours keeps every group of ties in order |
| ArrayOrder.BSearchValues | Frameworks/CoreFoundation/CFArray.c:1074-1100 | for every sorted range the comparator is negative for all values before the result and not for any from it on; only indices in the range are read |
| ArrayOrder.Descend | Frameworks/CoreFoundation/CFArray.c:1087-1099 | halving powers of two end between a value that is less and one that is not |
| BigNum.SignedReads | Frameworks/CoreFoundation/CFBigNumber.h:30-40 | the integer a number stands for, written out in its five digits and sign |
| BigNum.AbsoluteLessThan | Frameworks/CoreFoundation/CFBigNumber.c:435-445 | decides whether one magnitude is less than the other |
| BigNum.HighestDecides | Frameworks/CoreFoundation/CFBigNumber.c:420-427 | the highest digit that differs decides the order of the values |
| BigNum.Compare | Frameworks/CoreFoundation/CFBigNumber.c:416-431 | on canonical numbers less, equal and greater exactly as the integers are |
| BigNum.AddMagnitudes | Frameworks/CoreFoundation/CFBigNumber.c:468-480 | the digits and the carry times 10^45 are the sum, the carries differ from school carries exactly after a column of 10^9, also when the result is an operand |
| BigNum.SubtractMagnitudes | Frameworks/CoreFoundation/CFBigNumber.c:492-507 | the digits are in range, spell the difference and the last borrow is 0, also when the result is an operand |
| BigNum.Add | Frameworks/CoreFoundation/CFBigNumber.c:465-509 | the signed sum equals the result plus the signed carry times 10^45, opposite signs never carry, and the result is canonical exactly when no column sums to 10^9 and no negative number is cancelled |
| BigNum.SumNotAlwaysCanonical | Frameworks/CoreFoundation/CFBigNumber.c:471-506 | operands for each of the two ways to leave the canonical form |
| BigNum.Neg | Frameworks/CoreFoundation/CFBigNumber.c:448-463 | the negated integer with the same digits; canonical exactly when the operand is |
| BigNum.Sub | Frameworks/CoreFoundation/CFBigNumber.c:511-515 | the same equation, carry 0 when the first operand and the negated second differ in sign, and the same exact condition for the difference |
| BigNumWidths.MagnitudeIsAbsolute | Frameworks/CoreFoundation/CFBigNumber.c:110-158 | negating under wrap-around and reading unsigned gives the absolute value, for the most negative one as well |
| BigNumWidths.InitWithInt32 | Frameworks/CoreFoundation/CFBigNumber.c:110-120 | a canonical number with that value, for every 32-bit value |
| BigNumWidths.InitWithInt64 | Frameworks/CoreFoundation/CFBigNumber.c:122-136 | the same for 64 bits |
| BigNumWidths.InitWithInt128 | Frameworks/CoreFoundation/CFBigNumber.c:138-158 | the same for 128 bits |
| BigNumWidths.AccumulatedWraps | Frameworks/CoreFoundation/CFBigNumber.c:227-258 | accumulating digits with wrap-around at every step is the wrapped value |
| BigNumWidths.GetIntWraps | Frameworks/CoreFoundation/CFBigNumber.c:227-258 | the extracted integer is the wrapped value, hence the value itself when it fits |
| BigNumWidths.CreateWithBigNum | Frameworks/CoreFoundation/CFBigNumber.c:366-414 | NULL exactly outside 128 bits; otherwise the value is the input and the width is the narrowest of 8, 16, 32, 64 and 128 that holds it, one up for the most negative 8- and 16-bit values |
| BigNumText.AllNinesValue | Frameworks/CoreFoundation/CFBigNumber.c:526-527 | five groups of nine digits spell the value |
| BigNumText.ToCString | Frameworks/CoreFoundation/CFBigNumber.c:518-538 | the buffer holds, as a C string, a minus sign, or a plus sign if asked for, and the digits: up to the terminator with leading zeros, without zeros to drop otherwise |
| BigNumText.DigitsWorth | Frameworks/CoreFoundation/CFBigNumber.c:528-537 | what the digits are worth: the value with room for it; else with leading zeros the value less a multiple of a power of ten, without them its leading digits |
| BigNumText.ReadChunks | Frameworks/CoreFoundation/CFBigNumber.c:560-569 | nine characters at a time from the right give digits in range with the value of the text |
| BigNumText.FromCString | Frameworks/CoreFoundation/CFBigNumber.c:540-571 | the value and sign the text spells; canonical except for a minus sign before zeros |
| BigNumText.PrintedSpells | Frameworks/CoreFoundation/CFBigNumber.c:518-571 | what is printed with enough room is text the parser accepts, with the number's value and sign |
| BigNumText.ValueInjective | Frameworks/CoreFoundation/CFBigNumber.c:518-571 | digits in range are determined by their value |
| BigNumText.PrintThenParse | Frameworks/CoreFoundation/CFBigNumber.c:518-571 | parsing what was printed gives back every canonical number, with or without leading zeros or plus sign, whenever the buffer has room |
| BinaryHeap.RootIsMinimum | Frameworks/CoreFoundation/CFBinaryHeap.c:308-312 | heap order puts a minimum at the root |
| BinaryHeap.MinimumMeans | Frameworks/CoreFoundation/CFBinaryHeap.c:386-386 | a minimum is numerically least without a compare callback, and with one no value makes it compare greater |
| BinaryHeap.PointersArePreordered | Frameworks/CoreFoundation/CFBinaryHeap.c:386-386 | without a callback every heap has an order to keep |
| BinaryHeap.GrowDoubles | Frameworks/CoreFoundation/CFBinaryHeap.c:39-42 | rounding up one more than a power of two from 4 on doubles it |
| BinaryHeap.Heap.constructor | Frameworks/CoreFoundation/CFBinaryHeap.c:262-264 | a new heap is valid and empty with capacity 4 |
| BinaryHeap.Heap.Grow | Frameworks/CoreFoundation/CFBinaryHeap.c:355-365 | capacity doubles exactly and the contents stay |
| BinaryHeap.RiseStep | Frameworks/CoreFoundation/CFBinaryHeap.c:384-390 | exchanging the risen value with a greater parent leaves at most the parent's place out of order |
| BinaryHeap.Heap.SiftUp | Frameworks/CoreFoundation/CFBinaryHeap.c:382-395 | heap order holds and the contents gained exactly the value |
| BinaryHeap.Heap.AddValue | Frameworks/CoreFoundation/CFBinaryHeap.c:367-396 | validity, exactly one more occurrence, one retain, and capacity doubled exactly when the heap was full; retains less releases stay equal to occurrences |
| BinaryHeap.SinkStep | Frameworks/CoreFoundation/CFBinaryHeap.c:414-428 | exchanging the sinking value with its lesser child leaves at most that child's children out of order |
| BinaryHeap.Heap.SiftDown | Frameworks/CoreFoundation/CFBinaryHeap.c:413-429 | heap order holds and the root's value was replaced by the given one |
| BinaryHeap.Heap.RemoveMinimumValue | Frameworks/CoreFoundation/CFBinaryHeap.c:398-430 | a minimum, by number or by callback, is gone and released, exactly once, and nothing else; an empty heap stays empty |
| BinaryHeap.Heap.GetMinimum | Frameworks/CoreFoundation/CFBinaryHeap.c:308-312 | a value that is numerically at most every value, or by the callback not greater than any; NULL for an empty heap |
| BinaryHeap.Heap.RemoveAllValues | Frameworks/CoreFoundation/CFBinaryHeap.c:432-442 | every value is released, the heap is empty and keeps its capacity |
| BinaryHeap.CreateCopy | Frameworks/CoreFoundation/CFBinaryHeap.c:266-269 | a separate valid heap with the same multiset, order and callbacks, every value retained once |
| BinaryHeap.GetValues | Frameworks/CoreFoundation/CFBinaryHeap.c:321-337 | a permutation of the contents, ascending by number, or with no value greater by the callback than a later one; the heap itself is not changed |
| BinaryHeap.Run | Frameworks/CoreFoundation/CFBinaryHeap.c:308-430 | every run of adds and removals, of any length, is step by step a run of a bag: an add puts its value in, a removal takes out one that is numerically least, or not greater than any by the callback, or gives NULL |
| Preferences.MergedLooksUp | Frameworks/CoreFoundation/CFApplicationPreferences.c:267-291 | the merged dictionary gives for every key what a search through the list gives |
| Preferences.LookupMeans | Frameworks/CoreFoundation/CFApplicationPreferences.c:313-326 | a search gives the value of the first domain that has the key, and nothing exactly when none has it |
| Preferences.UnsearchedDomain | Frameworks/CoreFoundation/CFApplicationPreferences.c:228-254 | a domain that is not searched does not matter to the merge |
| Preferences.AppPreferences.ComputeDictRep | Frameworks/CoreFoundation/CFApplicationPreferences.c:267-291 | merging from the last domain to the first computes the merged dictionary |
| Preferences.AppPreferences.CreateValueForKey | Frameworks/CoreFoundation/CFApplicationPreferences.c:313-326 | the value of the first domain in the list that has the key, none exactly when no domain has it, cached or not |
| Preferences.AppPreferences.ChangeDomain | Frameworks/CoreFoundation/CFApplicationPreferences.c:228-261 | the cache stays equal to a fresh merge, or goes |
| Preferences.AppPreferences.Set | Frameworks/CoreFoundation/CFApplicationPreferences.c:328-341 | one key of the application's own domain changes and the cache is not stale |
| Preferences.AppPreferences.Remove | Frameworks/CoreFoundation/CFApplicationPreferences.c:343-356 | one key of the application's own domain goes and the cache is not stale |
| Preferences.AppPreferences.SetStandardSearchList | Frameworks/CoreFoundation/CFApplicationPreferences.c:391-435 | the available domains of the documented order without suites |
| PreferencesOrder.OrderAt | Frameworks/CoreFoundation/CFApplicationPreferences.c:392-416 | the documented order place by place: this user before any user, then the application, the suites and any application, then this host before any host |
| Preferences.AppPreferences.AddSuitePreferences | Frameworks/CoreFoundation/CFApplicationPreferences.c:535-596 | the list becomes the one with the suite's domains inserted, and the cache is not stale |
| PreferencesOrder.SuiteOrder | Frameworks/CoreFoundation/CFApplicationPreferences.c:535-596 | adding a new suite to the documented order with any suites gives the documented order with that suite first, if and only if the domains that exist lead both searches to the right place |
| PreferencesOrder.OwnDomainsSuffice | Frameworks/CoreFoundation/CFApplicationPreferences.c:535-596 | the application's two any-host domains are enough, even for a suite that is listed already |
| PreferencesOrder.SuitesOrder | Frameworks/CoreFoundation/CFApplicationPreferences.c:535-596 | any sequence of distinct suites added to the standard list gives the documented order, newest first, if and only if each suite is placed right in its turn |
| PreferencesOrder.NotMended | Frameworks/CoreFoundation/CFApplicationPreferences.c:535-596 | a list that is not in the documented order does not get there by a further suite |
| PreferencesOrder.OwnDomainsOrder | Frameworks/CoreFoundation/CFApplicationPreferences.c:535-596 | with the application's two any-host domains every sequence of suites gives the documented order, repetitions included |
| PreferencesOrder.SuiteOrderCanFail | Frameworks/CoreFoundation/CFApplicationPreferences.c:540-580 | for every application and new suite, a standard list without the application's any-host domain for this user, and one without that for any user, on which the order goes wrong |
| Preferences.AppPreferences.AddDomain | Frameworks/CoreFoundation/CFApplicationPreferences.c:630-639 | the domain becomes first or last, and the cache is not stale |
| PreferencesRemoval.RemoveDomain | Frameworks/CoreFoundation/CFApplicationPreferences.c:660-673 | the occurrences in reach go, in order, up to the first one out of reach; all go if and only if all are in reach, otherwise the domain is still listed; every other domain stays |
| PreferencesRemoval.StopsOnce | Frameworks/CoreFoundation/CFApplicationPreferences.c:666-670 | how many occurrences go is determined by the list |
| PreferencesRemoval.SweptIff | Frameworks/CoreFoundation/CFApplicationPreferences.c:666-670 | stopping at the first occurrence out of reach leaves no occurrence exactly when none is out of reach |
| PreferencesRemoval.TwoAreSwept | Frameworks/CoreFoundation/CFApplicationPreferences.c:666-670 | at most two occurrences are always removed |
| PreferencesRemoval.ThirdStays | Frameworks/CoreFoundation/CFApplicationPreferences.c:669-669 | a list of four on which the third occurrence is left behind |
| PreferencesRemoval.FirstIndexOfValue | Frameworks/CoreFoundation/CFArray.c:658-670 | the first index in the range that holds the value, or not found |
| PreferencesRemoval.RemoveSuitePreferences | Frameworks/CoreFoundation/CFApplicationPreferences.c:606-628 | the list loses exactly the suite's domains if and only if each of the four is in reach when its turn comes |
| PreferencesRemoval.TwoAreSuiteSwept | Frameworks/CoreFoundation/CFApplicationPreferences.c:606-628 | that is so whenever none is listed more than twice |
| PreferencesRemoval.SuiteListedOnce | Frameworks/CoreFoundation/CFApplicationPreferences.c:535-596 | adding a suite that is not listed lists each of its domains at most once |
| PreferencesRemoval.SuiteRoundTrip | Frameworks/CoreFoundation/CFApplicationPreferences.c:535-628 | taking out a suite's domains after adding the suite gives the old list back |
| Strtok.SpansAreRuns | minlibc/libc.c:339-372 | the spans are exactly the maximal delimiter-free runs, in order and apart |
| Strtok.Strchr | minlibc/libc.c:303-313 | the first position of the character, the terminator included, or NULL when it does not occur |
| Strtok.Next | minlibc/libc.c:339-372 | a call returns the next run, terminated in place, or NULL when there is none left, and leaves what is still to be read alone |
| Strtok.TokenizeAll | minlibc/libc.c:339-372 | a first call and then NULL calls return tokens that are delimiter-free, bounded by delimiters or the ends, in order and apart, stand in the buffer as C strings, and cover every character that is not a delimiter; every later NULL call returns NULL |

## Left out

- The probe loops themselves: `CFBasicHashFindBucket.m` is not part of this model. A linear probe of its own meets the contract of lines 718-722; double and exponential probing, indirect keys and the hash cache are not modelled.
- Calls that HALT (a reserved word as key or value, a size beyond the table of sizes) are excluded by preconditions, as the source demands of its callers.
- BasicHash.Table.Rehash: requires the wanted size to be within the tables of sizes; for one more entry aggressive growth steps one past the index found, and past index 44 the tables hold 0.
- HashRuns.Run: under aggressive growth a new key is taken to need room for a growth, although a table that was sized for more beforehand could take it without.
- BasicHash.Table.IncSlotCount: requires a count below LONG_MAX, which its callers at lines 1332-1350 check.
- HashIndexOps.AddIntValueAndInc: for tables without value callbacks, since renumbered integers are neither retained nor released, and with fewer positions than the reserved words.
- HashIndexOps.RemoveIntValueAndDec: for the same tables, and requires the position to exist; without it the source writes to bucket index ~0.
- Hash-table callbacks: retaining returns its argument, a side has both callbacks or none, and the toggle that suppresses reference counting is not modelled.
- Mutation counters, garbage-collection and write-barrier branches, Objective-C dispatch, memory counters, dtrace probes, descriptions and allocators.
- CFBasicHashesAreEqual, CFBasicHashGetCountOfValue, CFBasicHashApply, CFBasicHashRemoveValueAtIndex and CFBasicHashCreateCopy: they would add only easy members.
- CFArray.MutableArray.ReplaceValues: counts stay below 2^30, because of the 32-bit shift in line 48 and the cast in line 795.
- CFArray.MutableArray.SetCapacity: requires the rounded capacity to be no less than the old one, because line 898 copies all old buckets.
- Memory.Memmove: works on cells of any type, where the source copies bytes; both copy whole elements.
- Immutable arrays, array equality, hashing, fast enumeration and the sort path for longer arrays.
- ArrayOrder.BSearchValues: ranges shorter than 2^31.
- BigNum.Compare: canonical operands only; with a negative zero or a digit of 10^9 the digits no longer determine the order.
- BigNum.AbsoluteLessThan: digits in range only, for the same reason.
- BigNumText.ToCString: digits in range, so that every group has nine characters, and a buffer with room for the sign and the terminator.
- BigNumText.FromCString: at most 45 significant characters, all decimal digits; `atol` on longer or other text is not modelled.
- Initialisation from 8- and 16-bit and unsigned integers and from bytes, and the unsigned getters: easy variants of what is modelled.
- BinaryHeap.Heap.AddValue: counts stay below 2^30, and a retain callback is taken to return its argument.
- `__CFBinaryHeapEqual` treats a three-way result as a boolean, so its meaning is unsettled; counting and searching heap values are left out.
- PreferencesOrder.SuiteOrder: the suite is new, and neither it, the application nor the other suites have the name that stands for any application; for suites listed already only the sufficient condition of `OwnDomainsSuffice` is stated.
- Locking, disk synchronisation, the domain store and the coherence of several applications' preferences; a domain is a map, and whether the store can provide it is a parameter. Managed, argument and registration domains are not modelled.
- Strtok.Next: one caller at a time; the static state is an object.
- mindyld, the generated RPC stubs, the HTTP date code, CFBag, CFBase, the C library's allocator and system calls, drivers, stubs and headers.

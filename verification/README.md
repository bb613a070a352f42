# A Dafny model of the header-only data structures

This project models, in Dafny, the algorithms that the repository ships as headers, and proves what
they promise. Code that rewires links, arrays or fields is modelled by methods that do the same
rewiring; each is proved against a specification on values, and lemmas prove what the specification
means.

| files | what they model |
|---|---|
| `MergeSort`, `Lists`, `DoublyLinked`, `Circular` | the bottom-up merge sorts and the doubly linked list edits of utlist |
| `HashElements`, `HashTable`, `HashSort`, `UtHash`, `UtHashModel`, `UtHashGrowth` | uthash: one set of elements in two linked structures, bucket expansion, in-order insertion, sorting; refinement of a plain map |
| `KmpSearch` | utstring search in both directions |
| `Threaded` | the single-producer, single-consumer hand-off cell, step by step |
| `UtArray`, `UtHeap` | the growable array and the binary heap in it |
| `Counters`, `OrderedMap`, `Sampler` | integer logarithm, moving average, compressed histogram |
| `NumberText` | integer parsers and printers |
| `DecNumber` | word arithmetic and coefficient decoding of decNumber, for 34 digits |
| `LazyRemVector` | deferred removal under nested locks |
| `SharedMap` | per-handle caches over one locked table |
| `Bits`, `Facts` | powers of two, masks, shifts; a wrapper that keeps a proved fact in one piece |

Conventions. A linked structure is described by the ghost sequence of its nodes in order, which the
methods take as a parameter or keep in a ghost field. A comparator or a hash is an arbitrary function.
`MergeSort.Sort` is the common specification of the four sorts, so each of them inherits
`MergeSort.SortIsStableSort`. In the hash table the head variable, the table record and the buckets are
one object, `UtHash.Table`; `order` is the application order and `chains` are the bucket chains. In
`Threaded` and `SharedMap` a run is any sequence of enabled atomic steps. The methods of
`Threaded.Cell` are whole calls with arbitrary turns of the other thread between their steps.

## Where the code differs from what one might expect

* The `uint64_t` parser goes through the template for signed types. With a minimum of 0 the range check
  after '-' does not refuse what is too small, so "-5" is 2^64 - 5 (`NumberText.MinusIntoUnsigned` has the
  exact condition). What it does refuse is a zero behind another digit: of "-10" it reads "-1"
  (`NumberText.RefusedUnsigned`, `NumberText.StopsAtZero`).
* A '-' that is followed by something other than a digit is consumed with value 0, but a lone '-' is
  not (`NumberText.BareMinus`).
* The signed printers negate the value in its promoted type: the minimum of the 8 and 16 bit types is
  printed correctly, that of the 32 and 64 bit types overflows (`NumberText.Printable`).
* Erasing from the heap at an index other than 0 only sifts down; `UtHeap.Erase` says exactly when the
  heap order survives.
* The flag of `shared_map::insert` and the `const` lookups speak of one handle's cache
  (`SharedMap.InsertFlag` has the exact condition).
* `push_unique` on a locked vector revives a removed entry in place: the set of elements is that of an
  eager vector, the order and the multiplicities need not be. `LazyRemVector.SameOrder` and
  `LazyRemVector.SameBag` have the exact conditions, for single calls and for runs.
* `utstring_find` with a start before the beginning of the text, and `utstring_findR` with one at or
  behind its end, can begin outside the text (`KmpSearch.FirstReadOutside`, `KmpSearch.FirstReadOutsideR`).
* An array can be inserted into itself at or behind its end, but not inside
  (`UtArray.SelfInsertOverlaps`).

## Model

| member | source | states |
|---|---|---|
| `MergeSort.SortIsStableSort` | include/uthash/utlist.h:132-209 | for any comparator the bottom-up merge sort rearranges its input; for a total preorder the result is sorted and elements that compare equal keep their order |
| `MergeSort.StableSortUnique` | include/uthash/utlist.h:132-209 | sorted, same elements, equals in the same order: only one sequence is all three, so the sort is fully determined |
| `MergeSort.DifferenceOrders` | include/uthash/utlist.h:132-209 | subtraction is a total preorder on integers, and sorted by it means ascending |
| `MergeSort.MergeSorted` | include/uthash/utlist.h:161-195 | merging two sorted runs gives a sorted run |
| `MergeSort.MergeStable` | include/uthash/utlist.h:161-195 | merging keeps, within every class of equal elements, the left run before the right one |
| `MergeSort.PassDoublesRuns` | include/uthash/utlist.h:148-197 | one pass turns sorted runs of length k into sorted runs of length 2k, for every k |
| `MergeSort.PassOntoPasses` | include/uthash/utlist.h:148-197 | the pass that appends node by node to an output computes the same sequence as the pass by whole runs |
| `Lists.LLSort` | include/uthash/utlist.h:132-209 | the `next` links are rewired so that from the new head they run through exactly the stable sort of the old list and end in null; no other field changes and the loops end |
| `Lists.LLMeans` | include/uthash/utlist.h:198-203 | such a list node by node: each `next` is the node behind it, the last one null |
| `Lists.LLPass` | include/uthash/utlist.h:144-206 | one pass leaves the output of the specification pass, and reports at most one merge exactly when the list is covered by one pair of runs |
| `Lists.LLMergeRuns` | include/uthash/utlist.h:149-196 | two neighbouring runs are merged onto the output and the rest of the list is handed on untouched, with the cursor behind them |
| `Lists.LLMergeOne` | include/uthash/utlist.h:162-195 | one turn of the inner loop moves exactly the node that the specification takes next |
| `Lists.Take` | include/uthash/utlist.h:162-186 | the next node comes from the right run exactly when the left is used up or its head compares above; both cursors and sizes stay in step with the list |
| `Lists.SkipRun` | include/uthash/utlist.h:150-159 | the cursor stops after `insize` nodes or at the end, whichever comes first |
| `DoublyLinked.DLSort` | include/uthash/utlist.h:213-292 | both `next` and `prev`, and head->prev = last, are rebuilt around the stable sort; `prev` need not be right beforehand |
| `DoublyLinked.DLMeans` | include/uthash/utlist.h:280-285 | such a list node by node: `next` and `prev` are the neighbours, the last `next` null, and head->prev the last node |
| `DoublyLinked.DLPass` | include/uthash/utlist.h:225-289 | one pass, with the back links of the output set as it grows |
| `DoublyLinked.DLAppend` | include/uthash/utlist.h:720-732 | the list becomes the old list followed by the node, with all back links right |
| `DoublyLinked.DLPrepend` | include/uthash/utlist.h:706-716 | the list becomes the node followed by the old list, with all back links right |
| `DoublyLinked.DLAppendElem` | include/uthash/utlist.h:878-894 | the node lands just behind the given one, in the middle or at the end, or in front for null |
| `DoublyLinked.DLDelete` | include/uthash/utlist.h:785-802 | exactly the given node leaves the list, wherever it stands; its own links are left as they were |
| `DoublyLinked.DLLowerBound` | include/uthash/utlist.h:753-764 | stops at the last node of the leading stretch that compares below, null when there is none |
| `DoublyLinked.DLInsertInorder` | include/uthash/utlist.h:737-748 | the node is put at the lower bound of the old list |
| `DoublyLinked.InsertKeepsSorted` | include/uthash/utlist.h:737-764 | inserting at the lower bound keeps a sorted list sorted, and the new node goes in front of its equals |
| `DoublyLinked.DLConcat` | include/uthash/utlist.h:768-781 | two disjoint lists become one, by the four links at the seam, whichever of them is empty |
| `Circular.CDLSort` | include/uthash/utlist.h:296-394 | given a ring of `next` links, leaves a ring in both directions that runs through the stable sort |
| `Circular.CDLMeans` | include/uthash/utlist.h:382-387 | such a ring node by node: `next` and `prev` of node k are the nodes k + 1 and k - 1 modulo the length |
| `Circular.CDLPass` | include/uthash/utlist.h:309-391 | one pass over a ring whose end is recognised by the old head alone, while the links of that head are already being rewritten |
| `Circular.RingTake` | include/uthash/utlist.h:332-368 | the choice of the merge, with the old head standing for the end of either run |
| `KmpSearch.BuildTable` | include/uthash/utstring.h:180-206 | every table entry is the longest border followed by a different character, or -1; the last is the longest border; at most 3 comparisons per needle character; no access outside needle or table |
| `KmpSearch.Retreat` | include/uthash/utstring.h:189-191 | following the failure values visits every border that could be extended, longest first |
| `KmpSearch.FallBack` | include/uthash/utstring.h:189-202 | a border longer than the strong failure value repeats the mismatched character, so skipping it loses nothing |
| `KmpSearch.ExtendBorder` | include/uthash/utstring.h:189-193 | the longest border of the next prefix is one more than the longest border that the next character extends |
| `KmpSearch.StoreStrong` | include/uthash/utstring.h:194-199 | storing the failure value of the border, when the characters agree, is again a strong failure value |
| `KmpSearch.ShiftSafe` | include/uthash/utstring.h:248-250 | falling back by the table after a mismatch skips no match |
| `KmpSearch.MatchGivesBorder` | include/uthash/utstring.h:248-250 | a match that begins inside what is matched so far is a border of it |
| `KmpSearch.Find` | include/uthash/utstring.h:238-261 | the smallest match position, or -1 exactly when there is none; at most two comparisons per haystack character |
| `KmpSearch.MatchMeans` | include/uthash/utstring.h:238-261 | a match is one character by character |
| `KmpSearch.FindFrom` | include/uthash/utstring.h:290-321 | for every start at which the search stays inside the text, by indices: the smallest match r >= start, for a negative start r >= length + start; -1 when there is none or the needle is empty |
| `KmpSearch.FromEitherEnd` | include/uthash/utstring.h:297-301 | a start inside the text gives the same answer when it is counted from the end |
| `KmpSearch.FirstReadOutside` | include/uthash/utstring.h:293-316 | the search begins outside the text if and only if start < -length and 0 < needle length <= -start, and then in front of it |
| `KmpSearch.BuildTableR` | include/uthash/utstring.h:209-235 | the right-to-left table is the mirror image of the left-to-right table of the reversed needle |
| `KmpSearch.FindR` | include/uthash/utstring.h:264-287 | the largest match position, which is |haystack| - |needle| - the first match of the reversed needle in the reversed haystack |
| `KmpSearch.FindFromR` | include/uthash/utstring.h:324-352 | for every start at which the search stays inside the text, by indices: the largest match r with r + needle length - 1 <= start, for a negative start <= length + start; -1 when there is none or the needle is empty |
| `KmpSearch.FromEitherEndR` | include/uthash/utstring.h:331-335 | a start inside the text gives the same answer when it is counted from the end |
| `KmpSearch.FirstReadOutsideR` | include/uthash/utstring.h:327-347 | the search begins outside the text if and only if start >= length and 0 < needle length <= start + 1, and then at or behind its end |
| `KmpSearch.LastMatchMirror` | include/uthash/utstring.h:264-287 | first matches of the reversed texts are last matches of the texts |
| `HashElements.FindInBucket` | include/uthash/uthash.h:811-830 | finds an element of the chain with that key and hash value, null exactly when there is none |
| `HashElements.ChainMeans` | include/uthash/uthash.h:833-842 | a chain element by element: both links, the head and the count |
| `HashElements.PushOnBucket` | include/uthash/uthash.h:833-842 | the chain gets the element in front, with both chain links and the count right |
| `HashElements.DelInBucket` | include/uthash/uthash.h:852-865 | exactly that element leaves the chain, at its head, inside or at its end |
| `HashElements.AppendList` | include/uthash/uthash.h:303-309 | the application order is extended at its tail |
| `HashElements.OrderMeans` | include/uthash/uthash.h:303-309 | the application order element by element: both links, head and tail |
| `HashElements.InnerLoop` | include/uthash/uthash.h:311-318 | stops at the first element that compares above the new one, null at the end |
| `HashElements.InsertList` | include/uthash/uthash.h:375-408 | the new element is linked in front of that one, with head, tail and both links right |
| `HashElements.DeleteList` | include/uthash/uthash.h:492-504 | exactly that element leaves the application order, with head, tail and both links right |
| `HashTable.PushHashed` | include/uthash/uthash.h:363-371 | the element heads the chain of its hash value; every other chain is the same sequence as before, and its bucket counts one more |
| `HashTable.DelHashed` | include/uthash/uthash.h:505-506 | the element is taken out of the chain of its hash value; every other chain is the same sequence as before |
| `HashTable.MoveElement` | include/uthash/uthash.h:918-934 | moves one element to the new array, and keeps the running totals of over-long chains and the multipliers those of the chains so far |
| `HashTable.MoveChain` | include/uthash/uthash.h:916-935 | empties one old chain into the new array, although moving an element rewrites the link that led to it |
| `HashTable.Redistribute` | include/uthash/uthash.h:915-936 | the double loop empties all old chains into the new array, although each move rewrites links of both |
| `HashTable.Rehash` | include/uthash/uthash.h:899-936 | the new array has twice the buckets and holds exactly the elements of the old one, each in the bucket of its hash value; the totals are those of the new chains |
| `HashTable.ExcessSumUpdate` | include/uthash/uthash.h:921-927 | the sum of excesses changes by the change of one bucket |
| `HashTable.ExcessCounts` | include/uthash/uthash.h:921-922 | the sum of excesses is the number of elements that stand beyond the ideal length of their chain |
| `HashTable.MultiplierBounds` | include/uthash/uthash.h:921-927 | the multiplier is 0 up to the ideal length; beyond it, it is the least one, or one less, whose multiple of the ideal length covers the chain |
| `HashTable.MultiplierIs` | include/uthash/uthash.h:921-927 | its exact value for every count: the quotient rounded up, but one less right above the ideal length and for ideal length 1 |
| `HashTable.MeasuredBounds` | include/uthash/uthash.h:915-936 | so after an expansion no chain is longer than the ideal length or than multiplier times ideal plus one |
| `HashSort.SortOrder` | include/uthash/uthash.h:957-1047 | the application order becomes its stable sort with both links, head and tail rebuilt; no chain link changes |
| `HashSort.SortPass` | include/uthash/uthash.h:967-1037 | one pass over the application order |
| `UtHash.Table.Find` | include/uthash/uthash.h:165-176 | gives an element with that key, or null exactly when no element of the table has it |
| `UtHash.Table.MakeTable` | include/uthash/uthash.h:228-258 | 32 empty buckets with zero multipliers, all counters zero, the element as tail |
| `UtHash.Table.AddToTable` | include/uthash/uthash.h:363-371 | the buckets then hold the new element too; if their number stays, the chain of the element has fewer than 10 (multiplier + 1) elements or expansion is switched off; if it doubles, the chain has at least that many and expansion was on |
| `UtHash.Table.Add` | include/uthash/uthash.h:426-446 | the whole table invariant is kept and the element comes last in application order; a new table has its first buckets, and one that still has them keeps them or doubles, by the count of the bucket |
| `UtHashGrowth.AddAll` | include/uthash/uthash.h:833-850 | additions to a new table, for any hash function: 32 buckets as long as none has ten elements, and 64 with the tenth element of one |
| `UtHashGrowth.AddFew` | include/uthash/uthash.h:137-142 | fewer than ten elements leave 32 buckets, whatever the hash function |
| `UtHashGrowth.AddTen` | include/uthash/uthash.h:843-847 | ten elements with the same hash value modulo 32 make 64 buckets |
| `UtHash.Table.AddInorder` | include/uthash/uthash.h:375-408 | the whole table invariant is kept and the element stands in front of the first one that compares above it |
| `UtHash.Table.Delete` | include/uthash/uthash.h:481-510 | the whole table invariant is kept and exactly that element is gone, the last one with the table itself |
| `UtHash.Table.Replace` | include/uthash/uthash.h:273-284 | the element that the search finds for the key, if any, is returned and gone; the new one comes last, even if it is the one found |
| `UtHash.Table.ReplaceInorder` | include/uthash/uthash.h:260-271 | the same, with the new element in front of the first one of the rest that compares above it |
| `UtHash.Table.Sort` | include/uthash/uthash.h:957-1047 | the application order becomes its stable sort and every chain, so every lookup, is as before |
| `UtHash.Table.ExpandBuckets` | include/uthash/uthash.h:896-951 | twice the buckets, the same elements each in the bucket of its hash value, the ideal length is the rounded-up quotient, the count of non-ideal items is the sum of the excesses, no chain is longer than its multiplier allows, and expansion is switched off after two ineffective ones in a row |
| `UtHash.IdealChainMaxlen` | include/uthash/uthash.h:909-913 | shift and mask give the quotient rounded up |
| `UtHash.CeilingIsLeast` | include/uthash/uthash.h:909-913 | it is the least chain length with which the buckets hold all items |
| `UtHash.Table.Clear` | include/uthash/uthash.h:1109-1118 | leaves an empty valid table |
| `UtHash.Table.Count` | include/uthash/uthash.h:1146 | the number of elements |
| `UtHashModel.Run` | include/uthash/uthash.h:165-510 | over every run of lookups, insertions or replacements (at the end or in order), deletions by key and sorts, with any hash function, every answer and the final contents are those of a plain map, and the application order is the specified sequence |
| `UtHashModel.OrdersAreMaps` | include/uthash/uthash.h:165-510 | keys stay unique over any run, and the map of the specified order is the one that the plain map operations give |
| `UtHashModel.OrderIsMap` | include/uthash/uthash.h:260-510 | for each single call, in-order insertion and sorting included |
| `UtHashModel.LastPutWins` | include/uthash/uthash.h:260-284 | after any run a key has the element last put in with it, unless it was removed since |
| `UtHashModel.RemovedStaysOut` | include/uthash/uthash.h:481-510 | a key that was removed and not put in again is not there |
| `UtHashModel.RepliesAre` | include/uthash/uthash.h:165-284 | every answer of a run is the element that its key has at that moment, null if it has none |
| `UtHashModel.Step` | include/uthash/uthash.h:260-510 | one call gives the specified order and the answer of the same call on a plain map |
| `UtHashModel.FoundIsLookup` | include/uthash/uthash.h:165-176 | with distinct keys, what a search of the table may give is exactly the map lookup |
| `UtHashModel.InorderKeepsSorted` | include/uthash/uthash.h:375-408 | adding in order to a sorted table keeps it sorted and puts the element behind its equals |
| `UtHashModel.CountsAddUp` | include/uthash/uthash.h:553-600 | the bucket counts add up to num_items, which is the number of elements in application order, as the integrity check requires |
| `UtHashModel.SlotIsRemainder` | include/uthash/uthash.h:462-465 | masking with the number of buckets minus one is the remainder |
| `UtHashModel.SlotSplits` | include/uthash/uthash.h:919 | doubling keeps an element in its bucket or moves it by the old number of buckets |
| `Threaded.RunInv` | include/fmc++/threaded.hpp:39-59 | the ownership invariant holds after every interleaving of the steps of commit, consume and cleanup |
| `Threaded.StepInv` | include/fmc++/threaded.hpp:39-59 | every single step of either thread keeps the invariant |
| `Threaded.TakeFindsValue` | include/fmc++/threaded.hpp:48-57 | the exchange after a non-null load never yields null |
| `Threaded.ConsumeIsFresh` | include/fmc++/threaded.hpp:48-57 | consume returns an object at least as new as every commit finished before and as everything returned before, with the content that the cache had at its commit |
| `Threaded.ObjectsAreCommits` | include/fmc++/threaded.hpp:44-46 | object n has the content that the cache had at the n-th commit, whatever is written to the cache later |
| `Threaded.CommitsLastWritten` | include/fmc++/threaded.hpp:44-46 | an object committed has what was last written through the reference from reserve |
| `Threaded.NoPrematureRelease` | include/fmc++/threaded.hpp:46-59 | no object is released twice, and none that is in the slot, current, kept for cleanup or last returned has been released |
| `Threaded.DestroyReleasesAll` | include/fmc++/threaded.hpp:39-42 | after the destructor every object ever allocated has been released exactly once |
| `Threaded.OwnedNotFreed` | include/fmc++/threaded.hpp:46-59 | what somebody still owns has not been released |
| `Threaded.TurnInv` | include/fmc++/threaded.hpp:44-59 | whatever one thread does between two steps of the other, the invariant holds, nothing is taken back, and the other thread finds its own fields as it left them; the producer never empties the slot |
| `Threaded.TurnIsRun` | include/fmc++/threaded.hpp:44-59 | the turns of the other thread include every run of its steps |
| `Threaded.TurnHasRun` | include/fmc++/threaded.hpp:44-59 | and each of them is such a run |
| `Threaded.Overlapping` | include/fmc++/threaded.hpp:44-57 | for example a run in which an object is taken before its commit is finished |
| `Threaded.CommitMeans` | include/fmc++/threaded.hpp:46 | after a whole commit, the content of the cache is the newest object, in the slot or already taken; every older object has been released except those that the consumer still holds |
| `Threaded.Cell.Write` | include/fmc++/threaded.hpp:44 | writing through the reference changes the producer's cache and nothing else |
| `Threaded.Cell.Commit` | include/fmc++/threaded.hpp:46 | the same of the method, with arbitrary steps of the consumer between its allocation, its exchange and its release |
| `Threaded.TakeMeans` | include/fmc++/threaded.hpp:48-57 | a consume that finds something returns a newer object than the current one; that one is kept for cleanup, and what was kept before has been released |
| `Threaded.Cell.Consume` | include/fmc++/threaded.hpp:48-57 | with arbitrary steps of the producer in between: the result is at least as new as every finished commit and every earlier result; neither it nor the previous one has been released; the previous one is returned again if and only if the slot was empty |
| `Threaded.Cell.Cleanup` | include/fmc++/threaded.hpp:59 | exactly the object kept for cleanup is released |
| `Threaded.Cell.Destroy` | include/fmc++/threaded.hpp:39-42 | with neither thread inside a call, every object has then been released exactly once |
| `UtArray.Vec.Reserve` | include/uthash/utarray.h:102-115 | the doubling loop ends with room for the elements, which are unchanged |
| `UtArray.Vec.PushBack` | include/uthash/utarray.h:117-125 | the contents are the old ones followed by the element |
| `UtArray.Vec.Resize` | include/uthash/utarray.h:193-214 | the contents are cut off or extended with zeroed elements |
| `UtArray.ResizedAt` | include/uthash/utarray.h:193-214 | the same by index: the old element, or zero beyond the old end |
| `UtArray.Vec.Insert` | include/uthash/utarray.h:152-167 | the element stands at the index; an index beyond the end is first filled up with zeroed elements |
| `UtArray.SplicedAt` | include/uthash/utarray.h:152-167 | the contents after an insertion, by index |
| `UtArray.Vec.Inserta` | include/uthash/utarray.h:169-191 | the other array stands at the index, the rest moved up whole; the same for the array itself at or beyond its end |
| `UtArray.SelfInsertOverlaps` | include/uthash/utarray.h:183-189 | for an array inserted into itself, the slots read and the slots written overlap if and only if the index lies inside the array |
| `UtArray.Vec.Erase` | include/uthash/utarray.h:221-234 | exactly that stretch of elements is gone |
| `UtArray.Vec.Swap` | include/uthash/utarray.h:278-284 | two elements change places |
| `UtArray.SwappedAt` | include/uthash/utarray.h:278-284 | the contents after a swap, by index |
| `UtHeap.HeapifyUp` | include/uthash/utheap.h:18-30 | restores the heap order when only the given element may be out of order with its parent; the bag of elements stays |
| `UtHeap.Push` | include/uthash/utheap.h:32-36 | keeps the heap order; the bag of elements gains exactly the new one |
| `UtHeap.HeapifyDown` | include/uthash/utheap.h:38-61 | computes the sift-down of the specification, with 1-based child indexes |
| `UtHeap.SiftDownOrders` | include/uthash/utheap.h:38-61 | sifting down restores the heap order when only the children of the element may be out of order with it |
| `UtHeap.Erase` | include/uthash/utheap.h:63-73 | the bag loses exactly the erased element; the heap order survives if and only if the element moved into the hole is not less than the parent of the hole, or there is no such parent or no move |
| `UtHeap.Pop` | include/uthash/utheap.h:75 | keeps the heap order; the bag loses exactly the element at index 0 |
| `UtHeap.RootIsLeast` | include/uthash/utheap.h:18-61 | in heap order, no element is less than the one at index 0 |
| `UtHeap.LessOrders` | include/uthash/utheap.h:18-61 | for example `<` on integers is a strict weak order |
| `UtHeap.Run` | include/uthash/utheap.h:32-75 | every run of pushes and pops behaves as a priority queue: each removed element was a least one of the bag at that moment |
| `UtHeap.Drain` | include/uthash/utheap.h:63-75 | popping until empty yields a sorted permutation of what was in the heap |
| `UtHeap.MovedStuck` | include/uthash/utheap.h:63-73 | when the moved element is less than the parent of the hole, sifting down leaves it out of order |
| `Counters.Estimate` | include/fmc++/counters.hpp:120 | for every magnitude below 2^64, three tenths of the binary logarithm is the decimal logarithm or one short of it |
| `Counters.Guess` | include/fmc++/counters.hpp:120-188 | the table entry first read is the right power of ten or the one below |
| `Counters.FloorLog10` | include/fmc++/counters.hpp:119-193 | for every 64-bit value: the largest power of ten not above it and its number of digits, 1 and 0 for zero; the final product does not wrap |
| `Counters.DecadeIsPower` | include/fmc++/counters.hpp:119-193 | the largest power of ten not above a value is determined by its number of digits |
| `Counters.TruncMonotone` | include/fmc++/counters.hpp:232-233 | rounding down to the leading digit is monotone |
| `Counters.TruncKeepsLeadingDigit` | include/fmc++/counters.hpp:232-233 | it keeps one non-zero digit and loses less than one unit of it, so less than half of the value |
| `Counters.TruncIsBelow` | include/fmc++/counters.hpp:232-233 | it never goes up and loses less than one unit of the leading digit, and 0 stays 0 |
| `Counters.Ewma.Sample` | include/fmc++/counters.hpp:86 | the state after a sample, modulo 2^64: a 2^L2W-th of it is taken off, by the shift, and the sample added |
| `Counters.SmoothIs` | include/fmc++/counters.hpp:86 | exactly: w times the new state is (w - 1) times the old one, the lost remainder, and w times the sample, for w = 2^L2W |
| `Counters.AverageIsWeighted` | include/fmc++/counters.hpp:85-89 | after any samples the state is the exponentially weighted sum of them, with an error below w |
| `Counters.Ewma.SampleAll` | include/fmc++/counters.hpp:85-89 | the same of the object, for samples within the bound below which nothing wraps |
| `Counters.AverageStaysInside` | include/fmc++/counters.hpp:85-89 | while the samples lie in an interval that holds the average, so does the average afterwards |
| `Counters.AverageConverges` | include/fmc++/counters.hpp:85-89 | fed one value, the average reaches it within as many samples as the state is away from it, and stays there |
| `Counters.AverageConvergesFast` | include/fmc++/counters.hpp:85-89 | the distance at least halves with every 2^L2W samples: from below 2^L2W * 2^k the average is exact after 2^L2W * (k + 1) samples |
| `Counters.NoWrapAround` | include/fmc++/counters.hpp:86 | no sample wraps around while samples and average are below 2^64 / 2^L2W |
| `OrderedMap.OrderedMultimap.LowerBound` | include/fmc++/ordered_map.hpp:56-61 | the first position whose key is not below the given one |
| `OrderedMap.OrderedMultimap.Find` | include/fmc++/ordered_map.hpp:79-94 | the first item with that key, the end exactly when there is none |
| `OrderedMap.OrderedMultimap.Emplace` | include/fmc++/ordered_map.hpp:95-99 | the item is put at the lower bound and the vector stays sorted |
| `Sampler.PrecisionSampler.Sample` | include/fmc++/counters.hpp:231-239 | the histogram stays the sorted list of all samples, each rounded down to its leading digit, in compressed form |
| `Sampler.PrecisionSampler.SampleIndex` | include/fmc++/counters.hpp:240-249 | the first bucket at which the running total reaches the count |
| `Sampler.PrecisionSampler.Total` | include/fmc++/counters.hpp:250-256 | the number of samples |
| `Sampler.PrecisionSampler.Percentile` | include/fmc++/counters.hpp:257-267 | the leading-digit rounding of the max(1, ceil(n p / 100))-th smallest sample; nothing exactly when there is no such sample |
| `Sampler.RankInside` | include/fmc++/counters.hpp:263 | for p up to 100 and at least one sample the rank is that of a sample |
| `Sampler.RankIsLeast` | include/fmc++/counters.hpp:263 | for any percentage the rank is the least positive number that is at least p percent of the number of samples |
| `Sampler.RankSplits` | include/fmc++/counters.hpp:257-267 | the sample of that rank splits the samples: at least p percent are not above it, fewer stand in front of it, unless it is the first |
| `Sampler.InsRounded` | include/fmc++/counters.hpp:231-239 | inserting a sample and then rounding is the same as rounding and then inserting |
| `Sampler.NewBucket` | include/fmc++/counters.hpp:234-236 | a new bucket of one inserts the rounded sample |
| `Sampler.BumpedBucket` | include/fmc++/counters.hpp:236-238 | one more in an existing bucket inserts the rounded sample |
| `Sampler.SortedSorts` | include/fmc++/counters.hpp:240-267 | the reference arrangement is ascending and has the samples with their multiplicities |
| `Sampler.AscendingUnique` | include/fmc++/counters.hpp:240-267 | it is the only such arrangement |
| `Sampler.ExpandAt` | include/fmc++/counters.hpp:240-249 | the bucket where the running total passes k holds the k-th entry of the histogram |
| `NumberText.ParseUnsigned` | include/fmc++/strings.hpp:103-122 | the longest prefix of digits whose value fits the type, and that value; no step leaves the range of the type |
| `NumberText.ParseSigned` | include/fmc++/strings.hpp:124-150 | for the signed types, the longest digits after '-' whose negated value fits, and that value, without overflow; for uint64_t the negated value, modulo 2^64, of the digits it takes; a lone '-' is not read; without '-', as the unsigned parser |
| `NumberText.CannotExtend` | include/fmc++/strings.hpp:110-121 | a prefix that its next digit would make too large is the longest that fits |
| `NumberText.BareMinus` | include/fmc++/strings.hpp:127-146 | a '-' that no digit follows is consumed with value 0, unless it is the whole text |
| `NumberText.MinusIntoUnsigned` | include/fmc++/strings.hpp:179-183 | uint64_t goes through the signed parser, and reads a text with '-' correctly if and only if no non-zero number follows the sign |
| `NumberText.RefusedUnsigned` | include/fmc++/strings.hpp:133-144 | what uint64_t refuses after '-': a zero behind a number other than 0, and a digit that would wrap around |
| `NumberText.StopsAtZero` | include/fmc++/strings.hpp:133-144 | so it reads up to the first zero behind a non-zero digit and no further |
| `NumberText.MinusTen` | include/fmc++/strings.hpp:179-183 | for example "-10" is read as 2^64 - 1, with the zero left over |
| `NumberText.MinusFive` | include/fmc++/strings.hpp:179-183 | for example "-5" is read as 2^64 - 5 |
| `NumberText.PrintUnsigned` | include/fmc++/strings.hpp:237-250 | the decimal text of the value, in 20 characters at most, and nothing else in the buffer changes |
| `NumberText.PrintSigned` | include/fmc++/strings.hpp:252-260 | the decimal text with its sign |
| `NumberText.Printable` | include/fmc++/strings.hpp:252-260 | only the minimum of int32_t and of int64_t cannot be printed, since its negation overflows |
| `NumberText.TypeRanges` | include/fmc++/strings.hpp:161-207 | the ranges of the eight types |
| `NumberText.PrintFixed` | include/fmc++/strings.hpp:209-221 | the last digits of the value, zero-padded, fill the whole length |
| `NumberText.PrintSignedFixed` | include/fmc++/strings.hpp:223-235 | a sign, if any, and the last digits of the absolute value |
| `NumberText.ValueOfText` | include/fmc++/strings.hpp:237-250 | the text of a number denotes that number |
| `NumberText.DigitAt` | include/fmc++/strings.hpp:103-122 | the digit k places from the right has weight 10^k |
| `NumberText.SignedTextIs` | include/fmc++/strings.hpp:252-260 | a negative number is written as '-' and the digits of its absolute value without superfluous zeros |
| `NumberText.SignedTextOfValue` | include/fmc++/strings.hpp:252-260 | and every such text is the one written for the number it denotes |
| `NumberText.Spelled` | include/fmc++/strings.hpp:209-260 | the characters of "90", "-7" and "04" |
| `NumberText.TextOfValue` | include/fmc++/strings.hpp:103-122 | a text without superfluous zeros is the text of the number it denotes |
| `NumberText.ValueOfFixedText` | include/fmc++/strings.hpp:209-221 | the fixed-length text denotes the value modulo 10^length |
| `NumberText.TextReadsBack` | include/fmc++/strings.hpp:103-122 | reading the text of a number, whatever non-digit follows, gives the number and consumes exactly the text |
| `NumberText.NegativeTextReadsBack` | include/fmc++/strings.hpp:124-150 | the same after a '-' |
| `NumberText.RoundTripUnsigned` | include/fmc++/strings.hpp:161-183 | printing and then parsing any unsigned value, followed by anything but a digit, is the identity |
| `NumberText.RoundTripSigned` | include/fmc++/strings.hpp:185-207 | printing and then parsing any signed value that can be printed is the identity |
| `NumberText.RoundTripFixed` | include/fmc++/strings.hpp:179-221 | printing to a fixed length and parsing, uint64_t by the signed parser, gives the value modulo 10^length and consumes just the field, if and only if the field is not an empty one of a uint64_t in front of a '-' and more |
| `DecNumber.LongMul32Hi` | include/libdecnumber/decNumberLocal.h:128-141 | the high word of the 64-bit product of any two words; no intermediate 32-bit sum overflows |
| `DecNumber.HighWord` | include/libdecnumber/decNumberLocal.h:134-140 | adding the cross products one at a time loses no carry |
| `DecNumber.ToDigit` | include/libdecnumber/decNumberLocal.h:319-345 | the digit at the cut and the remainder below it, with a temporary that never overflows |
| `DecNumber.StraddleValue` | include/libdecnumber/decNumberLocal.h:663-681 | shifting two words and or-ing them picks ten consecutive bits across the word boundary |
| `DecNumber.ReadDeclet` | include/libdecnumber/decNumberLocal.h:715-734 | each of the eleven expressions picks its declet of the 128-bit number |
| `DecNumber.DecletIsBits` | include/libdecnumber/decNumberLocal.h:715-734 | declet k is the ten bits at offset 10 k |
| `DecNumber.WordsOfNumber` | include/libdecnumber/decNumberLocal.h:663-681 | the four words are the 32-bit groups of the 128-bit number, most significant first |
| `DecNumber.GetCoeffThou` | include/libdecnumber/decNumberLocal.h:715-734 | limb k is what the table has for the ten bits at offset 10 k of the 128-bit number, the top limb what it has for the combination field; every limb in range |
| `DecNumber.GetCoeffBill` | include/libdecnumber/decNumberLocal.h:663-681 | the same coefficient in base 10^9, by the pre-multiplied tables |
| `DecNumber.DecodesBack` | include/libdecnumber/decNumberLocal.h:663-856 | any quad whose ten-bit groups and combination field stand for given limbs is decoded, by all three macros, as the number with those limbs |
| `DecNumber.LimbsAreRead` | include/libdecnumber/decNumberLocal.h:715-734 | such a quad has exactly those limbs |
| `DecNumber.ThousandsAreWeighted` | include/libdecnumber/decNumberLocal.h:715-734 | limb k has weight 1000^k |
| `DecNumber.BillionsAreWeighted` | include/libdecnumber/decNumberLocal.h:663-681 | limb k of the other form has weight 10^(9 k) |
| `DecNumber.ThreeAtATime` | include/libdecnumber/decNumberLocal.h:663-681 | three limbs of base 1000 make one of base 10^9 |
| `DecNumber.AddCoeffThou` | include/libdecnumber/decNumberLocal.h:793-856 | adds exactly the coefficient to the number in the buffer; lower limbs end up in 0..999 and the top one at 19 at most |
| `DecNumber.CarryKeepsSum` | include/libdecnumber/decNumberLocal.h:797-801 | a carry keeps the sum |
| `DecNumber.ThirtyFourDigits` | include/libdecnumber/decNumberLocal.h:715-734 | a coefficient is below 10^34 |
| `LazyRemVector.SameElements` | include/fmc++/lazy_rem_vector.hpp:59-94 | over any run, nested locks included, the set of elements is that of a vector that removes at once; an unlocked vector holds nothing else |
| `LazyRemVector.StepElements` | include/fmc++/lazy_rem_vector.hpp:107-155 | each call has the same effect on the set of elements as on a vector that removes at once |
| `LazyRemVector.IndexesStayValid` | include/fmc++/lazy_rem_vector.hpp:82-94 | while at no time all locks, those held at the start included, have been released, every index keeps its value |
| `LazyRemVector.LocksCount` | include/fmc++/lazy_rem_vector.hpp:76-94 | the locks held after a run are those before it, plus the lock calls, minus the releases |
| `LazyRemVector.LegalWhenCovered` | include/fmc++/lazy_rem_vector.hpp:76-94 | a run is legal exactly when at no time more was released than held and taken |
| `LazyRemVector.BalancedRun` | include/fmc++/lazy_rem_vector.hpp:59-94 | a run on an unlocked vector with as many releases as locks leaves it unlocked, with only live entries |
| `LazyRemVector.StepLive` | include/fmc++/lazy_rem_vector.hpp:59-155 | every call but push_unique does to the live values, in order, exactly what it does to a vector that removes at once |
| `LazyRemVector.PushKeepsBag` | include/fmc++/lazy_rem_vector.hpp:107-122 | push_unique keeps the agreement of multiplicities if and only if it does not find its value first in a removed entry while a live one stands behind it |
| `LazyRemVector.PushKeepsOrder` | include/fmc++/lazy_rem_vector.hpp:107-122 | push_unique keeps the agreement in order if and only if it revives no entry that has a live value behind it or doubles one |
| `LazyRemVector.SameBag` | include/fmc++/lazy_rem_vector.hpp:59-155 | throughout any run, nested locks included, the multiplicities agree if and only if no push_unique meets that case |
| `LazyRemVector.SameOrder` | include/fmc++/lazy_rem_vector.hpp:59-155 | throughout any run, the live values agree in order if and only if no push_unique displaces one |
| `LazyRemVector.RevivedDuplicate` | include/fmc++/lazy_rem_vector.hpp:107-122 | an input for the first case: a revived entry and an equal one behind it |
| `LazyRemVector.RevivedOrder` | include/fmc++/lazy_rem_vector.hpp:107-122 | an input for the second: a revived entry keeps its old place in front of a live one |
| `LazyRemVector.LazyVector.EmplaceBack` | include/fmc++/lazy_rem_vector.hpp:59-61 | the entry is added at the end; removed_count stays the number of flagged entries |
| `LazyRemVector.LazyVector.Clear` | include/fmc++/lazy_rem_vector.hpp:63-74 | nothing is left of an unlocked vector; of a locked one every entry is flagged in its place; removed_count stays the number of flagged entries |
| `LazyRemVector.LazyVector.EraseIf` | include/fmc++/lazy_rem_vector.hpp:136-155 | an unlocked vector loses exactly the entries that satisfy the predicate; a locked one has them flagged in their places; removed_count stays the number of flagged entries |
| `LazyRemVector.LazyVector.PushUnique` | include/fmc++/lazy_rem_vector.hpp:107-122 | the first entry with the value is made live in its place, and if there is none one is added; removed_count stays the number of flagged entries |
| `LazyRemVector.LazyVector.Lock` | include/fmc++/lazy_rem_vector.hpp:76 | one more lock, and nothing else |
| `LazyRemVector.LazyVector.Release` | include/fmc++/lazy_rem_vector.hpp:82-94 | one lock less; the last release keeps exactly the entries that are not flagged, although it sweeps only when the counter says so |
| `SharedMap.Linearizable` | include/fmc++/shared_map.hpp:130-165 | in any interleaving of any number of handles, the calls that returned are distinct events of a history of one map used sequentially; each took effect between its beginning and its end and gave what that map gives; the calls of one handle do not overlap |
| `SharedMap.FirstWins` | include/fmc++/shared_map.hpp:44-48 | all calls for one key get the entry published first, which the table still holds |
| `SharedMap.EntryIsFirstInserted` | include/fmc++/shared_map.hpp:35-48 | said by the history alone: a call gives the value of the first insertion of its key up to and including itself, and nothing exactly when there was none |
| `SharedMap.RunInv` | include/fmc++/shared_map.hpp:35-48 | published entries never change, and the invariant of caches and pending calls holds in every interleaving |
| `SharedMap.CacheIsPublished` | include/fmc++/shared_map.hpp:130-165 | a cached entry is the published entry |
| `SharedMap.InsertFlag` | include/fmc++/shared_map.hpp:158-165 | in any interleaving the flag of insert is true exactly when the handle had never been given an entry for the key; so it is that of a single map if and only if the key was unpublished or the handle had been given it |
| `SharedMap.RunHistory` | include/fmc++/shared_map.hpp:130-165 | the order of calls, the origin of every cached entry and the meaning of the flags hold in every interleaving |
| `SharedMap.BothAreTold` | include/fmc++/shared_map.hpp:158-165 | an input for the other case: two handles insert one key, and both are told that they did |
| `SharedMap.Shared.Find` | include/fmc++/shared_map.hpp:35-42 | the published entry, if any |
| `SharedMap.Shared.Emplace` | include/fmc++/shared_map.hpp:44-48 | an existing entry wins over the new one |
| `SharedMap.Handle.Find` | include/fmc++/shared_map.hpp:130-141 | what the shared table holds, whether or not it was cached |
| `SharedMap.Handle.Insert` | include/fmc++/shared_map.hpp:158-165 | the entry of a single shared map; the flag is that of a single map unless the key is published and not cached |
| `SharedMap.Handle.Contains` | include/fmc++/shared_map.hpp:154-156 | true only for published keys; it looks no further than the cache |

## Left out

- UtHash.Table: every element carries its own pointer to the table record; the model keeps one record beside the head variable, so aliasing between several head variables of one table is not captured.
- HashTable.PushHashed: counts and lengths are unbounded integers; 32-bit wrap-around of item and bucket counts is not modelled.
- UtHash.Table.Add: failing allocation, the Bloom filter, HASH_EMIT_KEY and the concrete hash functions are not modelled; hashing is an arbitrary function.
- UtHash.Table.Replace: an element that is already in the table is put in again only if no other one there has its key; otherwise the search may find the other one, and the macro would link the element twice.
- HASH_SELECT: it uses a second handle in each element and does not maintain the tail of the destination.
- Lists.LLSort: the run length is an unbounded integer, while the macro doubles an `int`; a comparator is a pure function of the two nodes.
- The remaining list macros of utlist (prepending, appending and searching in singly linked and circular lists, replacing elements): they would only add easy members.
- KmpSearch.FindFrom: the starts at which the code reads in front of the text are excluded, and no others; lengths fit in `int`.
- KmpSearch.FindFromR: the starts at which the code reads behind the text are excluded, and no others.
- Threaded.Cell.Commit: all atomic operations are sequentially consistent, as their defaults are; the relaxed load of the destructor happens when no thread is inside a call. The move constructor is not modelled.
- UtArray.Vec.Reserve: the doubled capacity is unbounded, so its 32-bit wrap-around is not modelled; element constructors and destructors are left out because elements are values.
- UtArray.Vec.Inserta: inserting an array into itself at an index inside it, where the copy reads slots that were already moved or written, is excluded.
- Counters.FloorLog10: FMC_FLOORLOG2 is the mathematical floor of the binary logarithm; its value at zero is multiplied by zero in the code and plays no part.
- Sampler.PrecisionSampler.Percentile: percentages are whole numbers, and the number of samples times the percentage fits the integer conversion; `double` percentages and the conversion of the result are not modelled.
- Counters.Ewma.Sample: reading the average as a `double` is not modelled.
- The other counters (running average, minimum, maximum, log_bucket, timing records): floating point or easy members.
- NumberText.ParseSigned: `char` is taken as signed, as on the main platforms.
- NumberText.PrintSigned: the minimum of int32_t and int64_t, whose negation overflows, is excluded.
- The `double` text functions and the trimming and splitting helpers are not part of this model.
- DecNumber.ReadDeclet: the conversion tables are parameters with the properties the comments state: values in 0..999, the multiplied tables, digits 0 to 9 encoded as themselves, and a leading digit of at most 9. The 7 and 16 digit variants of the macros have the same form and are not repeated.
- LazyRemVector.LazyVector.EraseIf: the predicate is a pure function; exceptions thrown in the middle of a sweep are not modelled.
- SharedMap.Linearizable: an entry is identified with the pointer the table owns; what clients do with the pointed-to object, and handle assignment and moving, are not modelled.

# StockScanner data structures and algorithms in Dafny

This project models the self-contained algorithmic core of the StockScanner
application. Each part is proved against a specification.

- **Separate-chaining hash table** (`ChainedHashing`).
  - `HashTable<K, V>` keeps a sequence of buckets, each a sequence of
    (key, value) pairs, plus `size` and `capacity`.
  - `Insert` overwrites the value of a present key. Otherwise it appends the
    pair and doubles the table when `size / capacity` exceeds the load factor.
    `Retrieve` and `Remove` scan one bucket.
  - The dictionary the table stands for is `Get(k)`. Every operation is
    stated against it.
- **Open-addressing hash table** (`OpenAddressing`).
  - `OpenAddressingHashTable<K, V>` keeps an array of tri-state slots: empty,
    occupied, or tombstone. It probes linearly with `(h(k) + attempt) % capacity`.
  - Each operation is specified by a function on the slot vector: `PutSlots`,
    `DeleteSlots`, `Resized`, `Find`.
  - The invariant `Closed` says that the probe path to every occupied slot
    holds no empty slot. It is preserved by every operation.
  - The source's quirk is reproduced and proved. `insert` writes at the first
    empty *or deleted* slot, so a key that sits behind a tombstone gets stored
    twice, and removing the newer copy brings the older value back.
- **Binary search tree** (`BinaryTree`).
  - The tree is a datatype. The helpers are functions that return the new
    subtree, as the source's helpers do.
  - The class `BinaryTree` holds the root.
  - `Add`, `Remove` (with in-order-successor replacement), `Find`, `findMin`,
    `Maximum`, in-order traversal and `isValidBST` are proved against the
    tree's set of values and the search-tree ordering.
- **Linked stack and queue** (`StackQueue`).
  - Both are heap-allocated nodes with `prev`/`next` links. Ghost sequences
    hold the nodes and their values.
  - The proofs cover LIFO and FIFO order, the underflow error, and the printed
    order.
- **Sorting** (`SortingAnalysis`).
  - Selection sort, `merge`/`mergeSort` on an index range, and
    `heapify`/`heapSort`, all in place on `array<int>`.
  - Each is proved to produce a sorted permutation, or a sorted sub-range with
    the rest untouched.
- **Price-series functions** (`StockFunctions`).
  - `applySlidingWindow`, the recursive `detectMomentum`, and the line scan of
    `loadApiKeyFromConfig`.
  - These appear identically in `src/core/functions.cpp` and the older
    `src/functions.cpp`, and are modelled once.
- **Shared definitions** (`Common`): `Option`, the error outcome `Outcome`,
  the `Int32` range, and `INT_MIN`/`INT_MAX`.

Modelling choices:

- **Hash function.** `std::hash<KeyType>` becomes a function `K -> nat`, fixed
  when a table is built.
- **Load factor.** The `float` threshold becomes the fraction
  `loadNum / loadDen`, compared exactly: `size * loadDen > loadNum * capacity`.
  For the open-addressing table with `capacity == 0`, both sides are 0. This
  matches the C++ comparison with NaN, which is false.
- **Exceptions.** These become `Outcome` values: `Throw(OutOfRange)`,
  `Throw(CapacityZero)` and `Throw(TableFull)`.
- **Printing.** `Print` and `InorderTraverse` return the sequence of values
  they would print.
- **Element types.** Doubles that are only compared (sorts, momentum) become
  `int`.

## Model

| member | source | states |
|---|---|---|
| ChainedHashing.Lookup | src/hash_tables/hash_table.h:68-73 | the value the bucket scan returns belongs to a pair of the bucket holding the key |
| ChainedHashing.LookupNoneIff | src/hash_tables/hash_table.h:66-74 | the bucket scan finds nothing exactly when no pair of the bucket holds the key |
| ChainedHashing.LookupAt | src/hash_tables/hash_table.h:68-71 | in a bucket with unique keys, the scan for a stored key returns that pair's value |
| ChainedHashing.LookupAppend | src/hash_tables/hash_table.h:57 | appending a pair makes its key map to its value when the key was absent, and changes no other key |
| ChainedHashing.LookupReplace | src/hash_tables/hash_table.h:51-55 | overwriting a pair's value changes the lookup of that key only |
| ChainedHashing.LookupErase | src/hash_tables/hash_table.h:84-90 | erasing a pair from a bucket with unique keys makes its key absent and keeps every other key |
| ChainedHashing.FindKey | src/hash_tables/hash_table.h:51-56 | the loop stops at the first pair holding the key; it reaches the end exactly when the key is absent |
| ChainedHashing.PairCountUpdate | src/hash_tables/hash_table.h:57-58 | replacing one bucket changes the total pair count by the difference of the bucket lengths |
| ChainedHashing.PairCountPrefix | src/hash_tables/hash_table.h:30-35 | counting bucket by bucket adds each bucket's length |
| ChainedHashing.PairCountEmpty | src/hash_tables/hash_table.h:43-46 | a table of empty buckets holds no pairs |
| ChainedHashing.Find | src/hash_tables/hash_table.h:66-74 | the value found for a key belongs to a pair stored in bucket `hash(k) % capacity` |
| ChainedHashing.FindReplace | src/hash_tables/hash_table.h:51-55 | updating a value in place keeps the placement invariant, makes the key map to the new value, and keeps every other key |
| ChainedHashing.AddPair | src/hash_tables/hash_table.h:57-58 | the pair lands in bucket `hash(k) % capacity`, every other bucket is unchanged, and the total pair count grows by one |
| ChainedHashing.FindAppend | src/hash_tables/hash_table.h:57 | appending a new key to bucket `hash(k) % capacity` keeps the invariant, maps the key to its value, and keeps every other key |
| ChainedHashing.FindErase | src/hash_tables/hash_table.h:84-90 | erasing a pair keeps the invariant, removes its key, and keeps every other key |
| ChainedHashing.MovedBucket | src/hash_tables/hash_table.h:30-35 | moving past a whole bucket is moving to the next; after all buckets, the moved dictionary is the old one |
| ChainedHashing.RehashStep | src/hash_tables/hash_table.h:31-34 | moving one more pair to bucket `hash(k) % newCapacity` keeps the new table well placed and extends the moved part of the dictionary by that pair |
| ChainedHashing.HashTable.constructor | src/hash_tables/hash_table.h:43-46 | `initialCapacity` empty buckets, size 0, every key absent |
| ChainedHashing.HashTable.Insert | src/hash_tables/hash_table.h:49-63 | afterwards the key maps to the value and other keys are unchanged; a present key keeps size and capacity; a new key adds one to size and doubles capacity exactly when the new size exceeds the load factor |
| ChainedHashing.HashTable.ReplaceValue | src/hash_tables/hash_table.h:52-54 | the pair's value is overwritten in place; size and capacity are unchanged |
| ChainedHashing.HashTable.AppendPair | src/hash_tables/hash_table.h:57-58 | the pair is appended to bucket `hash(key) % capacity` and size grows by one |
| ChainedHashing.HashTable.RehashBucket | src/hash_tables/hash_table.h:31-34 | every pair of one old bucket is appended to bucket `hash(k) % newCapacity`; the pair count grows by that bucket's length |
| ChainedHashing.HashTable.Rehash | src/hash_tables/hash_table.h:27-35 | the new table of twice the capacity places every pair by `hash(k) % (2 * capacity)`, holds the same dictionary, and holds `size` pairs |
| ChainedHashing.HashTable.Resize | src/hash_tables/hash_table.h:26-39 | capacity doubles; the dictionary and size are unchanged |
| ChainedHashing.HashTable.Retrieve | src/hash_tables/hash_table.h:66-74 | the value stored under the key, or none; nothing changes |
| ChainedHashing.HashTable.Remove | src/hash_tables/hash_table.h:77-93 | returns whether the key was present; afterwards it is absent and other keys are unchanged; size drops by one on success; on failure the table is unchanged; the out-of-range throw cannot happen |
| ChainedHashing.HashTable.EraseAt | src/hash_tables/hash_table.h:87-88 | the pair is spliced out of its bucket and size drops by one |
| ChainedHashing.HashTable.GetSize | src/hash_tables/hash_table.h:97-99 | `size` is the number of stored pairs |
| ChainedHashing.HashTable.GetCapacity | src/hash_tables/hash_table.h:102-104 | `capacity` is the number of buckets and is positive |
| ChainedHashing.HashTableScenario | src/hash_tables/hash_table.h:49-93 | overwrite, growth from 2 to 4 buckets, then remove, absent retrieve and a failed second remove, on a concrete table |
| OpenAddressing.Probe | src/hash_tables/open_addressing_hash_table.h:24-29 | attempt `a` probes slot `(h + a) % capacity`, which lies in range |
| OpenAddressing.ProbeDistinct | src/hash_tables/open_addressing_hash_table.h:28 | the first `capacity` attempts probe pairwise different slots |
| OpenAddressing.AttemptTo | src/hash_tables/open_addressing_hash_table.h:28 | every slot is probed by some attempt below `capacity` |
| OpenAddressing.Live | src/hash_tables/open_addressing_hash_table.h:11-16 | the live (key, value) pairs of the occupied slots, in slot order, are at most as many as the slots |
| OpenAddressing.LiveSplit | src/hash_tables/open_addressing_hash_table.h:36-37 | the live pairs split around any slot |
| OpenAddressing.LiveUpdate | src/hash_tables/open_addressing_hash_table.h:73-74 | overwriting one slot swaps its live pairs for the new slot's, as a multiset and in number |
| OpenAddressing.LiveFull | src/hash_tables/open_addressing_hash_table.h:80-82 | the live count equals the capacity exactly when every slot is occupied |
| OpenAddressing.LiveNone | src/hash_tables/open_addressing_hash_table.h:56-59 | a vector with no occupied slot has no live pairs |
| OpenAddressing.EmptySlots | src/hash_tables/open_addressing_hash_table.h:34 | a new vector of `n` empty slots has no live pairs |
| OpenAddressing.MatchAt | src/hash_tables/open_addressing_hash_table.h:90-97 | the scan's stopping attempt holds the key, and every slot before it is a tombstone or another key |
| OpenAddressing.Find | src/hash_tables/open_addressing_hash_table.h:86-100 | a value retrieve returns is stored in an occupied slot under the key |
| OpenAddressing.FreeOrMatch | src/hash_tables/open_addressing_hash_table.h:70-80 | insert's stopping attempt is empty, a tombstone or the key, and every slot before it holds another key; none only when all `capacity` attempts hold other keys |
| OpenAddressing.FirstEmpty | src/hash_tables/open_addressing_hash_table.h:40-43 | resize's probe stops at the first empty slot; every earlier slot is filled |
| OpenAddressing.RoomMeansSlot | src/hash_tables/open_addressing_hash_table.h:80-82 | with fewer live pairs than slots, insert's scan stops, so "Hash table is full" is not thrown |
| OpenAddressing.EmptyReached | src/hash_tables/open_addressing_hash_table.h:40-43 | resize's do-while probe reaches an empty slot in a vector without tombstones that is not full |
| OpenAddressing.FillKeepsClosed | src/hash_tables/open_addressing_hash_table.h:72-73 | writing a key at the end of a filled probe path keeps every probe path free of empty slots |
| OpenAddressing.PassOverSame | src/hash_tables/open_addressing_hash_table.h:92-95 | replacing a slot the scan for `k` passes over by another such slot does not change the scan |
| OpenAddressing.AfterHole | src/hash_tables/open_addressing_hash_table.h:92-93 | past a slot that was empty, the key's scan finds nothing |
| OpenAddressing.FillHoleSame | src/hash_tables/open_addressing_hash_table.h:72-73 | filling an empty slot with something the scan for `k` passes over leaves that scan's result unchanged |
| OpenAddressing.FindFromMatch | src/hash_tables/open_addressing_hash_table.h:94-95 | an unchanged stopping attempt and a slot passed over give the same retrieved value |
| OpenAddressing.PutSlots | src/hash_tables/open_addressing_hash_table.h:67-82 | the slots after insert's probe loop: same length, and the only slot that can change now holds the inserted pair |
| OpenAddressing.PutFindsFrom | src/hash_tables/open_addressing_hash_table.h:72-78 | after the write, the scan for the key from any attempt up to the written one returns the new value |
| OpenAddressing.PutFinds | src/hash_tables/open_addressing_hash_table.h:70-78 | after insert writes, retrieve of the key returns the new value |
| OpenAddressing.PutKeepsOthers | src/hash_tables/open_addressing_hash_table.h:70-78 | insert does not change what retrieve returns for any other key |
| OpenAddressing.PutKeepsClosed | src/hash_tables/open_addressing_hash_table.h:70-78 | insert keeps every probe path free of empty slots |
| OpenAddressing.PutCounts | src/hash_tables/open_addressing_hash_table.h:72-78 | writing over an empty slot or a tombstone adds one live pair; overwriting the key keeps the count |
| OpenAddressing.DuplicateBehindTombstone | src/hash_tables/open_addressing_hash_table.h:72-75 | with a tombstone before the key's slot, insert writes a second copy at the tombstone, keeps the old copy, and the live count grows by one |
| OpenAddressing.DeleteSlots | src/hash_tables/open_addressing_hash_table.h:103-120 | the slots after remove's probe loop: same length, and the only slot that can change held the key and is now a tombstone |
| OpenAddressing.DeleteKeepsOthers | src/hash_tables/open_addressing_hash_table.h:111-115 | tombstoning a slot does not change what retrieve returns for any other key |
| OpenAddressing.DeleteKeepsClosed | src/hash_tables/open_addressing_hash_table.h:111-113 | a tombstone keeps every probe path free of empty slots |
| OpenAddressing.DeleteCounts | src/hash_tables/open_addressing_hash_table.h:111-115 | remove drops the live count by one exactly when the scan finds the key |
| OpenAddressing.DeleteUniqueGone | src/hash_tables/open_addressing_hash_table.h:103-120 | when the key is stored at most once, it is absent after remove |
| OpenAddressing.Place | src/hash_tables/open_addressing_hash_table.h:38-45 | one entry of resize's copy: same length, and the only slot that can change was empty and now holds the entry |
| OpenAddressing.Rehash | src/hash_tables/open_addressing_hash_table.h:36-47 | resize's copy loop from a given old slot on keeps the new vector's length and never overwrites a slot already filled; RehashProps states the pairs it adds |
| OpenAddressing.Resized | src/hash_tables/open_addressing_hash_table.h:32-51 | the vector resize builds has twice as many slots; ResizedProps states its live pairs and invariant |
| OpenAddressing.PlaceProps | src/hash_tables/open_addressing_hash_table.h:38-45 | placing an entry at the first empty slot of its probe path adds exactly that pair, keeps paths closed, and leaves no tombstones |
| OpenAddressing.RehashProps | src/hash_tables/open_addressing_hash_table.h:36-47 | copying the remaining slots adds exactly their live pairs, keeps paths closed, and leaves no tombstones |
| OpenAddressing.ResizedProps | src/hash_tables/open_addressing_hash_table.h:32-51 | the resized vector has no tombstones, closed paths, and the same live pairs as a multiset and in number |
| OpenAddressing.SlotIsLive | src/hash_tables/open_addressing_hash_table.h:37 | the pair of every occupied slot is live |
| OpenAddressing.LiveHasSlot | src/hash_tables/open_addressing_hash_table.h:37 | every live pair sits in an occupied slot |
| OpenAddressing.FoundOnPath | src/hash_tables/open_addressing_hash_table.h:90-97 | a scan along a path without empty slots, ending at a slot that holds the key, finds the key |
| OpenAddressing.FindIffLive | src/hash_tables/open_addressing_hash_table.h:86-100 | in a closed vector, retrieve finds a value exactly for keys that have a live pair, and the value it finds is one of that key's live pairs |
| OpenAddressing.ResizedKeepsFind | src/hash_tables/open_addressing_hash_table.h:32-51 | when no key has two different live values, retrieve gives the same answer for every key after resize |
| OpenAddressing.LoadBelowOne | src/hash_tables/open_addressing_hash_table.h:63-65 | with a load factor below one and no resize triggered, there are fewer live pairs than slots |
| OpenAddressing.PlaceEntry | src/hash_tables/open_addressing_hash_table.h:38-45 | the do-while probe writes the entry at the first empty slot of its probe path |
| OpenAddressing.OpenAddressingHashTable.constructor | src/hash_tables/open_addressing_hash_table.h:56-59 | `initialCapacity` empty slots, zero allowed, size 0, every key absent |
| OpenAddressing.OpenAddressingHashTable.Locate | src/hash_tables/open_addressing_hash_table.h:90-97 | the shared probe loop of retrieve and remove stops where the scan specification stops |
| OpenAddressing.OpenAddressingHashTable.Retrieve | src/hash_tables/open_addressing_hash_table.h:86-100 | capacity 0 throws the logic error; otherwise the value found by the scan; nothing changes |
| OpenAddressing.OpenAddressingHashTable.Store | src/hash_tables/open_addressing_hash_table.h:67-82 | the probe loop writes at the first empty, deleted or matching slot, or throws "full"; on success the key maps to the value; other keys are unchanged |
| OpenAddressing.OpenAddressingHashTable.RehashSlots | src/hash_tables/open_addressing_hash_table.h:33-47 | the copy loop builds a fresh vector equal to the resized one |
| OpenAddressing.OpenAddressingHashTable.Resize | src/hash_tables/open_addressing_hash_table.h:32-51 | capacity doubles, size is unchanged, and the slots are the resized vector; when no key has two different live values, every key keeps its value |
| OpenAddressing.OpenAddressingHashTable.Insert | src/hash_tables/open_addressing_hash_table.h:62-83 | the resize test runs on the live size before probing; capacity 0 throws the logic error; on success retrieve gives the value; other keys keep their values unless a resize meets a key with two different live values; below a load factor of one the table is never full |
| OpenAddressing.OpenAddressingHashTable.Remove | src/hash_tables/open_addressing_hash_table.h:103-120 | capacity 0 throws; otherwise returns whether the scan found the key; the found slot becomes a tombstone and size drops by one; a miss changes nothing; other keys are unchanged |
| OpenAddressing.OpenAddressingHashTable.GetSize | src/hash_tables/open_addressing_hash_table.h:123-125 | the number of live pairs, duplicates included, at most the capacity |
| OpenAddressing.OpenAddressingHashTable.GetCapacity | src/hash_tables/open_addressing_hash_table.h:128-130 | the number of slots |
| OpenAddressing.ScenarioInserts | src/hash_tables/open_addressing_hash_table.h:70-79 | on a concrete 4-slot vector, key 5 probes past key 1 into the next slot |
| OpenAddressing.ScenarioDuplicate | src/hash_tables/open_addressing_hash_table.h:72-75 | after removing key 1, inserting 5 again reuses the tombstone while the old 5 stays |
| OpenAddressing.ScenarioStale | src/hash_tables/open_addressing_hash_table.h:92-95 | retrieve finds the newer copy; once that is removed, it finds the stale one |
| OpenAddressing.DuplicateScenario | src/hash_tables/open_addressing_hash_table.h:62-120 | the duplicate quirk end to end on the class: retrieve gives 51, size counts 2, and after a remove retrieve gives the stale 50 |
| BinaryTree.AddHelper | src/binary_tree/binary_tree.cpp:27-38 | the values become the old ones plus the new value; the search-tree order is kept |
| BinaryTree.AddExistingIsNoOp | src/binary_tree/binary_tree.cpp:32-37 | adding a value already in a search tree leaves the tree unchanged |
| BinaryTree.FindHelper | src/binary_tree/binary_tree.cpp:92-99 | the node returned holds the value and belongs to the tree, or there is none |
| BinaryTree.FindIffMember | src/binary_tree/binary_tree.cpp:92-99 | in a search tree, the search finds a node exactly when the value is in the tree |
| BinaryTree.Leftmost | src/binary_tree/binary_tree.cpp:78-84 | the node findMin stops at has no left child, and its subtree is part of the tree |
| BinaryTree.LeftmostIsMinimum | src/binary_tree/binary_tree.cpp:78-84 | the leftmost node has no left child, belongs to the tree, and holds its minimum in a search tree |
| BinaryTree.FindMin | src/binary_tree/binary_tree.cpp:78-84 | the loop returns null for an empty tree and otherwise the leftmost node |
| BinaryTree.RemoveHelper | src/binary_tree/binary_tree.cpp:46-75 | on a search tree, the values become the old ones minus the value and the order is kept; an absent value changes nothing |
| BinaryTree.TwoChildrenTakeSuccessor | src/binary_tree/binary_tree.cpp:67-71 | a node with two children takes the minimum of its right subtree, which is removed from that subtree |
| BinaryTree.Inorder | src/binary_tree/binary_tree.cpp:121-127 | the traversal lists exactly the values of the tree |
| BinaryTree.InorderAscending | src/binary_tree/binary_tree.cpp:121-127 | the in-order sequence of a search tree is strictly ascending and holds exactly its values |
| BinaryTree.IsValidBSTHelper | src/binary_tree/binary_tree.cpp:133-138 | an accepted tree has every value strictly between the bounds |
| BinaryTree.IsValidBST | src/binary_tree/binary_tree.cpp:129-131 | an accepted tree holds neither INT_MIN nor INT_MAX |
| BinaryTree.ValidHelperIffBounded | src/binary_tree/binary_tree.cpp:133-138 | the check holds exactly when the tree is ordered and all values lie strictly between the bounds |
| BinaryTree.ValidIffNoIntBounds | src/binary_tree/binary_tree.cpp:129-131 | `isValidBST` holds exactly for search trees holding neither INT_MIN nor INT_MAX |
| BinaryTree.BinaryTree.constructor | src/binary_tree/binary_tree.cpp:5 | the tree starts empty |
| BinaryTree.BinaryTree.Add | src/binary_tree/binary_tree.cpp:22-24 | the value set grows by the value; order and validity are kept; an existing value changes nothing |
| BinaryTree.BinaryTree.Remove | src/binary_tree/binary_tree.cpp:41-43 | the value set loses the value; order and validity are kept; an absent value changes nothing |
| BinaryTree.BinaryTree.Find | src/binary_tree/binary_tree.cpp:87-89 | on a search tree, true exactly when the value is stored |
| BinaryTree.BinaryTree.Maximum | src/binary_tree/binary_tree.cpp:102-112 | an empty tree throws out_of_range; otherwise a stored value that, in a search tree, is at least every stored value |
| BinaryTree.BinaryTree.InorderTraverse | src/binary_tree/binary_tree.cpp:115-127 | the printed values are strictly ascending and are exactly the stored values |
| BinaryTree.BinaryTree.IsValid | src/binary_tree/binary_tree.cpp:129-131 | true exactly when the tree is ordered and holds only values strictly inside the int range |
| BinaryTree.TwoChildrenTreeBuilt | tests/BinaryTreeFunctionalityTests.cpp:85-91 | the five inserts of the test build the expected tree |
| BinaryTree.TwoChildrenTreeRemoved | tests/BinaryTreeFunctionalityTests.cpp:93-99 | removing 20 puts its successor 25 in its place; in-order gives 5, 10, 15, 25 |
| BinaryTree.RemoveWithTwoChildrenScenario | tests/BinaryTreeFunctionalityTests.cpp:85-100 | after the removal, 20 is gone and 15, 25, 10, 5 remain, in ascending order |
| StackQueue.ListNode.constructor | src/linked_lists/stack_queue.h:6-14 | a node holds its value and no links |
| StackQueue.Stack.constructor | src/linked_lists/stack_queue.cpp:5 | the stack starts empty |
| StackQueue.Stack.Insert | src/linked_lists/stack_queue.cpp:17-22 | the value becomes the new top and size grows by one |
| StackQueue.Stack.Remove | src/linked_lists/stack_queue.cpp:25-35 | an empty stack throws out_of_range and is unchanged; otherwise the top value is returned and removed and size drops by one |
| StackQueue.Stack.Print | src/linked_lists/stack_queue.cpp:38-46 | the values from top to bottom |
| StackQueue.Stack.GetSize | src/linked_lists/stack_queue.h:36 | `size` is the number of linked values |
| StackQueue.Queue.constructor | src/linked_lists/stack_queue.cpp:51 | the queue starts empty |
| StackQueue.Queue.FrontNullIffRearNull | src/linked_lists/stack_queue.cpp:63-91 | `front` is null exactly when `rear` is, and exactly when the queue is empty |
| StackQueue.Queue.Insert | src/linked_lists/stack_queue.cpp:63-73 | the value is appended at the rear and size grows by one; on an empty queue front and rear become the new node |
| StackQueue.Queue.Remove | src/linked_lists/stack_queue.cpp:76-91 | an empty queue throws out_of_range; otherwise the front value is returned and removed, size drops by one, and rear is cleared when the queue empties |
| StackQueue.Queue.Print | src/linked_lists/stack_queue.cpp:94-102 | the values from front to rear |
| StackQueue.Queue.GetSize | src/linked_lists/stack_queue.h:60 | `size` is the number of linked values |
| StackQueue.StackScenario | tests/StackQueueTests.cpp:11-36 | the stack test: prints 30 20 10, removes 30, 20, 10, size 0, then underflow |
| StackQueue.QueueScenario | tests/StackQueueTests.cpp:39-64 | the queue test: prints 10 20 30, removes 10, 20, 30, size 0, then underflow |
| SortingAnalysis.IsSortedIffSortedPairs | tests/test_helpers.cpp:63-65 | no adjacent pair out of order is the same as every pair being in order, so duplicates are allowed |
| SortingAnalysis.Swap | src/sorting/sorting_analysis.cpp:20 | `std::swap` exchanges two elements and keeps the multiset |
| SortingAnalysis.SelectionSort | src/sorting/sorting_analysis.cpp:9-22 | the array ends sorted and a permutation of the input |
| SortingAnalysis.MergeSeq | src/sorting/sorting_analysis.cpp:42-63 | the merge of two runs has their combined length |
| SortingAnalysis.ConsMultiset | src/sorting/sorting_analysis.cpp:43-48 | taking the next element from either run keeps the multiset balance |
| SortingAnalysis.MergeSeqPermutes | src/sorting/sorting_analysis.cpp:42-63 | the merge is a permutation of the two runs together |
| SortingAnalysis.MergeSeqSorted | src/sorting/sorting_analysis.cpp:42-63 | merging sorted runs gives a sorted sequence that starts with the smaller head |
| SortingAnalysis.MergeFrom | src/sorting/sorting_analysis.cpp:40-63 | the merge still to be written from positions `i`, `j` has the remaining length |
| SortingAnalysis.MergeFromIsMergeSeq | src/sorting/sorting_analysis.cpp:40-63 | the remaining merge is the merge of the remaining runs |
| SortingAnalysis.MergeStepLeft | src/sorting/sorting_analysis.cpp:43-45 | when `L[i] <= R[j]` the next merged element is `L[i]` |
| SortingAnalysis.MergeStepRight | src/sorting/sorting_analysis.cpp:46-48 | otherwise the next merged element is `R[j]` |
| SortingAnalysis.MergeExhausted | src/sorting/sorting_analysis.cpp:53-63 | once one run is exhausted, the rest of the merge is the rest of the other run |
| SortingAnalysis.MergeRuns | src/sorting/sorting_analysis.cpp:40-51 | the main loop writes the merge's prefix until one run is exhausted, and nothing else |
| SortingAnalysis.CopyRun | src/sorting/sorting_analysis.cpp:53-63 | a tail loop copies the rest of one run, and nothing else |
| SortingAnalysis.Merge | src/sorting/sorting_analysis.cpp:24-64 | a no-op when an index is out of range; otherwise `[left..right]` becomes the merge of the two runs and nothing else changes |
| SortingAnalysis.SpliceMultiset | src/sorting/sorting_analysis.cpp:24-64 | permuting a sub-range permutes the whole array |
| SortingAnalysis.SliceIsMerge | src/sorting/sorting_analysis.cpp:24-64 | a range written element by element with the merge equals the merge |
| SortingAnalysis.MergeSortCombine | src/sorting/sorting_analysis.cpp:66-73 | sorting both halves and merging them sorts the range and permutes the array |
| SortingAnalysis.MergedRunsPermute | src/sorting/sorting_analysis.cpp:72 | replacing a range by the merge of its halves permutes the array |
| SortingAnalysis.MergeSort | src/sorting/sorting_analysis.cpp:66-73 | `[left..right]` ends sorted, the array is a permutation of the input, and nothing outside the range changes; an empty array or `left >= right` changes nothing |
| SortingAnalysis.MergeSortAll | src/sorting/sorting_analysis.cpp:167 | the driver's call on the whole vector sorts it as a permutation, including the empty vector |
| SortingAnalysis.HeapRootIsMax | src/sorting/sorting_analysis.cpp:94-110 | the root of a max-heap is its largest element |
| SortingAnalysis.SiftDownStep | src/sorting/sorting_analysis.cpp:80-90 | swapping a node with its larger child moves the single heap violation down to that child |
| SortingAnalysis.SwapKeepsPrefixMultiset | src/sorting/sorting_analysis.cpp:89 | a swap inside the heap range permutes that range |
| SortingAnalysis.Heapify | src/sorting/sorting_analysis.cpp:75-92 | when only node `i` may violate the heap order, the range becomes a max-heap, permuted only within `[0..n)`, with nothing outside touched |
| SortingAnalysis.PermutationBounded | src/sorting/sorting_analysis.cpp:106-109 | a bound on every element holds for every permutation |
| SortingAnalysis.BuildHeap | src/sorting/sorting_analysis.cpp:100-103 | the first loop makes the whole array a max-heap and permutes it |
| SortingAnalysis.HeapSort | src/sorting/sorting_analysis.cpp:94-110 | the array ends sorted and a permutation of the input; size at most one changes nothing |
| SortingAnalysis.ExtractMax | src/sorting/sorting_analysis.cpp:106-109 | moving the root behind the heap and sifting down grows the sorted tail by one and keeps a heap before it |
| SortingAnalysis.RootSwapPrepares | src/sorting/sorting_analysis.cpp:107 | swapping the root with the last heap element leaves only the root violating the heap order and extends the sorted tail |
| SortingAnalysis.SortedTailKept | src/sorting/sorting_analysis.cpp:108 | permuting only the heap part keeps the sorted tail sorted |
| StockFunctions.ApplySlidingWindow | src/core/functions.cpp:156-162 | the result has length min(windowSize, length) and is the suffix of that length |
| StockFunctions.WindowCoversAll | src/core/functions.cpp:157-159 | a window at least as long as the series returns it unchanged |
| StockFunctions.WindowElements | src/functions.cpp:140 | a shorter window is the last `windowSize` elements in their order |
| StockFunctions.NextTrend | src/core/functions.cpp:171-176 | the new counter is never zero, and it is positive exactly when the pair rose |
| StockFunctions.DetectMomentum | src/core/functions.cpp:165-180 | a true answer with at least one pair left to examine means the series' final pair rose |
| StockFunctions.MomentumFrom | src/core/functions.cpp:165-180 | from index `i` with a counter between `-i` and `i`, the answer is true exactly when the counter equals `i` and every remaining pair strictly rises |
| StockFunctions.MomentumIffStrictlyIncreasing | src/functions.cpp:144-159 | from index 0 and counter 0, momentum holds exactly when the non-empty series strictly increases |
| StockFunctions.MomentumCarriesTrend | src/core/functions.cpp:171-179 | each recursive call carries the counter computed over the pairs already seen |
| StockFunctions.TrendIsSignedRun | src/core/functions.cpp:171-176 | the counter is the length of the current run, positive when rising and negative otherwise |
| StockFunctions.WindowedSeriesHasMomentum | tests/StockScannerTests.cpp:141-148 | the window of 4 over 100, 105, 102, 108, 110, 112 is 102, 108, 110, 112, which has momentum |
| StockFunctions.ScanApiKey | src/core/functions.cpp:36-41 | the text after the 14-character prefix on the first line starting with `STOCK_API_KEY=`, else the empty string |

## Left out

- I/O is not modelled. This covers the curl/JSON download (`loadStockData`,
  `WriteCallback`), the reading of the configuration file (`ScanApiKey` takes
  its lines), SQLite persistence, the menus and `main`, and console output.
  Printing functions return the sequence they would print.
- Floating-point numerics (`calculateAveragePrice`, `checkThreshold`) are not
  modelled.
- Timing and random test data (`measureSortingPerformance`,
  `runSortingAnalysis`, the performance tests) are not modelled.
- Destructors and `BinaryTree::clear` free memory. This has no counterpart in
  Dafny.
- `countingSort` is called by the repository's test suite but is defined in
  no source file. It is not part of this model.
- Hash tables: the `float` rounding of `size / capacity` is not modelled. The
  load test is exact rational arithmetic.
- Hash tables: `std::hash` is an arbitrary function fixed per table. The
  `size_t` wrap-around of `h(k) + attempt` is not modelled; hash values are
  unbounded naturals.
- Sizes and counters are unbounded; `size_t`/`int` overflow is not modelled.
  For example, the stack's `size` and the recursion counter of `detectMomentum`
  are unbounded.
- ChainedHashing.HashTable.constructor: requires `initialCapacity > 0`. With
  zero buckets, every operation's `% capacity` divides by zero, which is
  undefined behaviour in C++.
- OpenAddressing.Slot: a tombstone carries no key or value. The source keeps
  them, but no code reads a deleted entry's key or value.
- OpenAddressing.OpenAddressingHashTable.Insert: when a resize runs, its
  guarantee that other keys keep their values is stated only for tables where
  no key has two different live values. The tombstone quirk can store a key
  twice with different values. Resize copies slots in order, which can put the
  older copy first on the new probe path. The resize itself is specified
  exactly (`Resized`) and keeps every live pair, as a multiset.
- OpenAddressing.OpenAddressingHashTable.Locate: `retrieve` and `remove` have
  identical probe loops. They are modelled by this one shared method.
- ChainedHashing.HashTable.constructor: the default arguments `16` and
  `0.75f` are not modelled; callers pass the capacity and threshold. The
  threshold is a non-negative fraction (`loadNum: nat`). A negative `float`
  threshold would make every insert of a new key resize, which the model
  cannot express.
- OpenAddressing.OpenAddressingHashTable.constructor: the default arguments
  `16` and `0.75f` are not modelled, and the threshold is a non-negative
  fraction. With a negative `float` threshold, the first insert into an empty
  table with capacity above zero would resize, because `0 > loadFactor`
  holds; the model cannot produce that.
- StockFunctions.DetectMomentum: requires a non-empty series. On an empty
  series the source's unsigned `prices.size() - 1` wraps around and the call
  reads out of range.
- SortingAnalysis.Merge: requires `left <= mid + 1` and `mid <= right` once
  all three indices are in range. In the source, out-of-order indices make
  the unsigned lengths `mid - left + 1` or `right - mid` wrap around, and
  constructing the buffers `L` or `R` then throws `std::length_error`. That
  exception path is not modelled. The only caller, `mergeSort`, always passes
  `left <= mid < right`.

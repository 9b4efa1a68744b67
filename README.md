# CTL containers and the spell checker, modelled in Dafny

This project models the C++ repository's spell checker and the CTL container
library beneath it:

- **`CTL::HashTable<K, V>`** (module `Hashing`, `hashtable.dfy`) is a chained
  hash table. Keys go to the bucket chosen by a base-31 Horner hash. `insert`
  overwrites a present key in place or appends a new entry, and `resize`
  doubles the bucket count once the integer load factor `elements /
  hash_groups` reaches 3. The class keeps its bucket vector as a
  `seq<seq<Entry<V>>>` and the key-to-value map it represents as a ghost
  `map`. Its invariant (`Represents`) says:
  - every entry sits in its hashed bucket;
  - no bucket holds a key twice;
  - `elements` is the sum of the bucket lengths and the size of the map;
  - `elements < 3 * hash_groups`.
- **The spell-check pipeline** of `SpellChecker.cpp` (module `SpellChecker`, `spell_checker.dfy`):
  - `levenshtein_distance` fills a 2-D array, proved equal to a recursive
    edit distance `Distance`. That distance is proved to be zero exactly on
    equal words, symmetric, and bounded by the length difference and the
    longer length.
  - `spell_check` is proved to return exactly the whitespace-separated
    tokens of the text that the dictionary does not map to `true`, in order.
  - `suggest_corrections` is proved to return, per misspelled word, the first
    key at strictly smallest distance in `get_table()` order, when that
    distance is at most 2 and the key is non-empty.
- **Sorting and searching** on arrays of `int` (modules `Sorting`, `Searching`):
  - insertion, selection, merge and Lomuto quick sort work in place;
  - each leaves its range sorted and a permutation of its input, and leaves
    every other cell unchanged;
  - linear and binary search.
- **`CTL::Queue<T>`** (module `Queues`) is a ring buffer with `-1` sentinels
  for `front` and `rear`. It is proved to be a FIFO over the ghost window
  between them.
- **`CTL::Stack<T>`** (module `Stacks`) is a bounded array stack, proved to be LIFO.
- **`CTL::SinglyLinkedList<T>` and `CTL::DoublyLinkedList<T>`** (modules
  `SinglyLinked`, `DoublyLinked`):
  - node classes with `next` (and `prev`) fields, walked link by link in loops;
  - the list's ghost `Nodes` sequence lists its nodes in link order, and its
    ghost `Contents` their data;
  - module `Positions` defines what a positional insert, read and delete does
    to the sequence of elements, including the source's behaviour on
    positions past the end and on negative positions. Both lists are proved
    against it, except that the doubly linked list's positional delete
    excludes negative positions (see "Left out").

`T()` / `V()`, the value-initialised element the C++ code returns on a miss,
is a constructor argument kept as the constant `Default`. The
`std::function` strategies that the lists' `search` and `sort` receive are
Dafny function values over the copied-out contents.

`horner_hash` declares a default modulus of `10^9 + 9`
(hashtable.hpp:27-28), but every call passes `hash_groups` or the new bucket
count (hashtable.cpp:36, 51, 75, 89), so the hash reduces by the bucket count
at every step. `HornerIsPolyMod` shows that this equals the unreduced base-31
polynomial of the character codes modulo the bucket count. The refusal of an
empty dictionary lives only in `main` (SpellChecker.cpp:254-257), so
`SpellCheck` and `SuggestCorrections` accept any dictionary. On an empty one
`SpellCheck` flags every token (`UnknownMembers`) and `SuggestCorrections`
returns no pairs (`CorrectionsFromNothing`).

## Model

| member | source | states |
|---|---|---|
| Hashing.Horner | CTL/src/hashtable/hashtable.cpp:17-25 | the hash of a key is a bucket index, below the modulus |
| Hashing.HornerIsPolyMod | CTL/src/hashtable/hashtable.cpp:17-25 | reducing at every step gives the base-31 polynomial of the character codes reduced once by the bucket count |
| Hashing.HornerHash | CTL/src/hashtable/hashtable.cpp:17-25 | the loop computes the Horner hash of the key and it lies in [0, m) |
| Hashing.IndexOf | CTL/src/hashtable/hashtable.cpp:57-62 | the bucket scan finds the first entry with the key, or -1 exactly when no entry has it |
| Hashing.FindKey | CTL/src/hashtable/hashtable.cpp:78-84 | the loop over a bucket stops at the first entry with the key, and reports -1 when there is none |
| Hashing.PlaceBucket | CTL/src/hashtable/hashtable.cpp:35-38 | appending one old bucket's entries to the new table keeps every new bucket equal to the entries seen so far that hash to it, in scan order, and adds the bucket's length to the entry count |
| Hashing.Rehash | CTL/src/hashtable/hashtable.cpp:32-39 | the new table has one bucket per new slot, each holding exactly the old entries that hash to it, in their old scan order, and as many entries as the old table |
| Hashing.RehashPreserves | CTL/src/hashtable/hashtable.cpp:32-42 | the rehashed table under the doubled bucket count represents the same map with the same entry count |
| Hashing.LookupScan | CTL/src/hashtable/hashtable.cpp:34-39 | a key's entry in the scan of all buckets is its entry in its hashed bucket |
| Hashing.LookupSelect | CTL/src/hashtable/hashtable.cpp:36-37 | choosing a new bucket's entries from the scan keeps every key that hashes there |
| Hashing.ScanNoDup | CTL/src/hashtable/hashtable.cpp:34-39 | when buckets are placed and duplicate-free, the scan of the table holds no key twice |
| Hashing.SelectNoDup | CTL/src/hashtable/hashtable.cpp:36-37 | each new bucket chosen from a duplicate-free scan is duplicate-free |
| Hashing.SumLengthsIsScanLength | CTL/src/hashtable/hashtable.cpp:34-39 | the entry count of a table is the length of its scan |
| Hashing.SumLengthsUpdate | CTL/src/hashtable/hashtable.cpp:65-66 | replacing one bucket changes the entry count by the difference in its length |
| Hashing.LoadFactorBelow3 | CTL/src/hashtable/hashtable.cpp:29 | the integer load-factor test elements / hash_groups < 3 is exactly elements < 3 * hash_groups |
| Hashing.PresentIffFound | CTL/src/hashtable/hashtable.cpp:57-62 | a key is in the represented map exactly when its bucket scan finds it |
| Hashing.OverwriteKeeps | CTL/src/hashtable/hashtable.cpp:57-62 | overwriting the value of the found entry keeps the invariant, the entry count and the map with the key updated |
| Hashing.AppendKeeps | CTL/src/hashtable/hashtable.cpp:65-66 | appending a new key to its bucket keeps the invariant, with one more entry and the key added to the map |
| Hashing.EraseKeeps | CTL/src/hashtable/hashtable.cpp:78-84 | erasing the found entry keeps the invariant, with one entry fewer and the key removed from the map |
| Hashing.LookupErased | CTL/src/hashtable/hashtable.cpp:80 | erasing the entry at i from a duplicate-free bucket removes exactly that key |
| Hashing.LookupOverwrite | CTL/src/hashtable/hashtable.cpp:59 | overwriting the value at the first entry of a key changes only that key's lookup |
| Hashing.HashTable.constructor | CTL/src/hashtable/hashtable.cpp:46-47 | a new table has hash_groups empty buckets, no entries and represents the empty map |
| Hashing.HashTable.Resize | CTL/src/hashtable/hashtable.cpp:28-43 | no change below load factor 3; otherwise exactly double the buckets, rehashed in scan order; map and count kept, and afterwards elements < 3 * hash_groups |
| Hashing.HashTable.Insert | CTL/src/hashtable/hashtable.cpp:50-71 | returns (key, value) whichever path runs; the map gains key -> value; a present key is overwritten in place with everything else unchanged; a new key is appended to its bucket, elements grows by 1 and resize runs |
| Hashing.HashTable.Append | CTL/src/hashtable/hashtable.cpp:65-68 | the new-key path appends (key, value) to the end of its bucket, adds one entry, then resizes exactly when the new load factor reaches 3 |
| Hashing.HashTable.Install | CTL/src/hashtable/hashtable.cpp:59-66 | the fields take the updated buckets, count and map together, and the invariant holds |
| Hashing.HashTable.Remove | CTL/src/hashtable/hashtable.cpp:74-85 | a present key's one entry is erased and elements drops by 1; an absent key changes nothing; the map loses the key |
| Hashing.HashTable.Get | CTL/src/hashtable/hashtable.cpp:88-100 | returns the value the map holds for the key, or V() when it holds none |
| Hashing.HashTable.Empty | CTL/src/hashtable/hashtable.cpp:103-105 | true exactly when the table represents the empty map, that is when elements is 0 |
| Hashing.HashTable.GetTable | CTL/src/hashtable/hashtable.cpp:108-110 | the copy has hash_groups buckets whose scan holds every key of the map once, with its value |
| SpellChecker.DistanceCell | SpellChecker.cpp:60-66 | each cell of the table is the edit distance of the two prefixes, by the copy-the-diagonal or one-plus-minimum rule |
| SpellChecker.LevenshteinDistance | SpellChecker.cpp:42-73 | the bottom-right cell of the filled table is the edit distance of the two words |
| SpellChecker.FillRow | SpellChecker.cpp:59-67 | the inner loop fills row i with the edit distances of word1's first i characters to every prefix of word2 and leaves the other rows alone |
| SpellChecker.DistanceSelf | SpellChecker.cpp:60-61 | a word is at distance 0 from itself |
| SpellChecker.DistanceZeroMeansEqual | SpellChecker.cpp:58-72 | distance 0 only between equal words |
| SpellChecker.DistanceSymmetric | SpellChecker.cpp:58-72 | the distance does not depend on the order of the words |
| SpellChecker.DistanceBounds | SpellChecker.cpp:50-72 | the distance is at least the length difference and at most the longer length, so it is the other word's length when one word is empty |
| SpellChecker.KittenSitting | SpellChecker.cpp:32-41 | the distance the documented algorithm computes between "kitten" and "sitting" is the textbook 3 |
| SpellChecker.KittenSittingShape | SpellChecker.cpp:42-73 | the table for any two words spelled in the pattern of "kitten" and "sitting" ends in 3 |
| SpellChecker.WordLength | SpellChecker.cpp:138 | the length of the run of non-space characters at the start of the text, ended by a space or the end |
| SpellChecker.TokensAreWords | SpellChecker.cpp:136-138 | every token the stream yields is non-empty and contains no whitespace |
| SpellChecker.TokensOfWordThen | SpellChecker.cpp:136-138 | a word followed by whitespace or the end is read as that word, then the rest |
| SpellChecker.TokensOfUnwords | SpellChecker.cpp:136-138 | joining whitespace-free words with spaces and reading them back gives the same words |
| SpellChecker.TokensSkipSpace | SpellChecker.cpp:138 | the stream skips a whitespace character in front of the rest |
| SpellChecker.TokensTakeWord | SpellChecker.cpp:138 | a whole word in front of the rest is extracted first |
| SpellChecker.WordEnd | SpellChecker.cpp:138 | the scan for a word stops at the first whitespace character or at the end |
| SpellChecker.CheckWord | SpellChecker.cpp:139-141 | the word is appended exactly when the dictionary does not map it to true |
| SpellChecker.SpellCheck | SpellChecker.cpp:130-145 | the result is the text's tokens, in order and with duplicates, that the dictionary does not map to true |
| SpellChecker.UnknownMembers | SpellChecker.cpp:138-142 | no more words are flagged than there are tokens, and a word is flagged exactly when it is a token that is not known |
| SpellChecker.AllTrueUnknownMeansAbsent | SpellChecker.cpp:139 | when every stored value is true, a token is flagged exactly when it is not a key |
| SpellChecker.UnknownSnoc | SpellChecker.cpp:138-142 | one more token extends the flagged words by that token exactly when it is not known |
| SpellChecker.BestIsFirstMinimum | SpellChecker.cpp:168-177 | the candidate is the first entry in scan order at the smallest distance, strictly below every earlier one |
| SpellChecker.BestOfNothing | SpellChecker.cpp:165-166 | with no entries there is no candidate and no suggestion |
| SpellChecker.ScanBucket | SpellChecker.cpp:169-177 | scanning one bucket moves the best match and distance to the candidate over the entries seen so far |
| SpellChecker.ClosestKey | SpellChecker.cpp:165-178 | the nested scan over get_table() ends at the candidate over all its entries, with best_match empty when none was seen |
| SpellChecker.SuggestFor | SpellChecker.cpp:165-182 | a word gets a pair with the candidate exactly when its distance is at most 2 and the key is non-empty |
| SpellChecker.SuggestionIsClosestKey | SpellChecker.cpp:168-182 | an emitted suggestion is a non-empty key of the dictionary within distance 2, no farther than any other key |
| SpellChecker.CorrectionsOver | SpellChecker.cpp:164-183 | the loop over misspelled words emits each word's suggestion in input order |
| SpellChecker.SuggestCorrections | SpellChecker.cpp:159-186 | the corrections are each misspelled word's suggestion over the scan of get_table(), in input order |
| SpellChecker.CorrectionsAppend | SpellChecker.cpp:164-183 | the corrections of two lists of words are the corrections of each, one after the other |
| SpellChecker.CorrectionsShape | SpellChecker.cpp:164-183 | at most one pair per word, and each pair starts with one of the input words |
| SpellChecker.CorrectionsFromNothing | SpellChecker.cpp:165-182 | an empty dictionary yields no corrections |
| Sorting.InsertionSort | CTL/src/algorithms/sort.cpp:15-27 | arr[0..size) ends sorted and a permutation of its input; the rest of the array is unchanged |
| Sorting.InsertOne | CTL/src/algorithms/sort.cpp:17-25 | one outer step extends the sorted prefix by one element without changing the multiset |
| Sorting.ShiftGreater | CTL/src/algorithms/sort.cpp:19-23 | the inner loop shifts the larger elements of the prefix one cell right and stops at an element <= current or at -1 |
| Sorting.ShiftedInsertion | CTL/src/algorithms/sort.cpp:19-25 | putting current in the gap after the shift leaves the prefix sorted and the range a permutation |
| Sorting.InsertKeepsSorted | CTL/src/algorithms/sort.cpp:25 | inserting a value after the last element not greater than it keeps a sorted sequence sorted |
| Sorting.SelectionSort | CTL/src/algorithms/sort.cpp:30-46 | arr[0..size) ends sorted and a permutation of its input; the rest of the array is unchanged |
| Sorting.SelectOne | CTL/src/algorithms/sort.cpp:32-44 | after outer step i the first i + 1 cells hold the smallest elements in order, and the range is a permutation |
| Sorting.MinIndex | CTL/src/algorithms/sort.cpp:32-38 | the first index of a smallest element of arr[i..size) |
| Sorting.SelectedSwap | CTL/src/algorithms/sort.cpp:40-44 | swapping the minimum into cell i extends the sorted, smallest-first prefix and keeps the multiset |
| Sorting.SortedWhenOneRemains | CTL/src/algorithms/sort.cpp:31 | stopping at size - 1 suffices: a sorted smallest-first prefix with one element left is sorted |
| Sorting.MergedPermutes | CTL/src/algorithms/sort.cpp:65-87 | the merge of two runs is a permutation of their concatenation |
| Sorting.MergedSorted | CTL/src/algorithms/sort.cpp:65-87 | the merge of two sorted runs is sorted |
| Sorting.MergedLength | CTL/src/algorithms/sort.cpp:65-87 | the merge is as long as the two runs together |
| Sorting.MergedBoundedBelow | CTL/src/algorithms/sort.cpp:65-87 | a lower bound of both runs bounds their merge |
| Sorting.MergedStep | CTL/src/algorithms/sort.cpp:66-72 | each step writes the left head when it is <= the right head (ties go left), else the right head, and the rest is the merge of what remains |
| Sorting.Merge | CTL/src/algorithms/sort.cpp:49-88 | arr[left..right] becomes the stable merge of its two halves; every other cell is unchanged |
| Sorting.MergeHeads | CTL/src/algorithms/sort.cpp:65-75 | the first loop writes the merge's prefix until one run is used up |
| Sorting.TakeHead | CTL/src/algorithms/sort.cpp:66-74 | one step writes the next merged element and advances exactly one of i, j |
| Sorting.CopyRest | CTL/src/algorithms/sort.cpp:77-87 | the two tail loops write the rest of the merge |
| Sorting.MergeSort | CTL/src/algorithms/sort.cpp:91-100 | [left, right] ends sorted and a permutation; nothing outside changes; left >= right changes nothing |
| Sorting.SortHalves | CTL/src/algorithms/sort.cpp:93-96 | the two recursive calls leave both halves sorted and the range a permutation |
| Sorting.HalvesSorted | CTL/src/algorithms/sort.cpp:95-96 | sorting the left half then the right half keeps both sorted and the whole range a permutation |
| Sorting.SortedHalvesMerged | CTL/src/algorithms/sort.cpp:98 | merging the sorted halves sorts the range and keeps its multiset |
| Sorting.MergedRuns | CTL/src/algorithms/sort.cpp:98 | the merge of two sorted runs is sorted and a permutation of their concatenation |
| Sorting.Partition | CTL/src/algorithms/sort.cpp:103-122 | returns p in [low, high] holding the old arr[high]; [low, p) is <= it and (p, high] is > it; the range is a permutation and nothing outside changes |
| Sorting.SwapInRange | CTL/src/algorithms/sort.cpp:111-113 | the swap exchanges two cells of the range and keeps its multiset |
| Sorting.SwapPermutes | CTL/src/algorithms/sort.cpp:117-119 | swapping two cells of a range keeps the range's multiset |
| Sorting.PermutationKeepsBounds | CTL/src/algorithms/sort.cpp:128-129 | sorting a side of the pivot keeps it on its side of the pivot |
| Sorting.QuickSort | CTL/src/algorithms/sort.cpp:125-131 | [low, high] ends sorted and a permutation; nothing outside changes; low >= high changes nothing |
| Sorting.SortedAroundPivot | CTL/src/algorithms/sort.cpp:127-129 | the two sorted sides around the partitioned pivot make the whole range sorted and a permutation |
| Searching.LinearSearch | CTL/src/algorithms/search.cpp:31-39 | the smallest index holding the target, or -1 exactly when it does not occur in arr[0..size) |
| Searching.BinarySearch | CTL/src/algorithms/search.cpp:58-81 | a non-negative result holds the target; on an ascending array -1 means the target is absent |
| Queues.Next | CTL/src/queue/queue.cpp:30 | the next slot of the ring, (i + 1) % size |
| Queues.FullWhenRearMeetsFront | CTL/src/queue/queue.cpp:53-55 | the isFull test holds exactly when the window holds size elements |
| Queues.EnqueueAppends | CTL/src/queue/queue.cpp:28-31 | writing at the next slot after rear (front set to 0 when empty) appends to the window |
| Queues.DequeueDrops | CTL/src/queue/queue.cpp:38-42 | front holds the window's first element, and moving front on (or resetting both ends to -1 when front == rear) drops it |
| Queues.Queue.constructor | CTL/src/queue/queue.cpp:15-17 | a new queue of the given size is empty |
| Queues.Queue.IsEmpty | CTL/src/queue/queue.cpp:48-50 | true exactly when the queue holds nothing |
| Queues.Queue.IsFull | CTL/src/queue/queue.cpp:53-55 | true exactly when the queue holds size elements |
| Queues.Queue.Peek | CTL/src/queue/queue.cpp:58-62 | the oldest element, which the next dequeue returns, or T() when empty |
| Queues.Queue.Enqueue | CTL/src/queue/queue.cpp:25-32 | appends the element when not full; on a full queue nothing changes |
| Queues.Queue.Dequeue | CTL/src/queue/queue.cpp:35-45 | returns and removes the oldest element; on an empty queue returns T() and changes nothing; the last one resets front and rear to -1 |
| Stacks.Stack.constructor | CTL/src/stack/stack.cpp:15-17 | a new stack is empty with currentElem 0 |
| Stacks.Stack.IsEmpty | CTL/src/stack/stack.cpp:43-45 | true exactly when the stack holds nothing |
| Stacks.Stack.IsFull | CTL/src/stack/stack.cpp:48-50 | true exactly when the stack holds size elements |
| Stacks.Stack.Peek | CTL/src/stack/stack.cpp:53-59 | the most recently pushed element, or T() when empty |
| Stacks.Stack.Push | CTL/src/stack/stack.cpp:25-31 | pushes the element when not full; on a full stack nothing changes |
| Stacks.Stack.Pop | CTL/src/stack/stack.cpp:34-40 | returns and removes the most recently pushed element; on an empty stack returns T() and leaves currentElem |
| Positions.Effective | CTL/src/linked_list/single_linked_list.cpp:39-42 | the index a non-zero position acts on: itself when positive, 1 when negative |
| Positions.InsertedAtShape | CTL/src/linked_list/single_linked_list.cpp:33-48 | a positional insert within the list grows it by one with x at pos and the rest in order; past the end it changes nothing |
| Positions.DeletedAtShape | CTL/src/linked_list/single_linked_list.cpp:107-127 | a positional delete within the list removes index pos and keeps the rest in order; past the end it changes nothing |
| Positions.ReadInserted | CTL/src/linked_list/single_linked_list.cpp:73-81 | reading at the position just inserted at gives the inserted element |
| Positions.DeleteUndoesInsert | CTL/src/linked_list/single_linked_list.cpp:107-127 | deleting at the position just inserted at restores the list |
| Positions.InsertUndoesDelete | CTL/src/linked_list/single_linked_list.cpp:33-48 | inserting the deleted element back at its position restores the list |
| SinglyLinked.SinglyLinkedList.constructor | CTL/include/linked_list/single_linked_list.hpp:26-29 | the defaulted constructor leaves head null: a new list has no nodes and is empty |
| SinglyLinked.SinglyLinkedList.InsertBeginning | CTL/src/linked_list/single_linked_list.cpp:27-30 | contents become [d] + old, the old nodes kept behind a fresh head |
| SinglyLinked.SinglyLinkedList.InsertAtPosition | CTL/src/linked_list/single_linked_list.cpp:33-48 | contents become the positional insert of d at pos |
| SinglyLinked.SinglyLinkedList.LinkAfter | CTL/src/linked_list/single_linked_list.cpp:44-47 | a new node linked after the node at i - 1 puts d at index i |
| SinglyLinked.SinglyLinkedList.InsertEnd | CTL/src/linked_list/single_linked_list.cpp:51-65 | contents become old + [d] |
| SinglyLinked.SinglyLinkedList.ReadBeginning | CTL/src/linked_list/single_linked_list.cpp:68-70 | the first element, or T() when empty |
| SinglyLinked.SinglyLinkedList.ReadAtPosition | CTL/src/linked_list/single_linked_list.cpp:73-81 | element pos, the head for negative pos, or T() past the end |
| SinglyLinked.SinglyLinkedList.ReadEnd | CTL/src/linked_list/single_linked_list.cpp:84-94 | the last element, or T() when empty |
| SinglyLinked.SinglyLinkedList.DeleteBeginning | CTL/src/linked_list/single_linked_list.cpp:97-104 | removes the head; no change on an empty list |
| SinglyLinked.SinglyLinkedList.UnlinkHead | CTL/src/linked_list/single_linked_list.cpp:108-113 | moving head to its successor drops the first element |
| SinglyLinked.SinglyLinkedList.DeleteAtPosition | CTL/src/linked_list/single_linked_list.cpp:107-127 | contents become the positional delete at pos |
| SinglyLinked.SinglyLinkedList.UnlinkAfter | CTL/src/linked_list/single_linked_list.cpp:122-126 | bypassing the node after the node at i - 1 removes index i |
| SinglyLinked.SinglyLinkedList.DeleteEnd | CTL/src/linked_list/single_linked_list.cpp:130-147 | removes the last element; no change on an empty list |
| SinglyLinked.SinglyLinkedList.Count | CTL/src/linked_list/single_linked_list.cpp:152-158 | the walk counts the elements |
| SinglyLinked.SinglyLinkedList.CopyOut | CTL/src/linked_list/single_linked_list.cpp:160-166 | a fresh array holding the contents in list order |
| SinglyLinked.SinglyLinkedList.Search | CTL/src/linked_list/single_linked_list.cpp:150-173 | searchMethod's result on the contents and their count |
| SinglyLinked.SinglyLinkedList.Sort | CTL/src/linked_list/single_linked_list.cpp:176-203 | the same nodes, in the same order, now hold sortMethod's output on the contents |
| SinglyLinked.SinglyLinkedList.WriteBack | CTL/src/linked_list/single_linked_list.cpp:195-200 | writes the values into the nodes' data in order without relinking |
| DoublyLinked.DoublyLinkedList.LinksAgree | CTL/src/linked_list/double_linked_list.cpp:26-77 | head and tail are both null exactly when empty; head.prev and tail.next are null; n.next.prev == n and n.prev.next == n for every node |
| DoublyLinked.DoublyLinkedList.constructor | CTL/include/linked_list/double_linked_list.hpp:28-32 | the defaulted constructor leaves head and tail null: a new list has no nodes and is empty |
| DoublyLinked.DoublyLinkedList.InsertBeginning | CTL/src/linked_list/double_linked_list.cpp:26-37 | contents become [d] + old; the new node is also the tail when the list was empty |
| DoublyLinked.DoublyLinkedList.InsertAtPosition | CTL/src/linked_list/double_linked_list.cpp:40-64 | contents become the positional insert of d at pos |
| DoublyLinked.DoublyLinkedList.LinkAfter | CTL/src/linked_list/double_linked_list.cpp:53-63 | a new node linked after the node at i - 1 puts d at index i |
| DoublyLinked.DoublyLinkedList.LinkBetween | CTL/src/linked_list/double_linked_list.cpp:53-63 | with a successor, the new node is linked both ways between its neighbours |
| DoublyLinked.DoublyLinkedList.SplicedChain | CTL/src/linked_list/double_linked_list.cpp:54-63 | a fresh node linked both ways between two neighbours leaves a chain with the same head and tail |
| DoublyLinked.DoublyLinkedList.LinkLast | CTL/src/linked_list/double_linked_list.cpp:53-63 | without a successor, the new node is appended and becomes the tail |
| DoublyLinked.DoublyLinkedList.InsertEnd | CTL/src/linked_list/double_linked_list.cpp:67-77 | contents become old + [d]; the new node is also the head when the list was empty |
| DoublyLinked.DoublyLinkedList.ReadBeginning | CTL/src/linked_list/double_linked_list.cpp:80-82 | the first element, or T() when empty |
| DoublyLinked.DoublyLinkedList.ReadAtPosition | CTL/src/linked_list/double_linked_list.cpp:85-93 | element pos, the head for negative pos, or T() past the end |
| DoublyLinked.DoublyLinkedList.ReadEnd | CTL/src/linked_list/double_linked_list.cpp:96-98 | the last element, or T() when empty |
| DoublyLinked.DoublyLinkedList.DeleteBeginning | CTL/src/linked_list/double_linked_list.cpp:101-114 | removes the head; no change on an empty list; removing the only node nulls head and tail |
| DoublyLinked.DoublyLinkedList.DeleteAtPosition | CTL/src/linked_list/double_linked_list.cpp:117-141 | contents become the positional delete at pos |
| DoublyLinked.DoublyLinkedList.Unlink | CTL/src/linked_list/double_linked_list.cpp:128-140 | unlinking the node at i >= 1 removes index i |
| DoublyLinked.DoublyLinkedList.UnlinkBetween | CTL/src/linked_list/double_linked_list.cpp:130-138 | a node with both neighbours is bypassed both ways |
| DoublyLinked.DoublyLinkedList.SplicedOutChain | CTL/src/linked_list/double_linked_list.cpp:130-138 | linking a node's two neighbours to each other leaves a chain without it, with the same head and tail |
| DoublyLinked.DoublyLinkedList.UnlinkLast | CTL/src/linked_list/double_linked_list.cpp:130-138 | removing the tail makes its predecessor the tail |
| DoublyLinked.DoublyLinkedList.DeleteEnd | CTL/src/linked_list/double_linked_list.cpp:144-157 | removes the last element; no change on an empty list; removing the only node nulls head and tail |
| DoublyLinked.DoublyLinkedList.Count | CTL/src/linked_list/double_linked_list.cpp:162-168 | the walk counts the elements |
| DoublyLinked.DoublyLinkedList.CopyOut | CTL/src/linked_list/double_linked_list.cpp:172-178 | a fresh array holding the contents in list order |
| DoublyLinked.DoublyLinkedList.Search | CTL/src/linked_list/double_linked_list.cpp:160-185 | -1 on an empty list, otherwise searchMethod's result on the contents and their count |
| DoublyLinked.DoublyLinkedList.Sort | CTL/src/linked_list/double_linked_list.cpp:188-216 | no change for length <= 1; otherwise the same nodes, in the same order, now hold sortMethod's output |
| DoublyLinked.DoublyLinkedList.WriteBack | CTL/src/linked_list/double_linked_list.cpp:209-213 | writes the values into the nodes' data in order without relinking |

## Left out

- The integers are unbounded. The model does not capture 32-bit `int`
  overflow in `horner_hash`'s `hash * base + c` (hashtable.cpp:21), in
  `binary_search`'s `left + right` (search.cpp:68) or in the counters.
- Characters are non-negative codes. A negative signed `char` would make the
  C++ `%` negative at hashtable.cpp:21; Dafny's `char` has no negative codes.
- The keys of the hash table are `string`, the only key type the spell
  checker uses. The sorts and `BinarySearch` work on `int`. `LinearSearch`
  works on any type with equality.
- `binary_search`'s `count` of splits (search.cpp:59, 66) is never read, so
  it is not modelled. `std::floor` over the integer division is integer `/`.
- `suggest_corrections` starts `best_distance` at `INT_MAX`; the model writes
  that as `None` ("no candidate yet").
- `get_table()` returns the bucket vector as a value. A `seq` is already a
  copy, so nothing aliases the table.
- Destructors, `new`/`delete`, and the temporary arrays of `merge` and of
  the lists' `search`/`sort` are left out as memory management.
- `load_dictionary`, `add_word_to_dictionary`, `print_results` and `main`
  are file and console I/O and are not part of this model. The refusal to
  check against an empty dictionary (SpellChecker.cpp:254-257) lives in
  `main`, so it is not a precondition here.
- The lists' `searchMethod` and `sortMethod` are pure Dafny functions of the
  copied contents and their count. An arbitrary C++ callback could have side
  effects; the model does not capture that.
- `SinglyLinked.SinglyLinkedList.DeleteBeginning`: the source returns `T()`
  from a `void` function on an empty list (single_linked_list.cpp:98), which
  does not compile once instantiated. The model takes the evident intent, a
  no-op.
- `DoublyLinked.DoublyLinkedList.DeleteAtPosition` requires `pos >= 0`. For
  a negative position the walk does not move, so the source unlinks and
  deletes the head node but never moves `head` (double_linked_list.cpp:123-140),
  which leaves `head` dangling.
- `Sorting.Merge` states only that the range becomes `Merged` of its two
  halves. That its result is sorted and a permutation is stated about
  `Merged` by `MergedSorted` and `MergedPermutes`, and combined in
  `MergedRuns`.
- `Searching.BinarySearch` promises absence only on an ascending array, as
  the source's own comment requires. On an unsorted array it still never
  returns a wrong index.
- `Hashing.HashTable.constructor` requires `hashGroups > 0`. The source takes
  any `int`: with 0 buckets the first `insert`, `get` or `remove` divides by
  zero in `horner_hash` (hashtable.cpp:21), and a negative count makes the
  bucket vector's constructor throw (hashtable.cpp:47). The default of 10
  buckets (hashtable.hpp:32) is left to the caller.
- `Queues.Queue.constructor` requires `size > 0`. A queue of size 0 is built,
  but its `isFull` and `enqueue` then take `% 0` (queue.cpp:30, 54), and a
  negative size throws from `new T[size]` (queue.cpp:16). The default size of
  100 (queue.hpp:24) is left to the caller.
- `Stacks.Stack.constructor` requires `size >= 0`. A negative size throws from
  `new T[size]` (stack.cpp:16). The default size of 100 (stack.hpp:23) is left
  to the caller.

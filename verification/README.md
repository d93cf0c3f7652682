# A verified model of the working-set counter and the memory-layout scan

The model covers two programs of the repository.

**The sliding-window working-set counter (Assignment03).** A stream of memory accesses goes through a FIFO queue that
keeps the last `window_size` of them. The pages of the queued accesses are counted in a 16-way hash trie: four bits of
the page number pick a bucket on each level, and a bucket is an association list or, once its list passes
`SPLIT_SIZE` = 15, a table one level down. A table whose count falls below `MERGE_SIZE` = 6 becomes a list again.
`get_window_set_size` returns the root's `count`, which is never recomputed: every table watches whether a child's
count changed. The question is whether this agrees with the number of distinct pages that the last accesses touch.

**The memory-layout scan (Assignment01).** `get_mem_layout` walks the 32-bit address space page by page with a counter
that wraps, and writes the regions of equal accessibility into a list of limited size.

## How the model is built

- `Words` has 64-bit arithmetic with wrap-around, shifts, and the four-bit path of a key. `& HASH_MASK` is a remainder
  modulo 16, and `>>` repeated halving.
- `AssociationList`, `Trie` and `Window` say as functions on values what each operation does, with the branches,
  constants and wrapped counters of the code. `TrieDelete`, `TrieShape`, `TrieRuns`, `ListLengths`, `Restructuring`,
  `Evictions`, `Undoing` and `WindowRelations` prove what these functions mean, over all inputs and all runs.
- `LinkedLists`, `Hashtables`, `Queues` and `WindowSets` are the code's own form: classes with pointers, loops and
  recursion that change fields in place. Each method is proved to compute the function of the same operation.
- `Memory` has the allocator as bookkeeping: `Heap.live` is the set of blocks allocated and not yet freed. `Free`
  demands that the block is live, so a second free of a block could not be verified.
- `Miscount` follows one trace on which the text as written goes wrong.
- `MemLayout` is the second program.

### Two variants of `sll_pop`

`sll_pop` calls `sll_delete`, which lowers `count` (Assignment03/linkedlist.c:121), and then lowers it again
(Assignment03/linkedlist.c:177). `AssociationList.Variant` names both readings: `AsWritten` is the text, and `Repaired`
leaves out the second decrement, so that `count` is the length of the list, as Assignment03/DESIGN.md:56-61 describes.
Functions and methods take the variant as a parameter; a statement without a variant, or for every variant, holds for
the text as it stands.

As written, the list kept beside a split bucket's table has a wrapped count. After a merge the next `put` splits it
again however short it is, and the new table may have fewer than six keys. A merge one level up moves only the inner
lists and destroys that table with its keys, while the root still counts them. What is proved about this:

- `TrieDelete.MergeExact` and `TrieDelete.DeleteRefines` say exactly when a merge or a delete loses keys.
- `TrieRuns.CountIsStoredAndLost`: after any run the root's count is the number of stored keys plus the number of
  losses so far. It is the number of stored keys exactly when the run is lossless (`TrieRuns.CountExactWhenLossless`).
- `Window.WindowExactWhenLossless`: the reported size and the value of every page are right together exactly when the
  run is lossless, which is decided by what each merge meets.
- `Window.WindowSizeExcess`: the reported size is never too small. It is too large by the losses that no page
  stands for which is touched and missing, so the size alone is right exactly when there are none of those.
- `Miscount.AsWrittenMiscounts` is a trace of thirty one-byte accesses where the reported size is six and the right one
  is four. One access earlier the size is right by chance, with five keys lost: `Miscount.RightByChance`.
- `Evictions.EvictionsFindWhenLossless`: all evictions find their pages and the values are right in the end exactly
  when the run is lossless. In the trace above page 12 is evicted in vain: `Miscount.EvictionMisses`.
- `Undoing.ReferenceIsUndone` holds nevertheless: putting a reference and deleting it again is undone in every
  reachable trie, because the tables that such deletes can merge lose nothing.
- `TrieShape.ShapeEndsWithMerge`: the full shape ends exactly with the first merge, and the next put under the merged
  bucket expands it again (`ListLengths.MergedIsSplitNext`).
- `TrieRuns.RunShape`: with one decrement no run loses a key.

### Where code and documentation differ

- The comment at Assignment01/memlayout.c:101-107 says the index grows even beyond the size of the list, so that it
  counts regions. The code increments only after a write (line 115), so the result is capped.
  `MemLayout.ReportedIsTheCount` says when it is the number of regions.
- Assignment03/DESIGN.md:56-61 bounds lists by 15 elements because of `SPLIT_SIZE`. As written count is not the length
  of a list, and the bound has another reason: a list that was ever popped has a huge count and at most five entries.
  `ListLengths.ListsStayShort` proves the bound for both variants, as written for runs of up to 2^61 operations.
- `window_set_insert` is written for accesses of at least one byte. One of no bytes queues an empty interval only if
  it starts on a page boundary, and at address 0 only if pages are single bytes: `Window.RefExactWhenCountable`.

## Model

| member | source | states |
|---|---|---|
| Words.GetPowerOfTwo | Assignment03/valws379_base.c:22-32 | although the exponent starts at 2^64 - 1 and wraps, the result e satisfies 2^e <= value < 2^(e+1) for every positive value, and is 2^64 - 1 for zero |
| Words.LogUnique | Assignment03/valws379_base.c:22-32 | these bounds leave one exponent only |
| Words.IndexIs | Assignment03/hashtable.c:111 | the bucket of a key at a level is the base-16 digit of the key at that place |
| Words.PathIsLowDigits | Assignment03/hashtable.c:111 | a key lies on a path if and only if its low digits, four bits for each level, are those of the path |
| Words.PathRebuildsKey | Assignment03/hashtable.c:111 | the sixteen indices of a key are the digits of the key itself, so they determine it |
| AssociationList.AddKeyRefines | Assignment03/linkedlist.c:97-108 | as a map: sll_add counts one more occurrence of the key, changes no other key, keeps keys distinct, and count and length grow exactly when the key is new |
| AssociationList.AddKeyOrder | Assignment03/linkedlist.c:97-108 | node by node: a stored key keeps its place with its value one higher modulo 2^64, all other nodes stay; a new key is at the head with value 1, before the old list |
| AssociationList.RemoveKeyRefines | Assignment03/linkedlist.c:140-162 | as a map: sll_remove counts one less, drops the key at zero, ignores an absent key, changes no other key, and count and length shrink exactly when the key goes |
| AssociationList.RemoveKeyOrder | Assignment03/linkedlist.c:140-162 | node by node: the value is one lower modulo 2^64, the node is gone exactly when that is zero, and all others keep their order; an absent key changes nothing |
| AssociationList.PushAllContents | Assignment03/hashtable.c:176-180 | moving entries with new, distinct keys to a list keeps all of them and adds nothing; count grows by their number modulo 2^64 |
| AssociationList.PushAllOrder | Assignment03/linkedlist.c:60-72 | entries moved one after the other end up in reverse order before the old list |
| AssociationList.DrainedCount | Assignment03/hashtable.c:140-142 | popping a list until it is empty takes one off count per node when repaired, two as written |
| AssociationList.CountAfterRun | Assignment03/linkedlist.c:173-183 | after any sequence of list operations count is the length minus the successful pops modulo 2^64 as written, and the length when repaired |
| Trie.LastLevelNeverSplits | Assignment03/hashtable.c:135-144 | at level 15 a list holds at most one key, so no table is ever created below level 15 |
| Trie.InsertRefines | Assignment03/hashtable.c:109-147 | for both variants and through every cascade of splits: put counts one more occurrence of its key (and hashtable_put_key_value adds an absent key with its value), no other key changes, the path invariant is kept, and the table's count grows by one exactly when the key is new |
| Trie.SettleRefines | Assignment03/hashtable.c:135-144 | a bucket is split exactly when its count passes SPLIT_SIZE, and splitting changes no key's value |
| Trie.PourRefines | Assignment03/hashtable.c:94-96 | pouring distinct new entries into a table adds exactly them |
| Trie.PourOrder | Assignment03/hashtable.c:140-142 | which list a bucket of the new table gets: the entries with that digit, the last one poured at the head |
| Trie.OtherBucketsStay | Assignment03/hashtable.c:111-112 | put and delete change no bucket but the one that the key's digit at the table's level names |
| Trie.FoundOnPath | Assignment03/hashtable.c:65-66 | a key is only ever found on the path its four-bit indices name |
| TrieDelete.MergeContents | Assignment03/hashtable.c:172-180 | a merge yields a list with exactly the entries of the inner lists |
| TrieDelete.MergeOrder | Assignment03/hashtable.c:176-180 | the merged list node by node: buckets are emptied from the first on, each list from its head, and every entry becomes the new head |
| TrieDelete.MergeExact | Assignment03/hashtable.c:172-185 | a merge keeps the map if and only if no nested table of the merged table stores a key |
| TrieDelete.DeleteRefines | Assignment03/hashtable.c:156-198 | for the text as it stands: delete keeps the path invariant, invents nothing, lowers count exactly when the last occurrence goes, and refines counting one less if and only if every merge it triggers is lossless |
| TrieShape.NestedCount | Assignment03/hashtable.c:10-22 | the count of a table below the root cannot wrap |
| TrieShape.InsertSized | Assignment03/hashtable.c:109-147 | for both variants put keeps the full shape: every count is the number of distinct keys below, lists hold at most 15, nested tables at least 6 |
| TrieShape.SmallTableIsFlat | Assignment03/hashtable.c:172 | in the full shape, when a table's count is below 6 none of its buckets has a table |
| TrieShape.MergeSized | Assignment03/hashtable.c:172-185 | so such a merge loses nothing, and the list's length is the table's count |
| TrieShape.DeleteSized | Assignment03/hashtable.c:156-198 | repaired, or before the first merge as written: delete keeps the full shape and is lossless |
| TrieShape.ShapeEndsWithMerge | Assignment03/hashtable.c:172-185 | as written: a delete in a table of the full shape keeps the shape if and only if it merges nothing |
| TrieRuns.RunPlaced | Assignment03/hashtable.c:63-198 | for both variants, after any run: keys on their paths, lists with distinct keys and empty beside a table, no table below level 15 |
| TrieRuns.AgreesExactlyWhenLossless | Assignment03/hashtable.c:63-198 | for both variants: all along a run each key's value is what its own operations add up to, if and only if no merge of the run meets a nested table with keys |
| TrieRuns.RunShape | Assignment03/hashtable.c:63-198 | repaired: every reachable trie has the full shape, and every run is lossless |
| TrieRuns.ShapedExactlyUntilMerge | Assignment03/hashtable.c:63-198 | as written: the trie has the full shape all along a run if and only if no delete of the run merges a bucket |
| TrieRuns.CountIsStoredAndLost | Assignment03/hashtable.c:74-77 | for both variants, after any run: the root's count is the number of stored keys plus the number of keys destroyed so far (modulo 2^64), and both together are at most the number of operations |
| TrieRuns.LostNothing | Assignment03/hashtable.c:172-185 | for both variants: no key was destroyed if and only if no merge of the run met a nested table with keys |
| TrieRuns.CountExactWhenLossless | Assignment03/hashtable.c:74-77 | for both variants and fewer than 2^64 operations: the root's count is the number of stored keys if and only if the run is lossless |
| TrieRuns.StoredAtMost | Assignment03/hashtable.c:63-198 | for both variants: no stored value exceeds what the operations on its key add up to, and it is exactly that unless the key was destroyed before |
| TrieRuns.CountExcess | Assignment03/hashtable.c:63-198 | for both variants: count is the number of keys due plus the losses that no missing key stands for; it is never too small, and right if and only if losses and missing keys are equally many |
| TrieRuns.RunCount | Assignment03/hashtable.c:74-77 | for both variants, as a corollary: after a lossless run the stored keys are those due, and count is their number |
| TrieRuns.RunRefinesTally | Assignment03/hashtable.c:109-198 | repaired, or as written on a lossless run: each key's value is what its own puts and deletes add up to, and the root's count is the number of keys with a value |
| TrieRuns.StoredValuesPositive | Assignment03/linkedlist.c:147-154 | stored values lie between 1 and the number of operations |
| TrieRuns.RunSpaceBound | Assignment03/hashtable.c:172-185 | repaired: in every reachable trie 6 * nested tables <= 15 * stored keys |
| ListLengths.InsertBounded | Assignment03/hashtable.c:109-147 | as written: put keeps the invariant that a list has its length as count or was popped, has at most five entries and a huge count, and that counts are never below the number of keys |
| ListLengths.DeleteBounded | Assignment03/hashtable.c:156-198 | as written: so does delete, through every cascade of merges |
| ListLengths.MergeBounded | Assignment03/hashtable.c:172-180 | as written: a merge leaves a list of at most five entries with a huge count, whatever was lost |
| ListLengths.ListsStayShort | Assignment03/hashtable.c:63-198 | for both variants: no list of a reachable trie holds more than fifteen keys; as written for runs of n operations with 6 * (n + 1) + 31 < 2^64 |
| ListLengths.PoppedIsSplitNext | Assignment03/hashtable.c:135-144 | as written: a list that was ever popped is split by the next put that reaches it, however few keys it holds |
| ListLengths.MergedIsSplitNext | Assignment03/hashtable.c:135-185 | as written: so the next put under a merged bucket expands it again, in place of the distance of eleven operations |
| Restructuring.ExpandedIsLarge | Assignment03/hashtable.c:172 | in a trie of the full shape a bucket with a table has at least six keys under it |
| Restructuring.UnexpandedIsSmall | Assignment03/hashtable.c:135 | in a trie of the full shape a bucket without one has at most fifteen, also when it is only part of a larger list |
| Restructuring.InsertExpands | Assignment03/hashtable.c:135-144 | repaired: put never takes a bucket's table away, and gives it one only with sixteen keys under it, whichever ancestor was split |
| Restructuring.DeleteCollapses | Assignment03/hashtable.c:172-185 | repaired: delete never gives a bucket a table, and takes one away only with fewer than six keys left under it |
| Restructuring.DistanceStep | Assignment03/valws379_base.h:23-24 | repaired: each operation under a bucket brings it at most one closer to its next restructuring, operations elsewhere do not, and a restructuring leaves it eleven away |
| Restructuring.RestructuringsBounded | Assignment03/hashtable.c:135-185 | repaired: from any trie of the full shape: every restructuring of a bucket after the first is paid for by eleven operations under it |
| Restructuring.RestructuringsInRun | Assignment03/valws379_base.h:23-24 | repaired: wherever in a run: 11 * restructurings of one bucket <= operations under it + 10 |
| Window.RefExactWhenCountable | Assignment03/windowset.c:74-82 | the queued interval is exactly the set of pages a / 2^e for bytes a of the access, if and only if the access has a byte or an empty one starts on a page boundary other than 0 (or pages are single bytes) |
| Window.RefOfAnyAccess | Assignment03/windowset.c:74-82 | for every access, also one past the address space: the reference starts at the page of the first byte, and its page count leads to the page of the last byte, all modulo 2^64 |
| Window.RefInterval | Assignment03/windowset.c:74-82 | for every access in range, countable or not, but the empty one at 0: the interval runs from address / 2^e to (address + size - 1) / 2^e without wrapping |
| Window.EmptyAccessCovers | Assignment03/windowset.c:74-82 | where it fails: every access of no bytes inside a page queues exactly that page and touches none |
| Window.EmptyAccessAtZero | Assignment03/windowset.c:74-82 | the access of no bytes at address 0 queues all 2^(64 - e) pages, wrapped to none for one-byte pages |
| Window.QueuedAreLast | Assignment03/windowset.c:84-90 | the queue holds the references of the last window_size accesses in order, also for a window of 0 |
| Window.TallyIsCover | Assignment03/windowset.c:71-91 | a page's value is the number of queued references that cover it |
| Window.WindowIsTrieRun | Assignment03/windowset.c:44-61 | for both variants the trie of a window run is the trie of its sequence of puts and deletes |
| Window.PageOrder | Assignment03/windowset.c:44-61 | the pages of a reference are put, and deleted, in ascending order modulo 2^64 |
| Window.TalliedAreTouched | Assignment03/windowset.c:71-91 | the pages left with a value are those that the last accesses touch |
| Window.WindowSizeExcess | Assignment03/windowset.c:71-100 | for both variants, every window and trace: the reported size is the number of distinct pages touched by the last accesses plus the losses that no missing page stands for; it is never too small, and right if and only if losses and missing pages are equally many |
| Window.WindowExactWhenLossless | Assignment03/windowset.c:71-100 | for both variants, every window and trace: the reported size is the number of distinct pages touched by the last accesses and every page's value the number of queued references covering it, if and only if the run is lossless |
| Window.WindowSizeIsDistinctPages | Assignment03/windowset.c:71-100 | for every window and trace, repaired, or as written on a lossless run, also when 64 bits are exceeded: the reported size is the number of distinct pages touched by the last accesses (modulo 2^64 only for one-byte pages), the queue has min(n, W) references, and each page's value is the number of them that cover it |
| Evictions.AllFoundExactWhenLossless | Assignment03/hashtable.c:156-198 | for both variants, any run of fewer than 2^64 operations: every delete of a key that is due finds it stored, and all values are right in the end, if and only if the run is lossless |
| Evictions.EmptiedExactWhenLossless | Assignment03/hashtable.c:156-198 | for both variants: a run that removes all it put finds every key that is due if and only if it is lossless |
| Evictions.EvictionFinds | Assignment03/windowset.c:87-90 | repaired, or as written when the run up to there is lossless: each delete that an insert issues hits a stored key with a value of at least one |
| Evictions.WindowDeletesAreDue | Assignment03/windowset.c:84-90 | a window only deletes occurrences that it put |
| Evictions.EvictionsFindWhenLossless | Assignment03/windowset.c:71-91 | for both variants, every window and trace: all evictions find their pages with a value of at least one and every page's value is right in the end, if and only if the run is lossless; when the last accesses touch nothing, as with a window of 0, the evictions alone decide it |
| Undoing.DeleteUndoesPut | Assignment03/windowset.c:44-61 | for both variants, in any trie: when the deletes are lossless, deleting a reference's pages undoes putting them, whatever was put in between, if and only if no page of it is left with a value wrapped to zero |
| Undoing.RepairedDeletesLossless | Assignment03/hashtable.c:156-198 | repaired: in every reachable trie these deletes are lossless |
| Undoing.RunPinned | Assignment03/hashtable.c:63-198 | as written: every nested table of a reachable trie has six keys in its count, or is as it was made by a split, with all counts exact |
| Undoing.AsWrittenDeletesLossless | Assignment03/hashtable.c:156-198 | as written, too: in every reachable trie the deletes that undo a reference lose nothing, whether or not keys were lost before, while counts stay below 2^64 |
| Undoing.ReferenceIsUndone | Assignment03/windowset.c:44-61 | for both variants and every reachable trie, while counts stay below 2^64: putting a reference, then others, and deleting the first again leaves every key with the value it has without that reference |
| WindowRelations.WiderWindow | Assignment03/windowset.c:26-37 | for the same trace a wider window never reports less: repaired always, as written when the run with the narrow window is lossless |
| WindowRelations.LargerPages | Assignment03/windowset.c:74-79 | with twice the page size the touched pages are the old ones merged in pairs |
| WindowRelations.DoubledPages | Assignment03/windowset.c:26-37 | doubling the page size gives S' <= S and S <= 2 * S' for the reported sizes: repaired always, as written each inequality when the run that should report less is lossless |
| Miscount.SplitAgain | Assignment03/hashtable.c:135-144 | as written: a merged list of five keys is split by the next put of one of them |
| Miscount.LosingMerge | Assignment03/hashtable.c:172-185 | as written: the following merge drops five stored keys |
| Miscount.AsWrittenMiscounts | Assignment03/linkedlist.c:173-183 | as written: on a trace of thirty one-byte accesses the reported size is 6 and the number of distinct pages is 4, so that run is not lossless |
| Miscount.RightByChance | Assignment03/linkedlist.c:173-183 | as written: one access earlier the reported size 5 is right although the run is lossy |
| Miscount.EvictionMisses | Assignment03/windowset.c:87-90 | as written: the thirtieth access of that trace evicts page 12, which is not stored |
| Miscount.RestructuredTwice | Assignment03/hashtable.c:135-185 | as written: on that trace two consecutive operations under one bucket restructure it twice |
| LinkedLists.LinkedList.constructor | Assignment03/linkedlist.c:8-13 | an empty list, one block allocated |
| LinkedLists.LinkedList.Destroy | Assignment03/linkedlist.c:20-31 | every node and the header is freed once, and nothing else |
| LinkedLists.LinkedList.Find | Assignment03/linkedlist.c:41-52 | the first node with the key, or NULL |
| LinkedLists.LinkedList.PutKeyValue | Assignment03/linkedlist.c:60-72 | a new node becomes the head before the old ones, and count is one higher modulo 2^64 |
| LinkedLists.LinkedList.Add | Assignment03/linkedlist.c:97-108 | in place: the nodes stay and only the value of the key's first node is one higher, or a new node with value 1 becomes the head; nothing leaks |
| LinkedLists.LinkedList.Delete | Assignment03/linkedlist.c:118-131 | unlinks and frees exactly the given node and lowers count once |
| LinkedLists.LinkedList.Remove | Assignment03/linkedlist.c:140-162 | in place: the value of the key's first node is one lower, and exactly this node leaves the list and is freed when that is zero; the others keep their order |
| LinkedLists.LinkedList.Pop | Assignment03/linkedlist.c:173-183 | returns the entry of the head node, which leaves the list and is freed, or fails on an empty list; count is one lower or, as written, two, modulo 2^64 |
| Hashtables.Hashtable.constructor | Assignment03/hashtable.c:10-22 | an empty table with sixteen fresh lists and four shift bits a level |
| Hashtables.Hashtable.Put | Assignment03/hashtable.c:109-147 | the pointer structure computes the abstract put, stays a tree with disjoint footprints, and what it allocated it owns |
| Hashtables.Hashtable.PutKeyValue | Assignment03/hashtable.c:63-101 | the same for hashtable_put_key_value |
| Hashtables.Hashtable.SplitBucket | Assignment03/hashtable.c:135-144 | the split: a new table at most at level 15 takes over all entries of the list, which keeps its header |
| Hashtables.Hashtable.Delete | Assignment03/hashtable.c:156-198 | the pointer structure computes the abstract delete, stays a tree with disjoint footprints, and frees exactly what it no longer reaches |
| Hashtables.Hashtable.MergeBucket | Assignment03/hashtable.c:172-185 | the merge: entries of the inner lists move to the bucket's list, and every block of the inner table is freed once |
| Hashtables.Hashtable.Destroy | Assignment03/hashtable.c:40-53 | exactly the blocks of the table are freed, each once |
| Queues.Queue.constructor | Assignment03/queue.c:32-38 | an empty queue |
| Queues.Queue.Enqueue | Assignment03/queue.c:46-62 | appends to the FIFO sequence; forward and backward links stay inverse to each other and size is the length |
| Queues.Queue.Dequeue | Assignment03/queue.c:70-97 | removes and returns the oldest value, or the empty reference when there is none; the node is freed |
| Queues.Queue.Destroy | Assignment03/queue.c:104-115 | every node and the header is freed once |
| WindowSets.WindowSet.constructor | Assignment03/windowset.c:26-37 | an empty window with the exponent of the page size |
| WindowSets.WindowSet.PutPages | Assignment03/windowset.c:44-49 | puts every page of the reference |
| WindowSets.WindowSet.DeletePages | Assignment03/windowset.c:56-61 | deletes every page of the reference |
| WindowSets.WindowSet.Insert | Assignment03/windowset.c:71-91 | queue and trie make the abstract step together, and all memory stays accounted for |
| WindowSets.WindowSet.GetSize | Assignment03/windowset.c:98-100 | the count of the root |
| WindowSets.WindowSet.Destroy | Assignment03/windowset.c:105-108 | everything the window owns is freed once |
| WindowSets.Replay | Assignment03/valws379.c:124-126 | the insertions and reported sizes of the main loop, for a whole trace and both variants: each reported size is that of the abstract window, at least the number of distinct pages the last accesses touch, and equal to it when repaired or lossless so far; with destroy_window_set at the end every block allocated on the way is freed |
| MemLayout.EveryPageOnce | Assignment01/memlayout.c:57-77 | for page sizes 2 to 2^31 the probed addresses are those of the 2^32 / PAGE_SIZE pages, each once and in order |
| MemLayout.ScannedIsRunLength | Assignment01/memlayout.c:108-120 | the scan's regions start at 0, abut, differ from their neighbours in mode, agree with every probe, and there is one more than mode changes |
| MemLayout.LayoutIsRunLength | Assignment01/memlayout.c:53-132 | the same for all regions up to 0xffffffff, for every page size |
| MemLayout.LayoutDecidesEveryAddress | Assignment01/memlayout.c:108-132 | every address in a region lies on a page with the region's mode |
| MemLayout.GetMemLayout | Assignment01/memlayout.c:45-135 | the wrapping scan ends after probing these pages once; with c mode changes it writes exactly the first min(c + 1, size) regions and nothing behind them, and returns min(c, size) + 1 as an int |
| MemLayout.ReportedIsTheCount | Assignment01/memlayout.c:110-134 | the result is the number of regions c + 1 if and only if c <= size and an int can hold it; for page sizes from 4 on it always can |
| MemLayout.ReportedTooFew | Assignment01/memlayout.c:110-134 | where it fails: when every page is writable and pages have 4096 bytes there are two regions, and with a list of size 0 the result is 1 |

## Left out

- Assignment02: sockets, inotify, threads and terminal output. Its phase protocol is not modelled.
- WindowSets.Replay: option handling, reading and parsing of lines, skipping and printing in Assignment03/valws379.c are
  not part of it. A trace is a sequence of addresses and sizes, and the reported sizes are a result.
- Assignment01: signal handlers, sigsetjmp and real probing. What a page allows is a function of its address, which does
  not change while the scan goes on. print_mem_layout and mode_to_string are left out.
- Failure of malloc, messages to stderr and code under the DEBUG macros.
- Trie.Settle: the function has a test of the level that the code does not have, so that it is total.
  Trie.LastLevelNeverSplits and Hashtables.Hashtable.SettleBucket, which has no such test, show that it never matters.
- WindowSets.WindowSet.constructor: asks for a positive page size. With 0 the exponent is 2^64 - 1, and C leaves such a
  shift undefined.
- Window.WindowSizeIsDistinctPages: accesses must not run past the end of the 64-bit address space, must be countable in
  the sense of Window.RefExactWhenCountable, and the 64-bit size of the queue must not overflow.
- Queues.Queue.Enqueue: asks for fewer than 2^64 - 1 queued references, each of which occupies memory.
- WindowSets.WindowSet.Insert: asks for the same, and WindowSets.Replay for a window or a trace that keeps to it.
- Window.WindowExactWhenLossless: asks for fewer than 2^64 puts and deletes, as does Window.WindowSizeExcess. With more
  of them stored values and losses can wrap.
- Undoing.ReferenceIsUndone: asks that six times the operations and pages involved stay below about 2^64, so that no
  value or count wraps. What happens when values wrap to zero is in Undoing.DeleteUndoesPut.
- Restructuring.RestructuringsInRun: for the repaired text only. As written it is false, see Miscount.RestructuredTwice.
- TrieRuns.RunSpaceBound: for the repaired text only.
- ListLengths.ListsStayShort: as written nothing is claimed for longer runs, where the pops missing from a list's count
  could add up to 2^64.
- MemLayout.GetMemLayout: asks for a positive page size, since with 0 the scan would never end, and for a list that has
  the stated capacity. The constant in the code is 4096.
- MemLayout.LayoutDecidesEveryAddress: a region ends before its `to`, so nothing is said of the last address 0xffffffff.
- Hashtables.Hashtable.constructor: the sixteen buckets are an array, counted as a second block beside the table, where
  the struct at Assignment03/hashtable.h:24-29 holds them inside.
- Memory is modelled as a set of blocks; addresses, sizes and contents of freed blocks are not.

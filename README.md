# BusTub storage core in Dafny

This project models four building blocks of the BusTub educational database
system and proves properties of them:

- **LRU-K replacer** (`lru_k_replacer.dfy`, module `LruKReplacer`): the buffer
  pool's eviction policy. Each frame keeps the timestamps of its last k
  accesses and an evictable flag. `Evict` picks, among the evictable frames,
  one with fewer than k accesses if there is any, and otherwise the one whose
  oldest kept access is earliest.
- **Extendible hash table** (`extendible_hash_table.dfy`, module
  `ExtendibleHashTable`, with bit arithmetic in `hash_bits.dfy`): a directory
  of 2^globalDepth slots. Each slot names a bucket of at most `bucketSize`
  pairs, and each bucket has a local depth. A full bucket is split, and the
  directory is doubled first when the bucket is as deep as the directory.
- **B+-tree leaf page** (`b_plus_tree_leaf_page.dfy`, module
  `BPlusTreeLeafPage`): a sorted array of key/record pairs with a link to the
  next leaf.
- **B+-tree internal page** (`b_plus_tree_internal_page.dfy`, module
  `BPlusTreeInternalPage`): a sorted array of separator/child pairs whose
  first key is unused. Moving children between pages re-parents them through
  the buffer pool.

Shared pieces:

- `key_order.dfy`: the key comparator, sortedness predicates, and the
  `std::lower_bound` binary search used by both page kinds.
- `shifts.dfy`: the array moves `std::move`, `std::move_backward` and
  `std::copy`, and the sequence insert/remove they perform.
- `buffer_pool.dfy`: a ghost stand-in for the buffer pool calls made by the
  internal page.
- `wrappers.dfy`: `Option`.

The replacer and the pages are classes whose methods update fields in place.
The pages keep their pair array as a Dafny `array`, and each page method is
proved against a function on the live prefix `Entries()`. The hash table is a
class over a directory `dir: seq<nat>` of indices into a bucket arena
`buckets: seq<Bucket>`. Two slots that name the same index share one bucket,
as two `shared_ptr`s to one bucket do in the source. The bucket operations are
loops over the bucket's list.

The central invariant of the hash table is `TableOk`:

- every slot names a bucket no deeper than the directory;
- a slot names a bucket exactly when it agrees with the bucket's other slots
  on as many low bits as the bucket's depth;
- every pair sits in the bucket its hash's slot names;
- no bucket repeats a key or holds more than `bucketSize` pairs.

Every operation keeps `TableOk`. Every update is stated through `Get`, the
value a key yields.

## Model

| member | source | states |
|---|---|---|
| LruKReplacer.Replacer.constructor | src/buffer/lru_k_replacer.cpp:17 | an empty replacer for `numFrames` frames with parameter k, no evictable frames, timestamp 0 |
| LruKReplacer.Replacer.Judge | src/buffer/lru_k_replacer.cpp:19-29 | returns one of the two frames, and that frame evicts no later than either under the LRU-K order (fewer than k accesses first, then earliest kept access) |
| LruKReplacer.Replacer.JudgeStrict | src/buffer/lru_k_replacer.cpp:22-28 | when one frame strictly precedes another, Judge picks it whichever argument order is used |
| LruKReplacer.EvictsBeforeTransitive | src/buffer/lru_k_replacer.cpp:19-29 | the order Judge decides is transitive, so the pairwise scan finds a global first |
| LruKReplacer.FirstIsUnique | src/buffer/lru_k_replacer.cpp:19-29 | two frames that each precede the other have the same oldest kept access and the same below-k status |
| LruKReplacer.Replacer.FindVictim | src/buffer/lru_k_replacer.cpp:33-42 | the scan over the frame map returns -1 exactly when no frame is evictable, and otherwise an evictable frame that precedes every evictable frame |
| LruKReplacer.FirstAmongStep | src/buffer/lru_k_replacer.cpp:34-42 | one scan step keeps "the candidate precedes every evictable frame seen so far" |
| LruKReplacer.ScanComplete | src/buffer/lru_k_replacer.cpp:43-48 | after the whole map is scanned, the candidate is evictable and precedes every evictable frame |
| LruKReplacer.Replacer.Evict | src/buffer/lru_k_replacer.cpp:31-49 | succeeds exactly when some frame is evictable; it then removes the first frame of the order from the map and decrements the size; otherwise nothing changes and the frame id is -1 |
| LruKReplacer.Replacer.RecordAccess | src/buffer/lru_k_replacer.cpp:51-65 | an unknown frame is ignored when the map is full; otherwise the frame gets the current timestamp appended, its oldest access dropped at k, and the clock advances |
| LruKReplacer.TouchValid | src/buffer/lru_k_replacer.cpp:61-64 | the history stays strictly increasing, at most k long, ends with the new timestamp and keeps the previous suffix |
| LruKReplacer.AccessKeepsInvariant | src/buffer/lru_k_replacer.cpp:51-65 | recording an access keeps every history valid and every timestamp owned by one frame |
| LruKReplacer.AccessCounts | src/buffer/lru_k_replacer.cpp:57-64 | recording an access does not change the evictable set, and adds a map entry only for a new frame |
| LruKReplacer.Replacer.SetEvictable | src/buffer/lru_k_replacer.cpp:67-80 | the frame's flag is set when the frame is known and nothing else changes; the size keeps counting the evictable frames |
| LruKReplacer.SetFlagCount | src/buffer/lru_k_replacer.cpp:74-78 | the evictable count rises by one exactly on false-to-true, falls by one exactly on true-to-false, and is otherwise unchanged |
| LruKReplacer.SetFlagIdempotent | src/buffer/lru_k_replacer.cpp:67-80 | setting the same flag twice equals setting it once, and the count does not move the second time |
| LruKReplacer.Replacer.Remove | src/buffer/lru_k_replacer.cpp:82-93 | a known evictable frame is erased and the size decremented; an unknown or pinned frame leaves everything unchanged |
| LruKReplacer.EraseCount | src/buffer/lru_k_replacer.cpp:91-92 | erasing an evictable frame lowers the evictable count by exactly one |
| LruKReplacer.EraseKeepsInvariant | src/buffer/lru_k_replacer.cpp:47 | erasing a frame keeps the history invariant and shrinks the map by one |
| LruKReplacer.Replacer.Size | src/buffer/lru_k_replacer.cpp:95 | the reported size is the number of evictable frames |
| HashBits.LowBitsSucc | src/container/hash/extendible_hash_table.cpp:93-95 | widening the mask by one bit adds bit n at weight 2^n |
| HashBits.LowBitsSuccEq | src/container/hash/extendible_hash_table.cpp:93-96 | two hashes agree on n+1 low bits exactly when they agree on n bits and on bit n |
| HashBits.LowBitsOfLowBits | src/container/hash/extendible_hash_table.cpp:93 | masking with a wider mask first does not change a narrower mask |
| HashBits.LowBitsAddPow2 | src/container/hash/extendible_hash_table.cpp:118-121 | adding 2^n keeps the low m <= n bits, so the appended half of a doubled directory mirrors the first half |
| HashBits.LowBitsCharacterised | src/container/hash/extendible_hash_table.cpp:32-35 | the mask is below 2^n, agrees bit by bit with the hash under n, and is the only such value |
| HashBits.BitsDetermine | src/container/hash/extendible_hash_table.cpp:32-35 | two values below 2^n with the same low n bits are equal |
| ExtendibleHashTable.BucketFind | src/container/hash/extendible_hash_table.cpp:134-143 | the scan returns the value of the first pair with the key, or none |
| ExtendibleHashTable.BucketInsert | src/container/hash/extendible_hash_table.cpp:158-171 | succeeds exactly when the key is present or the bucket is not full; then the key's value is overwritten in place or the pair appended; on failure the bucket is unchanged |
| ExtendibleHashTable.BucketRemove | src/container/hash/extendible_hash_table.cpp:146-155 | reports whether the key was present and unlinks its first pair |
| ExtendibleHashTable.PutFinds | src/container/hash/extendible_hash_table.cpp:158-171 | after a bucket insert the key yields the new value |
| ExtendibleHashTable.PutKeepsOthers | src/container/hash/extendible_hash_table.cpp:158-171 | a bucket insert leaves every other key's value alone |
| ExtendibleHashTable.PutMembers | src/container/hash/extendible_hash_table.cpp:158-171 | a bucket insert adds only the new pair and repeats no key |
| ExtendibleHashTable.EraseRemoves | src/container/hash/extendible_hash_table.cpp:146-155 | with no repeated keys the key is gone after a bucket remove |
| ExtendibleHashTable.EraseKeepsOthers | src/container/hash/extendible_hash_table.cpp:146-155 | a bucket remove leaves every other key's value alone |
| ExtendibleHashTable.EraseMembers | src/container/hash/extendible_hash_table.cpp:146-155 | a bucket remove only drops pairs and repeats no key |
| ExtendibleHashTable.PartitionBucket | src/container/hash/extendible_hash_table.cpp:94-99 | the redistribution loop moves exactly the pairs whose low `dep` hash bits differ from the first pair's pattern and keeps the others, in list order |
| ExtendibleHashTable.PartMultiset | src/container/hash/extendible_hash_table.cpp:94-99 | the two halves of a split together hold exactly the bucket's pairs |
| ExtendibleHashTable.PartDistinct | src/container/hash/extendible_hash_table.cpp:94-99 | both halves of a split of a bucket without repeated keys have none |
| ExtendibleHashTable.PartLookup | src/container/hash/extendible_hash_table.cpp:94-99 | a key yields in its half what it yielded in the bucket |
| ExtendibleHashTable.RepointSlots | src/container/hash/extendible_hash_table.cpp:101 | the intended line 101, not the code as written: every slot whose low `dep` bits equal the new bucket's pattern names the new bucket; every other slot is unchanged |
| ExtendibleHashTable.SplitBucket | src/container/hash/extendible_hash_table.cpp:89-102 | the split, as intended, yields the split directory and the bucket arena with both halves one level deeper |
| ExtendibleHashTable.SplitSlots | src/container/hash/extendible_hash_table.cpp:93-101 | a slot names the split bucket exactly when it matches the first pair's pattern, and it goes to the new bucket exactly when its bit `depth` is also set |
| ExtendibleHashTable.SplitKey | src/container/hash/extendible_hash_table.cpp:95-96 | a key in the split bucket stays exactly when bit `depth` of its slot is clear |
| ExtendibleHashTable.SplitKeepsTable | src/container/hash/extendible_hash_table.cpp:89-102 | the intended split keeps the table invariant and every key's value, and deepens the bucket of every slot that named the split bucket |
| ExtendibleHashTable.SplitShapeHolds | src/container/hash/extendible_hash_table.cpp:89-102 | the split directory still has 2^G slots naming buckets of the arena, and moves exactly the upper-pattern slots |
| ExtendibleHashTable.SplitBucketsOk | src/container/hash/extendible_hash_table.cpp:90-99 | after a split every bucket is still no deeper than the directory, within capacity and free of repeated keys |
| ExtendibleHashTable.SplitPlaced | src/container/hash/extendible_hash_table.cpp:94-101 | after a split every pair sits in the bucket its hash's slot names |
| ExtendibleHashTable.SplitShared | src/container/hash/extendible_hash_table.cpp:90-101 | after a split, slots share a bucket exactly when they agree on that bucket's depth in low bits |
| ExtendibleHashTable.SplitGet | src/container/hash/extendible_hash_table.cpp:94-101 | a split changes no key's value |
| ExtendibleHashTable.GrowKeepsTable | src/container/hash/extendible_hash_table.cpp:117-121 | doubling the directory by appending a copy of every slot keeps the invariant and every key's value |
| ExtendibleHashTable.PutKeepsTable | src/container/hash/extendible_hash_table.cpp:109-110 | inserting into the key's bucket within capacity keeps the invariant, gives the key the new value and changes no other key |
| ExtendibleHashTable.EraseKeepsTable | src/container/hash/extendible_hash_table.cpp:83-84 | removing from the key's bucket keeps the invariant, removes the key and changes no other key |
| ExtendibleHashTable.SplitDirAsWritten | src/container/hash/extendible_hash_table.cpp:101 | as written, exactly one slot, the first pair's pattern with bit `dep-1` set, is repointed to the new bucket |
| ExtendibleHashTable.AsWrittenSplitAtGlobalDepth | src/container/hash/extendible_hash_table.cpp:101 | when the split bucket ends as deep as the directory, the single repointed slot is the only one, and the as-written and intended splits agree |
| ExtendibleHashTable.AsWrittenSplitLosesKey | src/container/hash/extendible_hash_table.cpp:101 | a concrete table in which the as-written split makes a stored key unreachable, while the intended split keeps it |
| ExtendibleHashTable.HashTable.constructor | src/container/hash/extendible_hash_table.cpp:25-29 | one empty bucket of depth 0 named by the single slot of a depth-0 directory; every key yields none |
| ExtendibleHashTable.HashTable.IndexOf | src/container/hash/extendible_hash_table.cpp:32-35 | the slot is a valid directory index that agrees with the key's hash on every bit under the global depth |
| ExtendibleHashTable.HashTable.GetGlobalDepth | src/container/hash/extendible_hash_table.cpp:38-46 | the directory has 2^depth slots |
| ExtendibleHashTable.HashTable.GetLocalDepth | src/container/hash/extendible_hash_table.cpp:49-57 | the local depth is at most the global depth, and the slot's bucket is named by exactly the slots agreeing with it on that many low bits |
| ExtendibleHashTable.HashTable.GetNumBuckets | src/container/hash/extendible_hash_table.cpp:60-68 | the reported bucket count is 1 whatever the splits |
| ExtendibleHashTable.HashTable.Find | src/container/hash/extendible_hash_table.cpp:71-77 | returns what the table holds for the key |
| ExtendibleHashTable.HashTable.Remove | src/container/hash/extendible_hash_table.cpp:80-86 | reports whether the key was present, removes it, and leaves every other key and the directory unchanged |
| ExtendibleHashTable.HashTable.Grow | src/container/hash/extendible_hash_table.cpp:117-121 | global depth + 1 and the directory followed by a copy of itself; every key yields what it did |
| ExtendibleHashTable.HashTable.RedistributeBucket | src/container/hash/extendible_hash_table.cpp:89-102 | the intended split: invariant kept, every key's value kept, every slot that named the bucket now names a bucket one level deeper |
| ExtendibleHashTable.HashTable.TryInsert | src/container/hash/extendible_hash_table.cpp:109-113 | either the key now yields the value and no other key changed, or nothing changed, the key is absent and its bucket is full |
| ExtendibleHashTable.HashTable.MakeRoom | src/container/hash/extendible_hash_table.cpp:114-123 | with the intended split: the global depth grows by one exactly when the key's full bucket is as deep as the directory and is otherwise unchanged; the key's bucket ends exactly one level deeper; every key yields what it did |
| ExtendibleHashTable.HashTable.Insert | src/container/hash/extendible_hash_table.cpp:105-125 | with the intended split: afterwards the key yields the value and every other key what it yielded before; the invariant holds |
| BPlusTreeLeafPage.LeafPage.Init | src/storage/page/b_plus_tree_leaf_page.cpp:30-37 | an empty page with the given page id, parent id and maximum size; the next-page link is left as it was |
| BPlusTreeLeafPage.LeafPage.GetNextPageId | src/storage/page/b_plus_tree_leaf_page.cpp:43 | returns the next-leaf link |
| BPlusTreeLeafPage.LeafPage.SetNextPageId | src/storage/page/b_plus_tree_leaf_page.cpp:46 | afterwards the link reads back as the value set |
| BPlusTreeLeafPage.LeafPage.KeyAt | src/storage/page/b_plus_tree_leaf_page.cpp:53-56 | within the live prefix, the key of that entry |
| BPlusTreeLeafPage.LeafPage.GetItem | src/storage/page/b_plus_tree_leaf_page.cpp:59 | within the live prefix, that entry |
| BPlusTreeLeafPage.LeafPage.KeyIndex | src/storage/page/b_plus_tree_leaf_page.cpp:62-67 | the binary search returns the first position whose key is not below the key |
| KeyOrder.LowerBound | src/storage/page/b_plus_tree_leaf_page.cpp:63-65 | on a sorted range, every key before the result is smaller and every key from it on is not |
| BPlusTreeLeafPage.LowerBoundUnique | src/storage/page/b_plus_tree_leaf_page.cpp:62-67 | only one position splits the keys into smaller and not smaller |
| BPlusTreeLeafPage.LowerBoundFindsKey | src/storage/page/b_plus_tree_leaf_page.cpp:62-67 | on sorted entries a key is present exactly when the lower bound lands on it |
| BPlusTreeLeafPage.LeafPage.Insert | src/storage/page/b_plus_tree_leaf_page.cpp:70-85 | the entries become the sorted insertion of the pair, or stay unchanged when the key is present; the returned count is the new size |
| BPlusTreeLeafPage.InsertEntryCorrect | src/storage/page/b_plus_tree_leaf_page.cpp:70-85 | insertion keeps the entries sorted, changes nothing for a present key, and otherwise adds exactly the new pair |
| BPlusTreeLeafPage.InsertEntryIdempotent | src/storage/page/b_plus_tree_leaf_page.cpp:78-80 | inserting a key that was just inserted changes nothing |
| BPlusTreeLeafPage.FindAfterInsert | src/storage/page/b_plus_tree_leaf_page.cpp:70-98 | after inserting a new key, the intended lookup finds its value and every other key's result is unchanged |
| BPlusTreeLeafPage.FindIsMembership | src/storage/page/b_plus_tree_leaf_page.cpp:88-98 | on sorted entries the intended lookup yields a value exactly when that pair is stored |
| BPlusTreeLeafPage.LeafPage.LookUp | src/storage/page/b_plus_tree_leaf_page.cpp:88-98 | as written: a present key is reported missing |
| BPlusTreeLeafPage.FindAsWrittenMissesPresentKey | src/storage/page/b_plus_tree_leaf_page.cpp:93 | as written, every present key is reported missing, and an absent key reports the next larger key's value |
| BPlusTreeLeafPage.FindAsWrittenCounterexample | src/storage/page/b_plus_tree_leaf_page.cpp:93 | after inserting (5, 50), LookUp(5) fails and LookUp(4) returns 50 |
| BPlusTreeLeafPage.LeafPage.LookUpCorrected | src/storage/page/b_plus_tree_leaf_page.cpp:88-98 | with the comparison fixed: a value exactly when the key is present, and it is the stored one |
| BPlusTreeLeafPage.LeafPage.CopyNFrom | src/storage/page/b_plus_tree_leaf_page.cpp:101-104 | the given pairs are appended to the entries |
| BPlusTreeLeafPage.LeafPage.MoveHalfTo | src/storage/page/b_plus_tree_leaf_page.cpp:107-112 | slots minSize..maxSize are appended to the recipient and the page keeps minSize entries; from a full page nothing is lost |
| BPlusTreeLeafPage.SplitHalvesOrdered | src/storage/page/b_plus_tree_leaf_page.cpp:107-112 | both halves of a split are sorted and every key of the first is below every key of the second |
| BPlusTreeLeafPage.LeafPage.RemoveAndDeleteRecord | src/storage/page/b_plus_tree_leaf_page.cpp:115-123 | as written: a present key is never deleted |
| BPlusTreeLeafPage.DeleteAsWrittenKeepsPresentKey | src/storage/page/b_plus_tree_leaf_page.cpp:117 | as written, deleting a present key leaves the entries unchanged |
| BPlusTreeLeafPage.DeleteAsWrittenCounterexample | src/storage/page/b_plus_tree_leaf_page.cpp:117 | on keys 1 and 3, deleting 1 does nothing and deleting 2 removes 3 |
| BPlusTreeLeafPage.LeafPage.RemoveAndDeleteRecordCorrected | src/storage/page/b_plus_tree_leaf_page.cpp:115-123 | with the comparison fixed: the entries stay sorted and the key is gone |
| BPlusTreeLeafPage.DeleteShape | src/storage/page/b_plus_tree_leaf_page.cpp:115-123 | the intended deletion keeps the entries sorted, removes the key, and shrinks the page by one exactly when the key was present |
| BPlusTreeLeafPage.DeleteKeepsOthers | src/storage/page/b_plus_tree_leaf_page.cpp:115-123 | the intended deletion leaves every other key's lookup unchanged |
| BPlusTreeLeafPage.RemoveKeepsPresent | src/storage/page/b_plus_tree_leaf_page.cpp:120-121 | removing one slot keeps the entries sorted and every other stored pair findable |
| BPlusTreeLeafPage.RemoveKeepsAbsent | src/storage/page/b_plus_tree_leaf_page.cpp:120-121 | removing one slot adds no key |
| BPlusTreeLeafPage.LeafPage.RemoveSlot | src/storage/page/b_plus_tree_leaf_page.cpp:120-121 | the entry at the index is removed and the entries after it shift down by one |
| Shifts.MoveBackward | src/storage/page/b_plus_tree_leaf_page.cpp:81 | the slots from lo to hi - 1 move up one place; every other slot is unchanged |
| Shifts.MoveForward | src/storage/page/b_plus_tree_leaf_page.cpp:120 | the slots from lo + 1 to hi - 1 move down one place; every other slot is unchanged |
| Shifts.CopyInto | src/storage/page/b_plus_tree_leaf_page.cpp:102 | the items are written from position `at` on; every other slot is unchanged |
| Shifts.InsertAtMultiset | src/storage/page/b_plus_tree_leaf_page.cpp:81-83 | inserting at a position adds exactly that element |
| Shifts.RemoveAtMultiset | src/storage/page/b_plus_tree_leaf_page.cpp:120-121 | removing at a position drops exactly that element |
| BPlusTreeInternalPage.InternalPage.Init | src/storage/page/b_plus_tree_internal_page.cpp:28-34 | an empty page with the given page id, parent id and maximum size |
| BPlusTreeInternalPage.InternalPage.KeyAt | src/storage/page/b_plus_tree_internal_page.cpp:40-43 | within the live prefix, the separator key of that entry |
| BPlusTreeInternalPage.InternalPage.SetKeyAt | src/storage/page/b_plus_tree_internal_page.cpp:46 | only that slot's key changes |
| BPlusTreeInternalPage.InternalPage.ValueAt | src/storage/page/b_plus_tree_internal_page.cpp:53 | within the live prefix, the child page id of that entry |
| BPlusTreeInternalPage.InternalPage.SetValueAt | src/storage/page/b_plus_tree_internal_page.cpp:56 | only that slot's child id changes |
| BPlusTreeInternalPage.InternalPage.ValueIndex | src/storage/page/b_plus_tree_internal_page.cpp:59-66 | the first index holding the child id, or the size when there is none |
| BPlusTreeInternalPage.FirstValueIndexUnique | src/storage/page/b_plus_tree_internal_page.cpp:59-66 | only one index is the first one holding the child id |
| BPlusTreeInternalPage.InternalPage.LookUp | src/storage/page/b_plus_tree_internal_page.cpp:69-80 | the child of the last entry whose separator is at most the key, or of entry 0 when there is none |
| BPlusTreeInternalPage.ChildIndexUnique | src/storage/page/b_plus_tree_internal_page.cpp:69-80 | only one entry brackets the key that way |
| BPlusTreeInternalPage.ChildIndexBrackets | src/storage/page/b_plus_tree_internal_page.cpp:76-79 | every separator up to the chosen entry is at most the key, and an exact match is the chosen entry |
| BPlusTreeInternalPage.InternalPage.PopulateNewRoot | src/storage/page/b_plus_tree_internal_page.cpp:83-89 | the page holds two children split by the key |
| BPlusTreeInternalPage.InternalPage.InsertNodeAfter | src/storage/page/b_plus_tree_internal_page.cpp:92-99 | the new pair is inserted right after the old child and the size grows by one |
| BPlusTreeInternalPage.InsertAfterAscending | src/storage/page/b_plus_tree_internal_page.cpp:92-99 | a separator that fits between its neighbours keeps the separators sorted |
| BPlusTreeInternalPage.InsertAfterRoutesToNewChild | src/storage/page/b_plus_tree_internal_page.cpp:69-99 | after InsertNodeAfter places a separator between its neighbours, LookUp of that separator returns the new child |
| BPlusTreeInternalPage.InternalPage.CopyNFrom | src/storage/page/b_plus_tree_internal_page.cpp:111-121 | the pairs are appended, each of their children gets this page as parent, and each is fetched and unpinned dirty, in order |
| BPlusTreeInternalPage.InternalPage.MoveHalfTo | src/storage/page/b_plus_tree_internal_page.cpp:102-108 | the entries from minSize on move to the recipient and get it as parent; the page keeps the first minSize; nothing is lost |
| BPlusTreeInternalPage.InternalPage.Remove | src/storage/page/b_plus_tree_internal_page.cpp:124-127 | the entry at the index is removed and the entries after it shift down by one |
| BPlusTreeInternalPage.InternalPage.RemoveAndReturnOnlyChild | src/storage/page/b_plus_tree_internal_page.cpp:130-134 | returns child 0 and leaves the page empty |
| BPlusTreeInternalPage.InternalPage.MoveAllTo | src/storage/page/b_plus_tree_internal_page.cpp:137-142 | all entries move to the recipient with the middle key as the first separator; the children are re-parented; the page is empty |
| BPlusTreeInternalPage.MergeAscending | src/storage/page/b_plus_tree_internal_page.cpp:137-142 | a merge through a middle key between the two pages' separators keeps the separators sorted |
| BPlusTreeInternalPage.InternalPage.MoveFirstToEndOf | src/storage/page/b_plus_tree_internal_page.cpp:145-151 | the first child moves to the end of the recipient under the middle key and is re-parented; the page drops its first entry |
| BPlusTreeInternalPage.AppendAscending | src/storage/page/b_plus_tree_internal_page.cpp:145-151 | appending a middle key above the recipient's separators keeps it sorted |
| BPlusTreeInternalPage.DropFirstAscending | src/storage/page/b_plus_tree_internal_page.cpp:149-150 | dropping the first entry keeps the separators sorted |
| BPlusTreeInternalPage.InternalPage.MoveLastToFrontOf | src/storage/page/b_plus_tree_internal_page.cpp:154-159 | the last entry moves to the front of the recipient, whose old first separator becomes the middle key; the child is re-parented |
| BPlusTreeInternalPage.PrependAscending | src/storage/page/b_plus_tree_internal_page.cpp:154-159 | prepending with a middle key below the recipient's separators keeps it sorted |
| BPlusTreeInternalPage.InternalPage.CopyLastFrom | src/storage/page/b_plus_tree_internal_page.cpp:162-170 | the pair is appended and its child re-parented, fetched and unpinned dirty |
| BPlusTreeInternalPage.InternalPage.CopyFirstFrom | src/storage/page/b_plus_tree_internal_page.cpp:173-182 | the pair is prepended and its child re-parented, fetched and unpinned dirty |
| BPlusTreeInternalPage.WithFirstKey | src/storage/page/b_plus_tree_internal_page.cpp:139 | overwriting the unused first key changes no child and no other entry |
| BufferPool.Reparented | src/storage/page/b_plus_tree_internal_page.cpp:114-119 | every moved child now has the page as parent; every other page keeps its parent |
| BufferPool.PinTrace | src/storage/page/b_plus_tree_internal_page.cpp:114-119 | each child is fetched and then unpinned dirty, in order, and nothing else is logged |
| BufferPool.ReparentChildren | src/storage/page/b_plus_tree_internal_page.cpp:114-119 | the loop over the moved children leaves exactly the parent map `Reparented` gives and appends exactly the `PinTrace` events |

## Left out

- Keys are mathematical integers compared by `<`. The source's `GenericKey` and `GenericComparator` are not part of this model. The leaf's comparator returns -1/0/1 as in `Compare`.
- Latches (`std::mutex`, `std::scoped_lock`, `std::lock_guard`): the model is single-threaded.
- The `printf` in the hash table constructor and the page-type and LSN bookkeeping of `Init`.
- `std::hash<K>` is an uninterpreted parameter `hash: K -> nat`. The template instantiations at the end of each file are not modelled.
- The headers (`Bucket::IsFull`, `GetItems`, `IncrementDepth`, `GetMinSize`, the page base class) are not part of this model. `IsFull` is taken as "holds `bucketSize` pairs", and the minimum size is a parameter.
- The buffer pool is a ghost map of parent ids plus a log of fetch/unpin events. Its frames, disk I/O and failure to fetch are not modelled.
- Buckets live in an arena of values indexed by the directory, not behind `shared_ptr`. Sharing is explicit, and freeing is not modelled.
- `HashTable.RedistributeBucket` (and so `MakeRoom`, `Insert`) repoints every matching slot, the intended line 101; the as-written split is `SplitDirAsWritten`, see Findings. The no-key-lost promises of these members hold for the intended split only.
- Lines 94-99 of the hash table call `Remove` on the list being iterated, which invalidates the iterator. The model reads the loop as the partition the authors evidently meant: moved pairs go to the new bucket and the others stay.
- `HashTable.Insert`: the mask `(1 << depth) - 1` is an `int` shift, so doubling stops being meaningful past depth 30. The model stops there (`MaxGlobalDepth`) and returns false with no key changed, where the source would overflow. A bucket size of at least 1 is required; with 0 the source loops forever.
- `HashTable.GetNumBuckets` reports the source's `num_buckets_`, which is never updated after the constructor.
- The LRU-K timestamps and frame ids are unbounded naturals. `size_t` wrap-around of the clock is not modelled, and because a frame id is never -1, the sentinel of `Evict` cannot clash with a frame.
- `Replacer.FindVictim`: the source walks an `unordered_map` in an unspecified order. The model picks the next frame nondeterministically, and the contract holds for every order.
- A frame first seen by `RecordAccess` starts with no history and not evictable, as the value-initialised map entry does.
- `LeafPage.Insert`: the source does not check capacity before shifting. The model requires room, or the key already present, since the caller must split first.
- `LeafPage.MoveHalfTo` copies slots `minSize..maxSize` whatever the size. Its contract states no loss only when the page is full, which is when the source calls it.
- `LeafPage.Init` leaves the next-page link unchanged: the source's comment says it is set, but the code does not set it.
- `InternalPage.LookUp` requires at least one entry and sorted separators from index 1, which a B+-tree internal page always has.
- `InternalPage.InsertNodeAfter` requires the old child to be present. When it is absent, `ValueIndex` returns the size, so the insert position is size + 1; `std::move_backward` is then called with its first iterator past its last, which is undefined; the pair is written at slot size + 1, and after the size grows the new last live slot, at index size, was never written.
- The array accessors (`KeyAt`, `ValueAt`, `GetItem`) index the whole array as in the source. Their contracts describe the live prefix only.

## Findings

| source | as written | input that shows it | evidently intended | confidence | as-written member | corrected member |
|---|---|---|---|---|---|---|
| src/container/hash/extendible_hash_table.cpp:101 | after a split, only the single slot `pre_index \| (1 << (dep - 1))` is pointed at the new bucket | identity hash, bucket size 2, keys 0, 6, 1, 3, 5, 9 inserted, then inserting 4 splits the depth-1 bucket {0, 6} of an 8-slot directory: key 6 moves to the new bucket, but its slot 6 still names the old bucket, so `Find(6)` fails | every slot whose low `dep` bits equal the new pattern names the new bucket | not executed | ExtendibleHashTable.AsWrittenSplitLosesKey | ExtendibleHashTable.SplitKeepsTable |
| src/storage/page/b_plus_tree_leaf_page.cpp:93 | `!comparator(array_[idx].first, key)` is true when the keys are equal, so a found key is reported missing | page with (5, 50): `LookUp(5)` returns false and `LookUp(4)` returns 50 | return false when the comparison is non-zero | not executed | BPlusTreeLeafPage.FindAsWrittenCounterexample | BPlusTreeLeafPage.FindAfterInsert |
| src/storage/page/b_plus_tree_leaf_page.cpp:117 | `!comparator(array_[idx].first, key)` skips deletion when the keys are equal and deletes the next larger key otherwise | page with keys 1 and 3: deleting 1 leaves the page unchanged, deleting 2 removes 3 | skip deletion when the comparison is non-zero | not executed | BPlusTreeLeafPage.DeleteAsWrittenCounterexample | BPlusTreeLeafPage.DeleteKeepsOthers |

# Verified models of AK containers, streams, JSON and the kernel lock and scheduler

This project models the algorithms and protocols of the repository whose
correctness is hard to see from their code, and proves what they promise. Each
module follows one or two source files and keeps their form: objects updated in
place are classes, buffers are arrays, loops are loops with invariants.

- `RedBlackShape`, `RedBlackTree`: the red-black tree with parent pointers. The
  first holds the pure trees, positions in them and one lemma for every case of
  the two fix-up loops; the second relinks nodes and shows that each relinking is
  that case.
- `KernelLock`: the recursive reader/writer lock. A section under the inner lock
  bit is one method; a run of such sections is a sequence of events, and the
  lock's fields encode who holds it how often.
- `RefCounting`, `WeakLinks`: the atomic protocols of `RefPtr`, `RefCounted` and
  `Weakable`, as step systems with any number of threads. Every atomic operation
  is one step and atomics are sequentially consistent.
- `MemMem`, `MemoryStream`: substring search over chunk lists, bitap search, and
  the chunked stream.
- `HashTable`, `DoubleHashing`: the open-addressing table with the entries of
  `HashMap`, for any function from hash to next hash; and `double_hash`, the
  function the source uses.
- `BitmapView`: the search for a run of unset bits a word at a time.
- `QuickSort`: the dual-pivot and the single-pivot sort.
- `JsonText`, `JsonRoundTrip`, `JsonAborts`, `JsonDecimals`, `JsonParser`,
  `JsonWriter`, `JsonObject`: the parser and the serializers, each shown to
  compute functions on texts, the theorem that one undoes the other, the inputs
  on which the parser fails an assertion, and the decimal fractions it reads
  right.
- `JsonGrammar`, `JsonStandard`: the texts themselves, as syntax trees over bytes:
  exactly which the parser accepts and what it reads them as, how they relate to
  sections 2 to 7 of RFC 8259, and which are written.
- `CircularStream`: the ring buffer and its stream with seek-back reads.
- `BitStream`: bit-wise reading and writing.
- `Scheduler`: the ready queues.
- `Time`: saturating time arithmetic.
- `Basics`: options, minimum and powers of two, shared by the others.

## Where the code does not do what it seems to promise

Each of these is modelled as the code has it, with the exact condition.

- After the only node of a red-black tree is removed, `begin()` is still that
  node (`RedBlackTree.BaseRedBlackTree.Begin`, `RedBlackTree.EmptiedTree`).
- Bitap search does not find 31-byte needles (`MemMem.Bitap`,
  `MemMem.MemMemOptional`, `MemMem.NeedleMissed`).
- The losing path of `assign_if_null`, and a `swap` whose emptied slot another
  thread fills, leak a reference (`RefCounting.LeaksExactlyWhen`,
  `RefCounting.UndisturbedSwap`, `RefCounting.AssignIfNullLeaks`,
  `RefCounting.SwapLeaks`).
- A hash-table probe need not end: nothing makes the orbit of `double_hash` meet
  a never-used bucket, and `double_hash` has a fixed point. The model returns
  such a probe as an outcome of its own, exactly when the source's loop would go
  on forever (`HashTable.HashTable.LookupWithHash`, `HashTable.HashTable.Set`,
  `DoubleHashing.FixedKey`, `DoubleHashing.TwoStuckKeys`). A copy can hang
  although the original does not (`HashTable.HashTable.Copy`,
  `DoubleHashing.CopyHangs`).
- Numbers below -2^31 are narrowed to 32 bits when JSON is read back, and numbers
  above 2^63-1 are rejected (`JsonRoundTrip.RoundTrip`,
  `JsonRoundTrip.OutOfRange`).
- Reading JSON that ends in a backslash inside an open string fails an
  assertion instead of rejecting the text (`JsonAborts.AbortsExactlyWhen`,
  `JsonAborts.AbortingInputs`).
- The serializer leaves control bytes other than backspace, tab, newline and
  escape as they are, which is no text of RFC 8259
  (`JsonStandard.WritesStandard`, `JsonStandard.StringText`).
- The parser reads a pair of escaped surrogates as two characters, and refuses
  exponents (`JsonStandard.StringsRead`, `JsonStandard.PairMisread`,
  `JsonStandard.NoExponents`); it accepts a wider grammar than the
  standard's (`JsonGrammar.ParsesExactly`).
- JSON numbers with a decimal point lose their sign behind a negative zero, and
  their value with more than nine digits after the point; further points are
  ignored (`JsonDecimals.ReadExactlyWhen`, `JsonDecimals.Misread`).
- A search for unset bits that starts inside an empty word, or after the last
  whole word, can find a run before its start (`BitmapView.MovedBack`,
  `BitmapView.MovedBackInTail`, `BitmapView.MovedBackExample`).
- The mapping from thread priorities to ready queues divides integers too early,
  so that it uses two of the 32 queues (`Scheduler.BucketsByPriority`).
- `CircularDuplexStream::read_or_error` reports success without reading when an
  earlier error is pending (`CircularStream.CircularDuplexStream.ReadOrError`,
  `CircularStream.SuccessWithoutBytes`).
- The comment on `Time` gives zero as its minimum (AK/Time.h:58); the code's
  minimum is -2^63 seconds, and that is what results are clamped to.

## Model

| member | source | states |
|---|---|---|
| RedBlackTree.BaseRedBlackTree.AfterAnyRun | AK/RedBlackTree.h:125-336 | between any two operations the tree is red-black (black root, no red node with a red child, equal black heights), its keys in order are the sorted multiset of what the history put in and did not take out, `size` is exact, 2^height is at most (size+1)^2, and every parent link answers a child link |
| RedBlackTree.BaseRedBlackTree.RotateLeft | AK/RedBlackTree.h:43-68 | relinking turns the subtree at the position into its left rotation, wherever it hangs, and nothing else moves |
| RedBlackTree.BaseRedBlackTree.RotateRight | AK/RedBlackTree.h:70-95 | relinking turns the subtree at the position into its right rotation, wherever it hangs, and nothing else moves |
| RedBlackShape.RotationKeepsOrder | AK/RedBlackTree.h:43-95 | a rotation keeps the in-order sequence |
| RedBlackTree.BaseRedBlackTree.Find | AK/RedBlackTree.h:97-107 | a node with the key if the tree holds one, and null only when no node has it |
| RedBlackTree.BaseRedBlackTree.FindLargestNotAbove | AK/RedBlackTree.h:109-123 | the node found has the greatest key not above the argument; null means every key is above it |
| RedBlackTree.BaseRedBlackTree.PlaceFor | AK/RedBlackTree.h:128-137 | the search ends at the empty place before which no key is above the new one and after which every key is |
| RedBlackTree.BaseRedBlackTree.Insert | AK/RedBlackTree.h:125-157 | the new order is the old one with the fresh node after every key not above its own; the tree is valid again, cached minimum and size included |
| RedBlackTree.BaseRedBlackTree.LinkNew | AK/RedBlackTree.h:144-152 | hanging the node there and fixing up gives a red-black tree with the node in that place of the order |
| RedBlackTree.BaseRedBlackTree.InsertFixups | AK/RedBlackTree.h:159-199 | from one possible red-red violation to a red-black tree with the same nodes in the same order |
| RedBlackTree.BaseRedBlackTree.FixRight | AK/RedBlackTree.h:164-179 | one turn of the loop on the right side: recolour and move up, or rotate and finish |
| RedBlackTree.BaseRedBlackTree.FixLeft | AK/RedBlackTree.h:180-196 | one turn of the loop on the left side |
| RedBlackShape.RecolorStep | AK/RedBlackTree.h:166-170 | recolouring parent, uncle and grandparent moves the violation up two levels and keeps black heights |
| RedBlackShape.OuterRightStep | AK/RedBlackTree.h:176-178 | recolouring and rotating the grandparent ends the violation |
| RedBlackShape.InnerRightStep | AK/RedBlackTree.h:172-175 | rotating the parent turns the inner case into the outer one |
| RedBlackShape.OuterLeftStep | AK/RedBlackTree.h:192-194 | the mirror image of the outer case |
| RedBlackShape.InnerLeftStep | AK/RedBlackTree.h:188-191 | the mirror image of the inner case |
| RedBlackTree.BaseRedBlackTree.Remove | AK/RedBlackTree.h:201-278 | the new order is the old one without the node; the tree is valid again, and the minimum has moved to the successor if it was the node |
| RedBlackTree.BaseRedBlackTree.SwapWithSuccessor | AK/RedBlackTree.h:218-258 | exchanging links, colours and places with the successor leaves the same shape with the two nodes exchanged, adjacent or not |
| RedBlackShape.SwapThenWithout | AK/RedBlackTree.h:218-258 | exchanging a node with its successor changes nothing once the node is gone |
| RedBlackTree.BaseRedBlackTree.Settle | AK/RedBlackTree.h:215-258 | after it the node has at most one child and removing it still gives the same order |
| RedBlackTree.BaseRedBlackTree.Unlink | AK/RedBlackTree.h:260-271 | the only child takes the node's place |
| RedBlackTree.BaseRedBlackTree.Detach | AK/RedBlackTree.h:260-275 | unlinking, and fixing up when the node was black, gives a red-black tree without the node |
| RedBlackShape.OneChildLess | AK/RedBlackTree.h:260-275 | taking out a red node leaves the tree red-black; a black one leaves its place exactly one black node short |
| RedBlackTree.BaseRedBlackTree.RemoveFixups | AK/RedBlackTree.h:281-336 | from a place one black node short to a red-black tree in the same order |
| RedBlackTree.BaseRedBlackTree.UnshortLeft | AK/RedBlackTree.h:284-307 | one turn of the loop for a left child |
| RedBlackTree.BaseRedBlackTree.UnshortRight | AK/RedBlackTree.h:308-332 | one turn of the loop for a right child |
| RedBlackShape.RedSiblingLeftStep | AK/RedBlackTree.h:286-291 | a red sibling is rotated above the parent and the shortage stays where it was |
| RedBlackShape.RedSiblingRightStep | AK/RedBlackTree.h:310-315 | the mirror image of the red sibling |
| RedBlackShape.PassUpStep | AK/RedBlackTree.h:292-294 | with black nephews the sibling turns red and the shortage moves up one level |
| RedBlackShape.TurnStep | AK/RedBlackTree.h:296-301 | a red inner nephew is rotated to the outside |
| RedBlackShape.RepayStep | AK/RedBlackTree.h:302-306 | a red outer nephew repays the shortage |
| RedBlackTree.BaseRedBlackTree.Successor | AK/RedBlackTree.h:338-354 | the node after this one in order, null at the end |
| RedBlackTree.BaseRedBlackTree.Predecessor | AK/RedBlackTree.h:356-372 | the node before this one in order, null at the beginning |
| RedBlackTree.BaseRedBlackTree.ThereAndBack | AK/RedBlackTree.h:338-372 | the predecessor of the successor is the node; there is no successor exactly at the end |
| RedBlackTree.BaseRedBlackTree.Begin | AK/RedBlackTree.h:457-464 | `begin()` is the first node in order, or `end()` in an empty tree, exactly when the tree is not empty or nothing was ever inserted; otherwise it is the node removed last, no longer in the tree |
| RedBlackTree.BaseRedBlackTree.Traverse | AK/RedBlackTree.h:457-464 | stepping from `begin()` to the end meets every node once, in order, under that condition |
| RedBlackTree.EmptiedTree | AK/RedBlackTree.h:206-210 | after one insertion and its removal the tree is empty and `begin()` is the removed node |
| RedBlackTree.BaseRedBlackTree.LinksAgree | AK/RedBlackTree.h:43-95 | in a linked tree every child's parent is its parent and the two children differ |
| RedBlackShape.PlayedRun | AK/RedBlackTree.h:125-278 | after any run of insertions and removals the order is sorted and holds exactly what was inserted less what was removed |
| RedBlackShape.HeightBound | AK/RedBlackTree.h:159-199 | a red-black tree with n nodes is at most 2 log2(n+1) high |
| KernelLock.EveryRun | Kernel/Lock.cpp:26-325 | in every run an exclusive holder is alone, an unlocked lock has no holders, and each thread's depth is what it acquired less what it released |
| KernelLock.ThenSound | Kernel/Lock.cpp:26-325 | every event keeps that, and changes the depth of no thread but its own |
| KernelLock.Lock.CountMeans | Kernel/Lock.cpp:116-174 | the count is 0 exactly when unlocked with no holders; exclusive, it is the only holder's depth; shared, it is the sum of the holders' positive depths |
| KernelLock.Lock.TryLock | Kernel/Lock.cpp:26-106 | one section of `lock`: it acquires exactly when nobody holds the lock, or the thread alone holds it exclusively, or it is shared and wanted shared; the mode is the one wanted if the lock was free and stays otherwise, the count rises by one modulo 2^32 and stays right exactly while the sum fits |
| KernelLock.PossibleExactlyWhen | Kernel/Lock.cpp:26-325 | in every run, locking, unlocking, forcing and restoring are possible exactly when the run's own counts of acquisitions and releases, and the mode asked for when the lock was last taken, say so |
| KernelLock.ModeIsTaken | Kernel/Lock.cpp:26-325 | in every run the mode is the one asked for by whoever took the lock when nobody held it |
| KernelLock.TakeTwice | Kernel/Lock.cpp:56-78 | a thread takes the lock exclusively twice, while another has to wait |
| KernelLock.Lock.Unlock | Kernel/Lock.cpp:109-175 | a holder's depth drops by one; the lock is free exactly when that was the last |
| KernelLock.Lock.ForceUnlockIfLocked | Kernel/Lock.cpp:177-254 | the thread's whole depth is released and reported with the mode; a thread that holds nothing reports Unlocked and changes nothing |
| KernelLock.Lock.TryRestore | Kernel/Lock.cpp:264-325 | one section of `restore_lock`: it restores exactly when nobody holds the lock or it is shared and wanted shared, giving the thread the whole count in the mode wanted |
| KernelLock.ForceThenRestore | Kernel/Lock.cpp:177-325 | whatever other threads did in between, restoring what was forced out is possible exactly when the lock admits the mode, and gives back that mode and depth without touching any other thread's depth |
| KernelLock.OthersLeaveDepth | Kernel/Lock.cpp:26-325 | no run of other threads changes a thread's depth |
| RefCounting.EveryRun | AK/RefPtr.h:50-107 | in every interleaving the invariant holds: each count equals the slots naming the object plus the references threads hold in flight plus those leaked; a lock bit has one owner; an object is destroyed at most once, by the thread that saw zero |
| RefCounting.StepKeepsCounted | AK/RefPtr.h:393-423 | every atomic step keeps each count equal to the references |
| RefCounting.StepKeepsLocks | AK/RefPtr.h:83-107 | every step keeps each set lock bit with exactly one thread, and the slot holding what that thread saw |
| RefCounting.LockedSlotsStay | AK/RefPtr.h:83-107 | while a slot's lock bit is set, no step of any thread changes the pointer in it |
| RefCounting.StepKeepsDestroyed | AK/RefCounted.h:81-105 | every step keeps destruction at most once and leaves no object without references that nobody is destroying |
| RefCounting.NoUseAfterDestruction | AK/RefCounted.h:50-105 | in every run `ref` and `unref` meet a positive count of a live object, destruction meets count zero, and no slot or thread names a destroyed object |
| RefCounting.AtRest | AK/RefCounted.h:94-105 | when all threads are idle, an object has been destroyed exactly once if no slot names it and no reference to it was leaked, and not at all otherwise |
| RefCounting.OperationAccesses | AK/RefPtr.h:194-303 | in every run, from the start of a copy, move, adoption, clearing, swap or `assign_if_null` until its thread is idle again, whatever others do in between, the thread's steps store exactly what the operation is to store, in order: a copy stores what it saw in the source, a move what it took out of it, a swap what each exchange found, and `assign_if_null` only into an empty slot |
| RefCounting.UndisturbedOperation | AK/RefPtr.h:194-303 | in every run, if no other thread changes some slots meanwhile, the operation's among them, they end up as intended: the target holds the source's value, a moved-from slot is empty, swapped slots are exchanged, `assign_if_null` fills its target exactly if it was null, and every other slot is as before |
| RefCounting.OperationFinishes | AK/RefPtr.h:50-107 | an operation of a thread that runs alone while no lock bit is set is over within eight steps |
| RefCounting.CanBegin | AK/RefPtr.h:194-303 | an idle thread can begin any operation on slots that are there |
| RefCounting.LeaksExactlyWhen | AK/RefPtr.h:194-287 | in every state the invariant allows, a step makes some object's count exceed the slots and threads that name it exactly when `assign_if_null` finds its target taken or an exchange of `swap` finds something in the slot it had emptied, and then by one, for that object alone |
| RefCounting.UndisturbedSwap | AK/RefPtr.h:194-203 | in every run, from the exchange with which a `swap` empties its slot, as long as no other thread changes that slot neither that exchange nor the last one leaks, whatever else happens in between |
| RefCounting.SwapLeaks | AK/RefPtr.h:194-203 | a run in which another thread adopts into the slot between the exchanges of a `swap`, after which an object has a count and nobody names it |
| RefCounting.PlainRunsDoNotLeak | AK/RefPtr.h:393-423 | runs of copying, moving, adopting and clearing never leak |
| RefCounting.AssignIfNullLeaks | AK/RefPtr.h:66-81 | a run of `assign_if_null` after which an object has a count and nobody names it |
| WeakLinks.EveryRun | AK/Weakable.h:33-87 | in every interleaving `m_consumers` counts the callers inside plus the revocation flag, and the target's count is its strong references |
| WeakLinks.StepKeeps | AK/Weakable.h:33-87 | every atomic step of a caller, a holder or the destructor keeps that |
| WeakLinks.NoTouchAfterRevoke | AK/Weakable.h:71-87 | once `revoke` has returned at some point of a run, then at every later point it has still returned and no caller is about to touch the target or may yet decide to |
| WeakLinks.StrongOnlyWhileAlive | AK/RefCounted.h:57-67 | a caller obtains a strong reference only from a positive count, before destruction has begun |
| WeakLinks.CallReturns | AK/Weakable.h:33-56 | in every run a call of `strong_ref` returns a reference exactly when it raised the count itself: it does if the count is positive throughout the call, and does not if it was zero when the call began |
| WeakLinks.CallFinishes | AK/Weakable.h:33-56 | an uninterrupted call at a positive count is over in four steps |
| WeakLinks.RevokeFinishes | AK/Weakable.h:71-87 | with the count at zero and nobody inside, the destructor is through in four steps |
| WeakLinks.Lifecycle | AK/RefCounted.h:50-105 | a run that copies a reference, drops both, and frees the target |
| WeakLinks.ZeroIsFinal | AK/RefCounted.h:57-67 | a count that reached zero stays zero in every continuation |
| MemMem.PrepareTable | AK/MemMem.h:48-69 | entry i is the longest border of the first i bytes that is followed by a different byte, or -1 |
| MemMem.FallbackOfCandidate | AK/MemMem.h:57-58 | equal bytes inherit the candidate's entry |
| MemMem.NextLongest | AK/MemMem.h:61-66 | the inner loop ends at the longest border of the prefix one longer |
| MemMem.ScanFallsBack | AK/MemMem.h:92-97 | falling back on a mismatch skips no occurrence |
| MemMem.ScanAdvances | AK/MemMem.h:84-90 | a match of the last needle byte is the first occurrence |
| MemMem.SearchChunks | AK/MemMem.h:45-101 | for every chunking, the first occurrence of a non-empty needle in the concatenation, or nothing when there is none |
| MemMem.Bitap | AK/MemMem.h:18-42 | for needles of 1 to 30 bytes the first occurrence; for 31 bytes always nothing, because the int mask becomes negative and widens |
| MemMem.TracksOn | AK/MemMem.h:33-35 | after each byte, bit k of the lookup is clear exactly when the last k bytes are the first k of the needle |
| MemMem.MemMemOptional | AK/MemMem.h:103-127 | the naive first occurrence, for all inputs except exactly one family: a 31-byte needle that occurs in a longer haystack is not found |
| MemMem.NeedleMissed | AK/MemMem.h:103-127 | a 31-byte needle at the front of a 32-byte haystack is not found |
| MemoryStream.DuplexMemoryStream.Write | AK/MemoryStream.h:217-231 | appends all the bytes to what is unread, across chunk borders |
| MemoryStream.DuplexMemoryStream.ReadWithoutConsuming | AK/MemoryStream.h:182-192 | the first unread bytes, as many as asked for or left |
| MemoryStream.DuplexMemoryStream.Read | AK/MemoryStream.h:194-205 | what is read followed by what is left is what was unread; after an error nothing is read |
| MemoryStream.DuplexMemoryStream.DiscardOrError | AK/MemoryStream.h:145-155 | drops exactly that many unread bytes, or sets the error and drops none |
| MemoryStream.DuplexMemoryStream.OffsetOf | AK/MemoryStream.h:157-180 | the first position of a non-empty value in the unread bytes, found by the chunked search |
| MemoryStream.DuplexMemoryStream.TryDiscardChunks | AK/MemoryStream.h:255-261 | drops the chunks read completely and loses no unread byte |
| HashTable.HashTable.Set | AK/HashTable.h:185-202 | the map gains or replaces the key; the result says which; one doubling happens exactly when the load bound asks for it; it hangs exactly when, without growth, no probe of the key's orbit stops, or, with growth, some entry moved in bucket order into the doubled table, or the key after them, has no end to its probe; a new key in a table without tombstones goes to the first place where its search ends |
| HashTable.HashTable.Find | AK/HashTable.h:204-224 | a bucket with the key's entry exactly when the map holds the key; it hangs exactly when the table is not empty and no probe of the key's orbit stops, which needs an orbit that misses a place |
| HashTable.HashTable.LookupWithHash | AK/HashTable.h:286-303 | the probe loop: found, absent, or endless, and endless exactly when no probe of the whole infinite orbit stops |
| HashTable.HashTable.Remove | AK/HashTable.h:226-248 | removes the key from the map and says whether it was there; size and tombstone counts stay exact; it hangs exactly when the search for the key does |
| HashTable.HashTable.LookupForWriting | AK/HashTable.h:310-333 | after growing if needed: the key's bucket, or the first unused bucket of a probe that proves the key absent; it hangs exactly when the growth or the search for the key after it does |
| HashTable.HashTable.InsertDuringRehash | AK/HashTable.h:251-256 | adds one entry to a half-filled table, possibly by a nested rehash, and loses none: the entry goes to the first place where the search for its key ends in the table grown if need be, and it hangs exactly when the growth or that search does |
| HashTable.HashTable.Rehash | AK/HashTable.h:258-284 | for every requested capacity, and for rehashes nested in it, the map is unchanged, no tombstones are left and the next insertion has room; the new buckets are those of refilling an empty table in bucket order, growing on the way where the code does, and it hangs exactly when an entry on the way has no end to its probe |
| HashTable.HashTable.PartlyFilled | AK/HashTable.h:251-284 | a growth that hangs stands in a table of the new capacity that holds exactly the entries of the first buckets of the old one, and a key it does not hold has no end to its probe there |
| HashTable.HashTable.EmptyGrows | AK/HashTable.h:310-333 | the first insertion into a table without entries that grows for it always ends |
| HashTable.GrowthPoint | AK/HashTable.h:335-336 | a table grows when the next entry would make it three fifths full or more, to twice its capacity, and from nothing to four |
| HashTable.RefillHolds | AK/HashTable.h:251-284 | refilling an empty table with the entries of the first i buckets, nested growth included, gives a table with exactly these entries unless one of them has no end to its probe |
| HashTable.HashTable.EnsureCapacity | AK/HashTable.h:137-141 | the map is unchanged, the capacity is at least twice what was asked for and the table is below its load bound; it hangs exactly when refilling a table of that capacity does |
| HashTable.HashTable.NeverUsedBucket | AK/HashTable.h:335-336 | between operations the load bound leaves a never-used bucket |
| HashTable.HashTable.WithCapacity | AK/HashTable.h:70-70 | an empty table of at least that capacity |
| HashTable.HashTable.Begin | AK/HashTable.h:150-157 | the first used bucket |
| HashTable.HashTable.SkipToNext | AK/HashTable.h:33-44 | the next used bucket, or none |
| HashTable.HashTable.Copy | AK/HashTable.h:85-90 | the copy holds the same map, in the buckets of refilling a table of the same capacity in bucket order; it hangs exactly when an entry on the way has no end to its probe |
| HashTable.OneBucketPerKey | AK/HashTable.h:185-202 | no two used buckets hold equal keys |
| HashTable.FreeMeansAbsent | AK/HashTable.h:298-299 | a never-used bucket on the key's path shows that the key is absent |
| HashTable.Recurs | AK/HashTable.h:292-302 | whatever the 32-bit probe function, every probe, however late, repeats one of the first 2^32 |
| HashTable.CoveringEnds | AK/HashTable.h:292-302 | a probe whose orbit meets every place ends, because the load bound leaves a never-used bucket |
| DoubleHashing.StuckStays | AK/HashFunctions.h:22-30 | `double_hash` maps 1711463637 to itself |
| DoubleHashing.FixedKey | AK/HashTable.h:292-302 | a key whose hash the probe function fixes is searched for without end exactly when its place holds another entry or a deleted one |
| DoubleHashing.StuckAfter | AK/HashTable.h:292-302 | once a key with such a hash is in the table, a search for another with the same hash never ends |
| DoubleHashing.TwoStuckKeys | AK/HashTable.h:310-333 | of two keys with that hash the first is inserted into an empty table, and inserting the second never finishes |
| DoubleHashing.CopyHangs | AK/HashTable.h:85-90 | two keys, with the hashes 1711463637 and 65, that an empty table takes one after the other, and that copying this table never gets past |
| BitmapView.FindFirstFit | AK/BitmapView.h:408-416 | for every size and length, the least position where that many bits are unset, and nothing exactly when there is none |
| BitmapView.FindNextRange | AK/BitmapView.h:288-380 | for every start, the first fit at or after the place where the search really begins, and as many bits as it reports are unset from there; a run of length zero asked for after the last whole word is found at the start |
| BitmapView.FromStartWhen | AK/BitmapView.h:288-317 | the search is the first fit from the given start exactly when no run begins between where it really begins and the start; otherwise it finds a run before the start |
| BitmapView.ScanWord | AK/BitmapView.h:326-360 | the word loop extends the scan to the end of the word or has the first fit |
| BitmapView.ScanTail | AK/BitmapView.h:363-377 | the bits after the last whole word, one at a time |
| BitmapView.WordBit | AK/BitmapView.h:294-294 | bit i of the 32-bit word is bit 32k+i of the bitmap |
| BitmapView.LeadingZeroes | AK/BitmapView.h:341-348 | counting trailing zeroes finds the run of unset bits up to the next set one |
| BitmapView.LeadingOnes | AK/BitmapView.h:354-358 | counting trailing ones finds a run of set bits |
| BitmapView.MovedBack | AK/BitmapView.h:313-317 | from a start inside a whole word the search finds something else than the first fit from there exactly when the word is empty, the start is not its first bit and the run fits from that bit; then it finds that bit, before the start |
| BitmapView.MovedBackWithinWord | AK/BitmapView.h:313-317 | for runs of up to 32 bits that is exactly when the word is empty and the start is not its first bit |
| BitmapView.MovedBackInTail | AK/BitmapView.h:363-377 | from a start after the last whole word, exactly when a run begins between the end of that word and the start |
| BitmapView.MovedBackExample | AK/BitmapView.h:288-380 | in an empty bitmap of 40 bits a search for one bit from 5 finds 0, and from 35 finds 32 |
| QuickSort.DualPivotQuickSort | AK/QuickSort.h:18-90 | for every strict weak order it ends with a sorted permutation of the range, nothing outside the range changes, and the recursion is at most log2(n) deep |
| QuickSort.ChoosePivots | AK/QuickSort.h:22-36 | a permutation whose ends are in order |
| QuickSort.Partition | AK/QuickSort.h:38-66 | a permutation split in three parts by the two pivots in their final places |
| QuickSort.PartitionStep | AK/QuickSort.h:46-60 | one turn keeps the three regions |
| QuickSort.PlacedSplit | AK/QuickSort.h:62-66 | swapping the pivots into place completes the split |
| QuickSort.SortTwoParts | AK/QuickSort.h:68-88 | after sorting the two shorter parts, each at most half, only the third is left, and it is shorter |
| QuickSort.SplitOrders | AK/QuickSort.h:68-88 | elements of different parts are in order whatever happens inside the parts |
| QuickSort.SinglePivotQuickSort | AK/QuickSort.h:92-125 | a sorted permutation, with recursion at most log2(n) deep |
| QuickSort.PartitionOne | AK/QuickSort.h:100-114 | a permutation split by the pivot in its final place |
| QuickSort.SortShorterPart | AK/QuickSort.h:96-123 | one turn of the loop: the part recurred into is at most half |
| QuickSort.QuickSortCollection | AK/QuickSort.h:139-143 | the whole collection is sorted and a permutation |
| JsonRoundTrip.RoundTrip | AK/JsonObject.h:118-176 | parsing the text of a value gives the value back if and only if every number in it is between -2^31 and 2^63-1; otherwise it gives the value with numbers narrowed to 32 bits, or a rejection |
| JsonRoundTrip.ParseSerialized | AK/JsonParser.cpp:248-280 | the same for a value in any surrounding text, which is left over unread |
| JsonRoundTrip.RereadExactly | AK/JsonParser.cpp:207-219 | reading a number changes it exactly when it is outside that range |
| JsonRoundTrip.OutOfRange | AK/JsonParser.cpp:207-219 | -2147483649 is read back as 2147483647, and 2^63 is rejected |
| JsonAborts.UnescapeAborts | AK/JsonParser.cpp:14-79 | reading a string fails the VERIFY exactly when the input is whole characters and escapes and a last backslash |
| JsonAborts.AbortsExactlyWhen | AK/JsonParser.cpp:282-291 | the parser fails the VERIFY exactly when the input is a value that breaks off there, or arrays and objects with complete members before such a value or key |
| JsonAborts.AbortsAtTheEnd | AK/JsonParser.cpp:14-79 | so the input ends in a backslash, inside a string that began and was not closed |
| JsonAborts.AbortingInputs | AK/JsonParser.cpp:14-79 | a quote and a backslash make the parser fail the VERIFY, alone, in an array and as a key |
| JsonGrammar.ParsesExactly | AK/JsonParser.cpp:81-291 | the parser answers a text with a value exactly when some syntax tree spells that text byte by byte and reads as that value: objects, arrays, commas, colons, literals, strings, numerals and white space between any two of them, and nothing else |
| JsonGrammar.ReadsValue | AK/JsonParser.cpp:248-280 | every text such a tree spells is read as the tree says, in any surrounding text, or refused for a numeral in it |
| JsonGrammar.ValueIs | AK/JsonParser.cpp:248-280 | whatever is read as a value is spelled by such a tree |
| JsonGrammar.ReadsString | AK/JsonParser.cpp:14-79 | plain bytes stand for themselves, a backslash and a letter for the byte the letter names, and `\u` and four bytes for an encoded code point or a question mark |
| JsonGrammar.StringIs | AK/JsonParser.cpp:14-79 | whatever is read as a string is made of such characters and a closing quote |
| JsonGrammar.HexRead | AK/JsonParser.cpp:58-64 | four hexadecimal digits are read as the UTF-8 encoding of their value |
| JsonGrammar.HexRefused | AK/JsonParser.cpp:58-64 | a byte among the four that is neither a hexadecimal digit nor white space makes them a question mark |
| JsonGrammar.Utf8Decodes | AK/StringBuilder.cpp:110-131 | decoding lead and continuation bytes gives every code point back, from the shortest form; a number past the last code point becomes the replacement character |
| JsonStandard.ReadsStandard | AK/JsonParser.cpp:282-291 | every text of the grammar of RFC 8259 without exponents is read as its tree says, or refused for a number in it |
| JsonStandard.ReadAsDenoted | AK/JsonParser.cpp:248-280 | a tree of that grammar is read as what it denotes if its numbers are integers between -2^31 and 2^63-1 and no string has a pair of escaped surrogates |
| JsonStandard.ReadsInteger | AK/JsonParser.cpp:207-219 | an integer, by the places of its digits, is read exactly between -2^31 and 2^63-1, cut to 32 bits down to -2^63, and refused otherwise |
| JsonStandard.PlusSign | AK/StringUtils.cpp:88-119 | the conversion to 64 bits reads digits behind a plus sign as without it |
| JsonStandard.Cut | AK/JsonParser.cpp:214-216 | cutting to 32 bits keeps the value modulo 2^32 |
| JsonStandard.StringsRead | AK/JsonParser.cpp:14-79 | a string of that grammar is read as what it denotes exactly when it has no pair of escaped surrogates, which is read as two characters |
| JsonStandard.PairMisread | AK/JsonParser.cpp:58-64 | the escapes of the two surrogates of one code point are read as six bytes instead of four |
| JsonStandard.NoExponents | AK/JsonParser.cpp:152-221 | a number with an exponent is refused |
| JsonStandard.WritesStandard | AK/JsonObject.h:118-176 | the text written for a value is spelled by a tree that denotes the value, and that is in the grammar of RFC 8259 exactly when no string or key has a control byte other than backspace, tab, newline and escape |
| JsonStandard.StringWritten | AK/StringBuilder.cpp:141-167 | how each byte of a string is spelled, that this denotes the string, and when it is a string of the standard |
| JsonStandard.NothingSpecialLeft | AK/StringBuilder.cpp:141-167 | no backspace, tab, newline or escape is left in an escaped string, and no quote or backslash outside the escapes |
| JsonStandard.ArrayText | AK/JsonArraySerializer.h:81-86 | the bytes written for an array of two numbers |
| JsonStandard.ObjectText | AK/JsonObjectSerializer.h:130-139 | the bytes written for an object with one member |
| JsonStandard.StringText | AK/StringBuilder.cpp:141-167 | the bytes written for a newline and a carriage return, the second of which RFC 8259 does not allow |
| JsonDecimals.ReadExactlyWhen | AK/JsonParser.cpp:178-206 | a number with a decimal point is read as the number it stands for, up to rounding, exactly when the part before the point fits 32 bits and the digits after it are at most nine and not behind a negative zero, or are fewer than 32 zeroes |
| JsonDecimals.Misread | AK/JsonParser.cpp:152-206 | -0.5 is read as 0.5, 1.0000000005 as 1 and 5/1410065408, and 1.2.3 as 1.23 |
| JsonText.UnescapeEscaped | AK/StringBuilder.cpp:141-167 | unescaping undoes escaping for every byte string |
| JsonText.DigitsRead | AK/Format.cpp:33-59 | the decimal digits of a number read back as that number |
| JsonWriter.WriteAndRead | AK/JsonParser.cpp:282-291 | the serializer followed by the parser returns the value if and only if its numbers are in range |
| JsonWriter.SerializeInto | AK/JsonObject.h:135-176 | appends exactly the text of the value, recursively |
| JsonWriter.SerializeArray | AK/JsonArray.h:84-89 | items separated by commas between brackets |
| JsonWriter.SerializeObject | AK/JsonObject.h:118-125 | members in order, separated by commas between braces |
| JsonWriter.ArraySerializer.BeginItem | AK/JsonArraySerializer.h:81-86 | a comma before every item but the first |
| JsonWriter.ObjectSerializer.BeginItem | AK/JsonObjectSerializer.h:130-139 | a comma before every member but the first, then the quoted key and a colon |
| JsonWriter.StringBuilder.AppendEscapedForJson | AK/StringBuilder.cpp:141-167 | appends the escaped text |
| JsonWriter.ConvertUnsignedToString | AK/Format.cpp:33-59 | the loop that fills and reverses the buffer produces the decimal digits of every 64-bit number within 128 bytes |
| JsonWriter.StringBuilder.AppendNumber | AK/Format.cpp:314-329 | appends sign and decimal digits of every signed or unsigned 64-bit number, the least one included, whose negation wraps |
| JsonObject.JsonObject.Set | AK/JsonObject.h:80-85 | the member list loses the key, if it had it, and gains it at the end |
| JsonObject.JsonObject.Remove | AK/JsonObject.h:96-103 | the member list loses the key and keeps its order |
| JsonObject.JsonObject.ForEachMember | AK/JsonObject.h:87-94 | visits the member list in order |
| JsonObject.SetTwice | AK/JsonObject.h:80-85 | setting a key twice keeps only the later value |
| JsonParser.JsonParser.Parse | AK/JsonParser.cpp:282-291 | accepts and returns what the grammar functions do, for every input |
| JsonParser.JsonParser.ParseHelper | AK/JsonParser.cpp:248-280 | consumes exactly one value |
| JsonParser.JsonParser.ParseObjectHere | AK/JsonParser.cpp:81-114 | an object, with repeated keys keeping the last value |
| JsonParser.JsonParser.ParseArrayHere | AK/JsonParser.cpp:116-142 | an array |
| JsonParser.JsonParser.ParseNumberHere | AK/JsonParser.cpp:152-225 | a number as `to_uint`, then `to_int`, then the narrowing decide |
| JsonParser.JsonParser.ConsumeAndUnescapeString | AK/JsonParser.cpp:14-79 | a string up to its closing quote, or a rejection, or a failed VERIFY at a final backslash |
| JsonParser.ConvertToInt64 | AK/StringUtils.cpp:88-119 | the signed value of the trimmed text exactly when it is digits and fits 64 bits, although overflow is noticed digit by digit |
| JsonParser.ConvertToUint | AK/StringUtils.cpp:126-147 | the value of the trimmed text exactly when it is digits and fits 32 bits |
| JsonParser.ConvertToUintFromHex | AK/StringUtils.cpp:156-186 | the value of the trimmed text exactly when it is hexadecimal digits and fits 32 bits |
| JsonParser.TrimWhitespace | AK/StringUtils.cpp:295-322 | the text without white space at its ends |
| CircularStream.CircularQueue.Enqueue | AK/CircularQueue.h:43-55 | appends the value, dropping the oldest when full |
| CircularStream.CircularQueue.Dequeue | AK/CircularQueue.h:57-66 | removes and returns the oldest value |
| CircularStream.CircularQueue.At | AK/CircularQueue.h:68-68 | the queued value at the index |
| CircularStream.CircularDuplexStream.Write | AK/CircularDuplexStream.h:19-28 | as many bytes as there is room for are appended to what is unread |
| CircularStream.CircularDuplexStream.WriteOrError | AK/CircularDuplexStream.h:30-40 | all the bytes or an error and none |
| CircularStream.CircularDuplexStream.Read | AK/CircularDuplexStream.h:42-53 | what is read followed by what is left is what was unread; nothing after an error |
| CircularStream.CircularDuplexStream.ReadBack | AK/CircularDuplexStream.h:55-70 | the bytes written that many positions ago onward, dequeued or not, whenever that is within the capacity and the history; an error otherwise |
| CircularStream.CircularDuplexStream.ReadOrError | AK/CircularDuplexStream.h:72-81 | it reports success whenever enough is queued, although after an earlier error it reads nothing |
| CircularStream.SuccessWithoutBytes | AK/CircularDuplexStream.h:72-81 | after a write that does not fit, reading a byte that is there succeeds and delivers nothing |
| CircularStream.CircularDuplexStream.DiscardOrError | AK/CircularDuplexStream.h:83-94 | drops exactly that many unread bytes, or sets the error and drops none |
| CircularStream.CircularDuplexStream.RemainingContiguousSpace | AK/CircularDuplexStream.h:99-102 | the longest stretch of slots that is free and does not go round |
| CircularStream.CircularDuplexStream.ReserveContiguousSpace | AK/CircularDuplexStream.h:104-114 | the reserved slots count as written with what they hold |
| CircularStream.CircularDuplexStream.FillReserved | AK/CircularDuplexStream.h:104-114 | filling the span just reserved replaces exactly those bytes of the history |
| CircularStream.RecentGrows | AK/CircularDuplexStream.h:19-70 | byte t of the history stays at slot t mod Capacity until byte t + Capacity replaces it |
| BitStream.OutputBitStream.WriteBits | AK/BitStream.h:138-173 | appends the low `count` bits, least significant first, whichever fast path ran; the stream fails exactly when the completed bytes do not fit |
| BitStream.OutputBitStream.AlignToByteBoundary | AK/BitStream.h:180-188 | the bytes are the bits written, filled up with zeros |
| BitStream.InputBitStream.ReadBits | AK/BitStream.h:64-89 | the next `count` bits as the low end of a word, or a fatal error and zero when there are not enough |
| BitStream.InputBitStream.AlignToByteBoundary | AK/BitStream.h:93-97 | drops the rest of the started byte |
| BitStream.WriteThenRead | AK/BitStream.h:64-188 | for every sequence of calls, reading with the same counts gives back the low bits of every value |
| BitStream.LowIsModulo | AK/BitStream.h:64-89 | those low bits are the value modulo 2^count |
| Scheduler.ReadyQueues.QueueRunnableThread | Kernel/Scheduler.cpp:131-147 | the thread goes to the end of its bucket, whose mask bit is set; the idle thread is not queued |
| Scheduler.ReadyQueues.DequeueRunnableThread | Kernel/Scheduler.cpp:108-129 | the bucket loses the thread and keeps the order of the others; it is refused exactly when the thread is not queued or, if asked, not allowed on the processor |
| Scheduler.ReadyQueues.PullNextRunnableThread | Kernel/Scheduler.cpp:70-106 | the oldest inactive thread allowed on the processor, of the best bucket that has one; the idle thread only if no bucket has one |
| Scheduler.ReadyQueues.Select | Kernel/Scheduler.cpp:75-104 | the walk over the mask finds that thread's place |
| Scheduler.ReadyQueues.OnePlace | Kernel/Scheduler.cpp:80-81 | a thread is in at most one bucket, once, and its own priority says which |
| Scheduler.BucketsByPriority | Kernel/Scheduler.cpp:58-68 | a higher priority never gets a worse bucket; but only the lowest priority is told from the others |
| Scheduler.PassedOver | Kernel/Scheduler.cpp:69-103 | of two queued threads the first, which may not run on the processor, is passed over and stays queued, and the second is pulled once |
| Time.Add | AK/Time.cpp:179-218 | the exact sum in nanoseconds, clamped to the representable times |
| Time.Subtract | AK/Time.cpp:226-243 | the exact difference in nanoseconds, clamped |
| Time.AddThenSubtract | AK/Time.cpp:179-243 | subtracting what was added gives the time back if and only if the sum was representable |
| Time.OrderIsNanos | AK/Time.cpp:251-266 | the comparisons order times by their nanoseconds |
| Time.FromHalfSanitized | AK/Time.cpp:268-288 | the exact time, clamped |
| Time.FromTimespec | AK/Time.cpp:53-58 | the exact time of the seconds and the nanoseconds as 32 bits hold them, clamped |
| Time.FromTimeval | AK/Time.cpp:59-65 | the exact time of the seconds and the microseconds as 32 bits hold them, clamped |
| Time.Wraps | AK/Time.cpp:53-65 | a conversion to 32 bits keeps the value modulo 2^32 |
| Time.SaneMod | AK/Time.h:87-111 | floored quotient and non-negative remainder from truncating division |
| Time.FromNanoseconds | AK/Time.h:115-119 | exactly that many nanoseconds |
| Time.FromMicroseconds | AK/Time.h:120-124 | exactly that many microseconds |
| Time.FromMilliseconds | AK/Time.h:125-129 | exactly that many milliseconds |
| Time.ToTruncatedSeconds | AK/Time.cpp:67-75 | the exact quotient rounded toward zero |
| Time.ToTruncatedMilliseconds | AK/Time.cpp:76-93 | the exact quotient rounded toward zero, clamped to 64 bits |
| Time.ToTruncatedMicroseconds | AK/Time.cpp:94-111 | the exact quotient rounded toward zero, clamped to 64 bits |
| Time.ToSeconds | AK/Time.cpp:112-121 | the exact quotient rounded away from zero, clamped to 64 bits |
| Time.ToMilliseconds | AK/Time.cpp:122-137 | the exact quotient rounded away from zero, clamped to 64 bits |
| Time.ToMicroseconds | AK/Time.cpp:138-153 | the exact quotient rounded away from zero, clamped to 64 bits |
| Time.ToNanoseconds | AK/Time.cpp:154-167 | the exact nanoseconds, clamped to 64 bits |
| Time.ScaledExact | AK/Time.cpp:76-167 | no intermediate value overflows unless the result is out of range, and then on the same side |
| Time.ThroughNanoseconds | AK/Time.cpp:154-167 | to nanoseconds and back loses nothing if and only if the nanoseconds fit 64 bits |

## Left out

- Red-black tree: only fresh nodes are inserted (unlinked and red, as the constructor makes them); `IntrusiveRedBlackTree` leaves parent and colour stale on removal, and re-inserting such a node is not modelled. Nothing is said about stepping from a `begin()` that is a removed node. `begin_from`, the reverse iterator and the destructor are not modelled.
- Kernel lock: waiting on the wait queue, fairness and liveness; only what each section under the inner lock bit does. Callers keep the discipline the code asserts: only a holder unlocks, and a thread that restores holds nothing.
- Reference counting and weak links: weaker memory orderings, the hooks `will_be_destroyed` and `one_ref_left`, conversions between pointer types. That no count overflows is an assumption; the code asserts it, in builds that keep assertions.
- MemMem: the KMP search of an empty needle, which the code does not allow; the table's `int` entries are unbounded.
- MemoryStream: `read_or_error`, the input and output memory streams on fixed buffers, and offsets of 2^64 or more.
- Hash table: entries are key and value with equality of keys, so equality is an equivalence that hashing respects; iterator invalidation, allocation failure and `size_t` overflow of capacities are not modelled. A probe that goes on forever is an outcome; nothing is said about the state after one.
- BitmapView: `find_longest_range_of_unset_bits`, `find_best_fit`, `find_first` and `find_one_anywhere` are not modelled.
- QuickSort: indices are unbounded integers, and the order is a function without effects.
- JSON: the rounding of a double, which is modelled as the sum of its whole part and its fraction (signed 32-bit overflow on the way, which C++ leaves undefined, is taken to wrap); serializing doubles; `JsonPath`.
- JsonWriter.StringBuilder.AppendNumber: models only the plain decimal path without width, padding or prefix; negating the least 64-bit integer, which C++ leaves undefined, is taken to wrap.
- StringBuilder: growth of its buffer.
- CircularStream: `m_total_written` is unbounded; at 2^64 bytes it would wrap, and a capacity that is not a power of two would lose its place. The queue's iterator is not modelled.
- BitStream: the byte-wise reads and writes of the bit streams; the underlying stream is a sink with a fixed room or a source of given bytes; stores are little-endian.
- Scheduler: picking, yielding, donating and context switching; changes other code makes to a thread's affinity, activity or priority are open.
- Time: calendar functions, and the `timeval` and `timespec` helper templates.
- Hardware, processes, file systems, formatting templates, URL parsing, smart-pointer boilerplate and the remaining containers of AK are not modelled: their functions are either a few lines with nothing to relate, or rest on code outside these files.

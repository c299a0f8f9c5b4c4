# Verification of the lsp-lltl-lib containers

Dafny models of the hard parts of the library, with proofs: the lock-free hand-over cell `raw_state`, the
deque of chunks `raw_ddeque`, the hash index with unrolled bins `raw_hash_index`, the pointer hash `raw_pphash`,
the set of pointers `raw_ptrset` and the bit set `bitset`. Run `dafny verify dfyconfig.toml` to check all of it.

## How the parts are modelled

* **raw_state** (`StateCell*.dfy`, `RawState.dfy`). A transition system: one step per atomic swap or load, any number
  of threads, with what a thread holds in its locals as part of the state. Theorems are about every interleaving.
  `RawState` is the object with its own fields; each method is proved to be the run of its steps.
  A caller may publish new pointers and those that `set` has refused.
* **Memory** (`LinkedMemory.dfy`). The linked containers keep an explicit memory: a map from addresses to nodes with
  their `next` and `prev` links, in a field that the methods update in place. `malloc` adds an address, `free` removes
  one, so the contracts can say which nodes are linked, which are lost and which are freed. A read through NULL
  (`Fault`), a write behind the end of a chunk (`Overrun`) and a loop without an end (`Hangs`) are outcomes.
* **Requests for memory** may be refused at any time. A ghost count `refused` in each container rises with every
  refusal and with nothing else. So the contracts say when an operation asks for memory, that it fails only where it
  asks and is refused, and what a whole run does when no request is refused.
* **raw_ddeque** (`Deque*.dfy`). The used and the unused list, the lists in hand between the two, windows inside chunks,
  and the three counters. `Contents()` is the sequence of items; every operation is a method of the class proved
  against it. An operation on several items is proved for every layout of the chunks.
* **raw_hash_index** (`Hash*.dfy`) and **raw_pphash** (`Pp*.dfy`). `HashTable` is the table as a value: bins of entries, and
  the map it stands for (`Lookup`, and `Binds`, `Unbinds`, `SameMap` for what an operation does to it). Hash and compare
  are arbitrary functions; what is assumed of them (`Lawful`) is that compare is an equivalence that
  separates NULL from objects and that equal keys hash equally. The classes are proved to keep the lists of nodes in
  shape and to do to the table what the map operations say. What a doubling does to a table is the same definition for
  both (`SplitTables.dfy`).
* **raw_ptrset** (`Ptr*.dfy`). Bins that are sorted arrays, the three binary searches, and the set of elements.
* **bitset** (`Bit*.dfy`). An array of 64-bit words with their shifts and masks; `Bit(ws, i)` is the i-th bit, and every
  range operation is proved bit by bit.

* **Iterators** (`Iterators.dfy`, `PtrSetIter`, `DequeWalk`, `HashIndexIter`, `PpHashIter`). The common `advance` turns the
  step around for the iterators of `riter`; `iter_move` is proved for every container and any signed step, and whole
  iterations by `++` from both ends.

Class invariants (`Valid`) are what every operation keeps, so they hold over every run. They contain more than shape:
for `raw_pphash`, for instance, that the capacity is determined by the greatest size so far.

## Where the code does not do what it is for

The code is modelled as it is; each of these has its exact condition.

* `ddeque.cpp:154-172`: `clear()` leaves old windows in the chunks it recycles. The next `push_back` brings all the old
  items back, or writes behind the end of a chunk; it does what it is for if and only if the deque was empty before
  `clear()` (`Clear`, `PushBack`, `ClearThenPush`). `push_front` is not affected (`ClearThenPushFront`), and
  `truncate()` mends it.
* `ddeque.cpp:467-472`: filling the last chunk exactly (or pushing nothing) asks for no chunks and gets one, or reads
  through NULL (`PushBackMany`; `PushNothing` is such a call).
* `ddeque.cpp:490-505`: bulk pushes at the front of an empty deque work if and only if the items fit into one chunk
  and there are some (`PushFrontMany`; `PushTooMuchInFront`, `PushNothingInFront`).
* `hash_index.cpp:346-358`: `remove` runs for ever unless the entry is in one of the last two nodes of its bin
  (`NeverEnds`, `Remove`; `RunIntoLoop` is a run into it).
* `hash_index.cpp:371-381`: the tail node that gets empty is never freed (`Remove`).
* `hash_index.cpp:180-184`: without memory in the middle of a growth, entries get out of reach (`HashInterrupted`;
  `LoseKeys` is a run into it). This can happen if and only if some entry has to move (`AtRisk`).
* `hash_index.cpp:723` and `hash_index.cpp:773`: long moves over bins leave a wrong index (`Straight`, `Drift`;
  `MoveOverEmptyBin` is one).
* `hash_index.cpp:441-453`: the default is ignored, against `include/lsp-plug.in/lltl/hash_index.h:236`.
* `pphash.cpp:610-615`: a move backwards over a whole bin enters it again and ends too early (`Near`, `Lag`;
  `MoveBackOverBin` is one).
* `bitset.cpp:101-110` after `bitset.cpp:84-89`: `set_all()` on no bits fills the padding (`SetAll`, `ExposeStaleBits`).
* `state.cpp:130-165`: two real-time threads at once lose pointers (`StateCellMisuse`), and exactly the runs
  with a discarding swap do (`LedgerExactly`); the header calls `get` and `set` thread-safe. A `pull` of a second
  thread deletes what a reader has got from `get` (`LentPointerDeleted`).

## Model

| member | source | states |
|---|---|---|
| StateCell.EveryPointerInOnePlace | src/main/state.cpp:94-165 | After every disciplined run of any number of threads (only `get` and `set` are limited to one thread at a time; a pointer that `set` refused may be published again), every published pointer is in exactly one of PENDING, STATE, GARBAGE, one thread's local, the deleter's past input, or refused and so with its caller: none is lost, none is deleted twice |
| StateCell.StepLedger | src/main/state.cpp:101-165 | Without any discipline, one step: the ledger stays balanced if and only if it is not a swap into GARBAGE that discards a live pointer, and that pointer is then in no place |
| StateCell.LostForGood | src/main/state.cpp:94-165 | A pointer that is in no place is in no place after any further run |
| StateCell.LedgerExactly | src/main/state.cpp:94-165 | Without any discipline, for every run of any number of threads from a balanced cell: the ledger is balanced at the end if and only if no step of the run was such a discarding swap |
| StateCell.LedgerAlong | src/main/state.cpp:94-165 | With at most one thread in `get` or `set` at a time no step is a discarding swap, so the ledger is balanced after every such run |
| StateCellMisuse.TwoPutsLose | src/main/state.cpp:130-149 | In any cell with a state, a pending pointer and no garbage, two threads past the check of `get` and one publisher lose a pointer: the run is given |
| StateCellMisuse.TwoReadersLoseAPointer | include/lsp-plug.in/lltl/state.h:172-179 | The discipline is needed: from a new cell three threads reach a point where a published pointer is in no place at all |
| StateCellMisuse.PullDeletesState | src/main/state.cpp:112-128 | In any cell with a state, a pending pointer and no garbage, a run of one thread alone, a `pull`, hands the state to the deleter |
| StateCellMisuse.LentPointerDeleted | src/main/state.cpp:112-149 | One reader is needed: from a new cell, thread 0 reads pointer 1 with `get`, and then a run of thread 1 alone deletes it |
| StateCellReader.ReadStaysAlive | src/main/state.cpp:130-149 | With one reader, the pointer `get` returned last sits in STATE and nowhere else, so nobody deletes it before the reader's own next call replaces it |
| StateCellReader.ReadsNeverGoBack | src/main/state.cpp:101-149 | With one reader, a later read never returns a pointer that was published before the one an earlier read returned |
| StateCellReader.CallsAreWaitFree | src/main/state.cpp:94-165 | Whatever the other threads do in between, a call is over after a bounded number of its own steps, at most six |
| StateCellReader.GetReturnsLatest | src/main/state.cpp:130-149 | After any run with one reader, an uninterrupted `get` returns the latest published pointer if and only if GARBAGE is empty or nothing is pending |
| StateCellReader.PullReturnsLatest | src/main/state.cpp:112-128 | After any such run an uninterrupted `pull` always returns the latest published pointer |
| StateCellReader.ClearReclaimsAll | src/main/state.cpp:77-84 | `clear` while no other thread runs: every pointer ever published was deleted exactly once, or `set` refused it last and its caller has it |
| RawState.RawState.GcNow | src/main/state.cpp:94-99 | The fields after `gc` are those the steps of the transition system lead to; GARBAGE goes to the deleter |
| RawState.RawState.PushObject | src/main/state.cpp:101-110 | `push`: garbage and the overtaken pending pointer go to the deleter, the new one is pending; the same as the steps of the transition system |
| RawState.RawState.PullObject | src/main/state.cpp:112-128 | `pull`: refines its steps; a pending pointer replaces the state |
| RawState.RawState.GetObject | src/main/state.cpp:130-149 | `get`: refines its steps; no deleter is called |
| RawState.RawState.SetObject | src/main/state.cpp:151-165 | `set`: refines its steps; refuses if and only if there is garbage |
| RawState.RawState.ClearAll | src/main/state.cpp:77-84 | `clear`: the three slots are handed to the deleter |
| Bits.BinAfterDoubling | src/main/hash_index.cpp:153-181 | `hash & (cap - 1)` is the remainder by a power of two, and after doubling an element stays in its bin or moves by the old capacity, according to the one bit under the split mask |
| HashTable.SeekIsLookup | src/main/hash_index.cpp:227-263 | With lawful hash and compare interfaces, searching only the bin of the hash finds an entry if and only if the whole table binds the key, and its value is the bound one |
| HashTable.OneEntryPerKey | src/main/hash_index.cpp:227-263 | Keys are unique across all bins |
| HashTable.SplitKeepsMap | src/main/hash_index.cpp:112-225 | A table whose bins were split by the new bit stands for the same map |
| HashTable.SplitWellFormed | src/main/hash_index.cpp:112-225 | Splitting keeps every entry in the bin of its hash and keys distinct |
| HashTable.SplitSize | src/main/hash_index.cpp:112-225 | Splitting keeps the number of entries |
| HashTable.AddedBinds | src/main/hash_index.cpp:265-306 | An entry added at the end of its bin, also after a doubling, binds an absent key and changes no other binding |
| HashTable.UpdatedBinds | src/main/hash_index.cpp:387-432 | Writing the value of the entry a key is found at rebinds that key and no other |
| HashTable.RemovedFrom | src/main/hash_index.cpp:328-385 | Filling the hole with the last entry of the bin unbinds exactly the removed key |
| HashRoundTrips.CreateThenRemove | src/main/hash_index.cpp:308-385 | `create` and then `remove` of the same key on a container: if the first succeeds, the second always ends, gives the value back, and the map and the size are the old ones |
| HashIndex.HashIndex.AddToBin | src/main/hash_index.cpp:55-93 | `add_to_bin`: one entry behind the others of the bin, in the last node, in one from the free list or in a new one; every other node is untouched; `malloc` is called if and only if a node is needed and the free list is empty, and if it fails nothing changes |
| HashIndex.HashIndex.FreeNodes | src/main/hash_index.cpp:95-110 | `free_nodes`: the nodes from the cut on go in front of the free list, the ones before stay linked |
| HashIndex.HashIndex.SplitBin | src/main/hash_index.cpp:167-219 | The split of one bin: the kept entries in order, dense in the first nodes; the moved ones in order in the new bin; every node is in one of the two bins or free, and how many are free follows from the entries. Interrupted only at an entry that needs a node when the free list is used up; the bin is torn then exactly as HashNodes.TornBin says |
| HashIndex.HashIndex.SplitEntry | src/main/hash_index.cpp:178-208 | One round of the split with its lagging write cursor, and when it calls `malloc` |
| HashIndex.HashIndex.SplitNextBin | src/main/hash_index.cpp:167-219 | One round of the loop over the bins, with the node accounting and the length of the free list |
| HashIndex.HashIndex.Grow | src/main/hash_index.cpp:112-225 | `grow`: with memory all through, the same map in twice the bins, in the order SplitTables.SplitUpTo gives, no node lost; without memory for the bins nothing changes; interrupted in the middle, which is only at an entry that `malloc` is called for (HashNodes.MallocAt), the capacity stays and the table is torn |
| HashNodes.KeepStep | src/main/hash_index.cpp:184-200 | A kept entry goes to the write cursor, which is never ahead of the read cursor, so no unread entry is overwritten |
| SplitTables.FullSplit | src/main/hash_index.cpp:153-223 | What the doubling leaves is a split of the old table, whether the moved entries keep their order (hash index) or are turned around (pointer hash) |
| HashInterrupted.SearchAfterwards | src/main/hash_index.cpp:180-184 | After an interrupted growth what is found is right, and a key is found if and only if its entry is not out of reach |
| HashInterrupted.FindTorn | src/main/hash_index.cpp:227-263 | `find_node` on the container itself after an interrupted growth: it finds a key if and only if its entry is not out of reach, and then a slot with the value bound before |
| HashInterrupted.GrowAndFind | src/main/hash_index.cpp:112-263 | `grow` and then `find_node`, when the growth was interrupted: where `malloc` was called, which keys are found, and that the values found are those bound before the growth |
| HashInterrupted.NothingOutOfReach | src/main/hash_index.cpp:180-184 | No entry is out of reach if and only if none had moved out of an earlier bin and none of the first entries of the torn bin, as many as were kept, has the split bit |
| HashInterrupted.TornHolds | src/main/hash_index.cpp:180-184 | Which entries a bin within the old capacity still holds |
| HashInterrupted.AtRisk | src/main/hash_index.cpp:55-93 | A growth calls `malloc` for a node, and so can be interrupted, if and only if some entry has the new bit |
| HashWitnesses.OneNodeABin | src/main/hash_index.cpp:167-219 | Keys 1 to 64 created in order, the hash being the number before the key: the growth that comes next calls `malloc` once a bin, for its second entry, and so can stop in any bin |
| HashWitnesses.LoseKeys | src/main/hash_index.cpp:112-326 | The run: these 64 creations and one more in a new index. If no request for memory is refused, all are created; if the growth of the last one is interrupted in bin i, `find_node` does not find a key if and only if it has the new bit and was in a bin before i; so key 17 is lost unless the growth stops in the first bin |
| HashIndex.HashIndex.FindNode | src/main/hash_index.cpp:227-263 | `find_node`: NULL if and only if the key is not bound; otherwise the slot of the one entry with that key |
| HashIndex.HashIndex.ScanBin | src/main/hash_index.cpp:234-261 | The nodes of a bin in order: the first slot that hits |
| HashIndex.HashIndex.Get | src/main/hash_index.cpp:441-446 | `get`: the bound value or NULL; it is what `dget` documents if and only if the key is bound or the default is NULL |
| HashIndex.HashIndex.Key | src/main/hash_index.cpp:448-453 | `key`: a stored key equal to the given one, or NULL |
| HashIndex.HashIndex.CreateItem | src/main/hash_index.cpp:265-306 | `create_item`: the table is the one grown at four entries a bin, with the entry behind the others of its bin. It runs out of memory only where it asks for some (RanOut): for the doubled bins of a full table, which is then unchanged, or for a node, when the number of entries in the bin of the grown table is a multiple of eight; interrupted only in the growth of a full table |
| HashIndex.HashIndex.Create | src/main/hash_index.cpp:308-326 | `create`: binds an unbound key and no other, the entry behind the others of its bin; a bound key changes nothing. It fails for want of memory only where CreateItem may, once for each refused request, and then the map is the old one, or the growth was interrupted |
| HashIndex.HashIndex.Put | src/main/hash_index.cpp:405-432 | `put`: writes the value of the entry the key is found at, or adds one as `create` does, and gives the old value back; fails only where `create` may |
| HashIndex.HashIndex.Replace | src/main/hash_index.cpp:387-403 | `replace`: writes the value of the entry the key is found at and gives the old one back; an unbound key changes nothing |
| HashNodes.PullsForever | src/main/hash_index.cpp:346-358 | When the node behind the found one is not the last of its bin, the condition of the loop holds after n rounds, for every n |
| HashNodes.RunsForEver | src/main/hash_index.cpp:346-358 | So the loop of `remove` never ends from there |
| HashIndex.HashIndex.FillHole | src/main/hash_index.cpp:343-368 | Ends if and only if the hole is in one of the last two nodes, with the last entry in the hole; otherwise the condition of its loop holds after every round |
| HashIndex.HashIndex.DropLast | src/main/hash_index.cpp:370-381 | One entry less; a tail node left empty is unlinked and not freed |
| HashIndex.HashIndex.Remove | src/main/hash_index.cpp:328-385 | `remove`: never ends, its loop going round for ever, if and only if the found node is neither the last nor the next-to-last of its bin; if it ends, the last entry of the bin is in the place of the found one, the key is unbound and no other, and the node that is lost is exactly the tail node that became empty |
| HashWitnesses.RunIntoLoop | src/main/hash_index.cpp:328-385 | Seventeen creations in a new index, with a hash that is the same for all keys, then `remove` of the key that `iter` gives: if no request for memory is refused, it never ends |
| HashIndex.HashIndex.Clear | src/main/hash_index.cpp:579-602 | `clear`: the empty map, the same bins, all their nodes freed |
| HashIndex.HashIndex.Flush | src/main/hash_index.cpp:564-602 | `flush`: the empty map, no bins, all their nodes freed |
| HashIndexIter.IterMove | src/main/hash_index.cpp:659-777 | `iter_move` by any signed n from any entry and with any index: lands on the entry n ranks away, or is INVALID if and only if the index would leave the container or there is no such entry; by how much the index is off afterwards, exactly. From a right index it is right if and only if the move stays in its bin or goes no further than the first entry beyond the neighbour bin |
| HashIndexIter.Advance | src/main/iterator.cpp:72-77 | `advance` of the index iterators: the entry n ranks further in the direction of the iterator, with the exact drift; the direction stays |
| HashIndexIter.SkipForward | src/main/hash_index.cpp:704-725 | Skipping bins forwards: the position, the end of the bins, and how far the index drifts |
| HashIndexIter.SkipBackward | src/main/hash_index.cpp:754-775 | The same backwards |
| HashIndexIter.DriftIsCrooked | src/main/hash_index.cpp:659-777 | The drift is zero if and only if the move stays in its bin or reaches no further than the first entry beyond the neighbour bin |
| HashIndexIter.SingleSteps | src/main/hash_index.cpp:659-777 | A single step within the table always keeps the index right |
| HashWitnesses.MoveOverEmptyBin | src/main/hash_index.cpp:611-777 | A run: keys 16, 2 and 18 created with their numbers as hashes, `iter`, and a move by two: if no request for memory is refused, the iterator stands at key 18, of rank 2, with index 3 |
| HashIndexIter.Visit | src/main/hash_index.cpp:611-777 | From `iter` on by `++`, reading each key: the keys in the order of the snapshots, each once, every index being the rank |
| HashIndexIter.VisitBack | src/main/hash_index.cpp:635-777 | From `riter` on by `++`, which goes backwards there: the same from the last rank to the first |
| HashIndexIter.First | src/main/hash_index.cpp:611-633 | `iter`: rank 0, not reversed, or INVALID if and only if empty |
| HashIndexIter.Last | src/main/hash_index.cpp:635-657 | `riter`: the highest rank, reversed, or INVALID if and only if empty |
| HashIndexIter.Items | src/main/hash_index.cpp:523-562 | `items`: keys and values in the order of the ranks; fails if and only if there is no memory for one of the two lists |
| Deque.Deque.FreeChunkList | src/main/ddeque.cpp:67-75 | `free_chunk_list`: exactly the chunks of the list are freed |
| Deque.Deque.AllocChunkList | src/main/ddeque.cpp:77-101 | `alloc_chunk_list`: that many fresh chunks linked up, the first pointing back to the last; or none and no change |
| Deque.Deque.AcquireUnused | src/main/ddeque.cpp:103-119 | `acquire_unused_chunk_list`: the first chunks of the unused list; a request for none detaches one, or reads through NULL if and only if there is none |
| Deque.Deque.AcquireChunkList | src/main/ddeque.cpp:121-152 | `acquire_chunk_list`: the first recycled chunks, and new ones, as many as are missing, only if these do not suffice, all in one well-linked list; no memory only if more are asked for than are recycled, and then no change |
| Deque.Deque.Clear | src/main/ddeque.cpp:154-172 | `clear`: empty; the chunks are unused with their old windows, so the invariant holds afterwards if and only if the deque was empty |
| DequeMisuse.ClearThenPush | src/main/ddeque.cpp:154-305 | `clear`, then `push_back` on the same deque: with more than two chunks, or two full ones, the item is written behind the end of a chunk; otherwise, unless a request for memory is refused, the deque holds all its old items and the new one behind them with a count of one. So it holds the new item alone if and only if it was empty before |
| DequeMisuse.ClearThenPushFront | src/main/ddeque.cpp:154-372 | `clear`, then calls of `push_front`: until a request for memory is refused the deque holds the new items alone, the last one first |
| Deque.Deque.Truncate | src/main/ddeque.cpp:174-180 | `truncate`: frees the unused chunks only; also restores the invariant after `clear`, and after `clear` and later calls of `push_front` |
| Deque.Deque.Flush | src/main/ddeque.cpp:182-194 | `flush`: empty, every chunk freed |
| Deque.Deque.AcquireChunk | src/main/ddeque.cpp:196-216 | `acquire_chunk`: the first recycled chunk as it is or, if there is none, a new one with an empty window |
| Deque.Deque.ReleaseChunk | src/main/ddeque.cpp:218-230 | `release_chunk`: the chunk is the first recycled one, with an empty window |
| DequeChunks.ChunksCount | src/main/ddeque.cpp:246-249 | `chunks_count`: the least number of chunks with room for so many items |
| DequeChunks.BackFits | src/main/ddeque.cpp:446-482 | A bulk push_back asks for no more chunks than are recycled if and only if the items fit into the last chunk and the recycled ones |
| Deque.Deque.Reserve | src/main/ddeque.cpp:251-274 | `reserve`: true if and only if the chunks now have room for the capacity; the least number of chunks is added for that, all recycled; contents unchanged; false only for a refused request, and then nothing changes |
| Deque.Deque.PushBack | src/main/ddeque.cpp:276-305 | `push_back`: the item behind the others, or no change; no memory only if the last chunk is full (or there is none), no chunk is recycled and a new one is refused; how many chunks there are then. On a cleared deque that has unused chunks, the outcome and the contents follow from the windows of the first two of them: stored behind what these hold, no memory, or written behind the end of the second |
| Deque.Deque.PushFront | src/main/ddeque.cpp:337-372 | `push_front`: the item before the others, or no change; no memory only if the first chunk has no room in front (or there is none), no chunk is recycled and a new one is refused. Also on a cleared deque and any number of times, because the window of a chunk taken is reset |
| Deque.Deque.FirstItem | src/main/ddeque.cpp:410-426 | `first` |
| Deque.Deque.LastItem | src/main/ddeque.cpp:428-444 | `last` |
| Deque.Deque.PreallocateBack | src/main/ddeque.cpp:446-482 | `preallocate_back`: how many chunks it asks for, how many of them are new, the layout then, when it asks for none, and what happens then; no memory only if it asks for more than are recycled |
| Deque.Deque.PreallocateFront | src/main/ddeque.cpp:484-526 | `preallocate_front` with chunks in use: likewise for the chunks in front |
| Deque.Deque.PreallocateOnly | src/main/ddeque.cpp:484-526 | `preallocate_front` in an empty deque: the first chunk, whatever their number; no memory only if it asks for more than are recycled |
| Deque.Deque.PushBackMany | src/main/ddeque.cpp:528-559 | Bulk `push_back`: old + data for every chunk layout; no memory only if more chunks are needed than are recycled and a new one is refused, and only the missing ones are new; reads through NULL if and only if the last chunk is filled exactly (or nothing is stored) and there is no unused chunk; with one, the items are there but a chunk too many is linked |
| Deque.Deque.PushFrontMany | src/main/ddeque.cpp:561-627 | `prepend` gives data + old, bulk `push_front` reversed data + old, for every chunk layout; no memory only if more chunks are needed than are recycled and a new one is refused; on an empty deque both read through NULL if and only if the data need more than one chunk, or there are none and no unused chunk |
| DequeMisuse.PushNothing | src/main/ddeque.cpp:446-559 | Bulk `push_back` of nothing on a new deque reads through NULL |
| DequeMisuse.PushTooMuchInFront | src/main/ddeque.cpp:484-627 | A bulk push of five items at the front of a new deque with chunks of four reads through NULL, if no request for memory is refused |
| DequeMisuse.PushNothingInFront | src/main/ddeque.cpp:484-627 | A bulk push of nothing at the front of a new deque does so too |
| DequeChunks.ReverseCopy | src/main/ddeque.cpp:42-53 | `reverse_copy` |
| Deque.Deque.PopBack | src/main/ddeque.cpp:629-649 | `pop_back`: the last item, if and only if there is one |
| Deque.Deque.PopFront | src/main/ddeque.cpp:672-693 | `pop_front`: the first item, if and only if there is one |
| Deque.Deque.PopFrontMany | src/main/ddeque.cpp:777-811 | Bulk `pop_front`: the first min(n, size) items in order |
| Deque.Deque.TakeBack | src/main/ddeque.cpp:813-847 | `take_back`: the last min(n, size) items in order |
| Deque.Deque.PopBackMany | src/main/ddeque.cpp:849-883 | Bulk `pop_back`: the last min(n, size) items, the last one first |
| DequeRoundTrips.PushTakeBack | src/main/ddeque.cpp:528-847 | Bulk push_back, then take_back: data and contents are restored |
| DequeRoundTrips.PushPopBack | src/main/ddeque.cpp:528-883 | Bulk push_back, then bulk pop_back: the data reversed, the contents restored |
| DequeRoundTrips.PushPopFront | src/main/ddeque.cpp:561-811 | `prepend` or bulk push_front, then bulk pop_front: the data in the order stored, the contents restored |
| DequeRoundTrips.PushWhatFits | src/main/ddeque.cpp:121-559 | A bulk push_back of no more than the last chunk and the recycled ones have room for (and not of exactly what fills the last chunk) always succeeds: it asks for no memory |
| DequeRoundTrips.ReserveThenPush | src/main/ddeque.cpp:251-559 | What `reserve` is for: on an empty deque, after a successful reserve, a bulk push_back of up to the reserved capacity succeeds without asking for memory |
| DequeWalk.ChunkAccount | src/main/ddeque.cpp:77-274 | The counters count the two lists, no chunk is on both, twice on one, or lost, and k chunks in use hold at most k * chunkSize and, for k >= 2, at least (k - 2) * chunkSize + 2 items |
| DequeWalk.Get | src/main/ddeque.cpp:716-747 | `get`: the slot of the i-th item whether the walk starts at the head or the tail, NULL if and only if there is none |
| DequeWalk.Iter | src/main/ddeque.cpp:885-899 | `iter`: rank 0, not reversed |
| DequeWalk.RIter | src/main/ddeque.cpp:901-915 | `riter`: the highest rank, reversed |
| DequeWalk.IterMove | src/main/ddeque.cpp:917-964 | `iter_move` by any signed n lands on rank index + n with the index updated and the direction kept, or is INVALID if and only if there is no such item |
| DequeWalk.Advance | src/main/iterator.cpp:72-77 | `advance` of the deque iterators: n ranks further in the direction of the iterator |
| DequeWalk.StepsLeft | src/main/iterator.cpp:105-115 | `max_advance` and `remaining`: how far `advance` leads to an item, exactly, and how many items are left in the direction of the iterator |
| DequeWalk.Visit | src/main/ddeque.cpp:885-964 | From `iter` on by `++`: the contents, each item once, from front to back |
| DequeWalk.VisitBack | src/main/ddeque.cpp:901-964 | From `riter` on by `++`: the contents from back to front |
| PtrBins.IndexOf | src/main/ptrset.cpp:177-199 | `index_of`: the position of the value, -1 if and only if absent; ends and stays inside the bin |
| PtrBins.ToggleIndexOf | src/main/ptrset.cpp:201-219 | `toggle_index_of`: the position of the value, or one that the caller's adjustment turns into the insertion slot |
| PtrBins.InsertIndexOf | src/main/ptrset.cpp:221-245 | `insert_index_of`: -1 if and only if present, otherwise the slot that keeps the order |
| PtrBins.OnlySlot | src/main/ptrset.cpp:221-245 | There is one slot that keeps the order, so the searches agree |
| PtrBins.Insert | src/main/ptrset.cpp:247-267 | `insert`: the value at its index, the others in order; fails only if the buffer is full, and it grows as the code says |
| PtrBins.Append | src/main/ptrset.cpp:269-286 | `append`: the value behind the others; fails only if the buffer is full |
| PtrBins.RemoveAt | src/main/ptrset.cpp:288-297 | `remove` of an index; the buffer stays |
| PtrBins.SplitKeeps | src/main/ptrset.cpp:71-141 | Splitting the bins keeps them strictly sorted and correctly placed, and the set and its size |
| PtrSet.Redistribute | src/main/ptrset.cpp:95-136 | The doubled table is a split of the old one |
| PtrSet.PtrSet.Grow | src/main/ptrset.cpp:71-141 | `grow`: the same set in twice the bins; a refused request, wherever it happens, changes nothing |
| PtrSet.PtrSet.MakeRoom | src/main/ptrset.cpp:339-347 | The growth before an insertion: the capacity doubles if and only if there are no bins yet or the bin of the value holds 32 elements, and the request is granted |
| PtrSet.PtrSet.Get | src/main/ptrset.cpp:299-308 | `get` |
| PtrSet.PtrSet.Contains | src/main/ptrset.cpp:310-320 | `contains`: membership in the set |
| PtrSet.PtrSet.Put | src/main/ptrset.cpp:337-359 | `put`: true if and only if the value was absent and now is an element; the capacity doubles exactly when the bin of the value held 32 elements (16 from none); no memory only if it had to grow, or the buffer of the bin was full, and a request was refused; every false leaves the set as it was |
| PtrSet.PtrSet.Toggle | src/main/ptrset.cpp:361-398 | `toggle`: out if in, in if out; when it grows; no memory only if there were no bins or the buffer was full, and the set then is as it was |
| PtrSet.PtrSet.Remove | src/main/ptrset.cpp:400-416 | `remove`: true if and only if it was an element; it is not one afterwards |
| PtrSet.ToggleTwice | src/main/ptrset.cpp:361-398 | `toggle` twice on a container: if both calls succeed, as they do when no request for memory is refused, the set is the old one, and one call added the value and the other one removed it |
| PtrSetIter.NextBin | src/main/ptrset.cpp:49-58 | `next_bin` |
| PtrSetIter.PrevBin | src/main/ptrset.cpp:60-69 | `prev_bin` |
| PtrSetIter.Values | src/main/ptrset.cpp:418-446 | `values`: exactly the elements, in the order of the ranks; fails if and only if there is no memory for the list |
| PtrSetIter.Iter | src/main/ptrset.cpp:448-470 | `iter`: rank 0, not reversed, INVALID if and only if empty |
| PtrSetIter.RIter | src/main/ptrset.cpp:472-494 | `riter`: the highest rank, reversed, INVALID if and only if empty |
| PtrSetIter.IterMove | src/main/ptrset.cpp:496-563 | `iter_move` by any signed n lands on rank index + n of `values` and keeps the direction, INVALID if and only if there is none |
| PtrSetIter.OnePositionPerRank | src/main/ptrset.cpp:496-563 | Ranks determine positions, so a move by n ends where n single steps end |
| PtrSetIter.Advance | src/main/iterator.cpp:72-77 | `advance` of the set iterators: n ranks further in the direction of the iterator |
| PtrSetIter.StepsLeft | src/main/iterator.cpp:105-115 | `max_advance` and `remaining`: how far `advance` leads to an element, exactly, and how many elements are left in the direction of the iterator |
| PtrSetIter.Visit | src/main/ptrset.cpp:448-563 | From `iter` on by `++`: the elements in the order of `values`, each once |
| PtrSetIter.VisitBack | src/main/ptrset.cpp:472-563 | From `riter` on by `++`: the same in the opposite order |
| BitSet.BitSet.SetRange | src/main/bitset.cpp:136-185 | `set` of a range: exactly the bits [index, min(index + count, nSize)) become one, for every alignment; the clipped count is returned |
| BitSet.BitSet.SetValues | src/main/bitset.cpp:187-208 | `set` from an array: exactly those bits take the given values |
| BitSet.BitSet.UnsetRange | src/main/bitset.cpp:230-279 | `unset` of a range, likewise |
| BitSet.BitSet.ToggleRange | src/main/bitset.cpp:310-354 | `toggle` of a range, likewise |
| BitSet.ToggleTwice | src/main/bitset.cpp:310-354 | `toggle` of the same range twice on a container restores every word of the buffer |
| BitSet.BitSet.Get | src/main/bitset.cpp:91-99 | `get`: the bit, false behind the end |
| BitSet.BitSet.ChangeBit | src/main/bitset.cpp:112-134 | `set`, `unset` and `toggle` of one bit: the old value, no other bit, nothing behind the end |
| BitSet.BitSet.SetAll | src/main/bitset.cpp:101-110 | `set_all`, also on a buffer with stale padding: every bit set; the bits behind the end are zero afterwards if and only if nSize > 0 or there is no buffer |
| BitSet.BitSet.UnsetAll | src/main/bitset.cpp:210-216 | `unset_all` |
| BitSet.BitSet.ToggleAll | src/main/bitset.cpp:281-296 | `toggle_all`: every bit inverted, the bits behind the end stay zero |
| BitSet.BitSet.Clear | src/main/bitset.cpp:84-89 | `clear`: no bits, the buffer zeroed |
| BitSet.BitSet.Resize | src/main/bitset.cpp:54-82 | `resize`: the first min(old, new) bits are kept; what was stored behind the old end shows through, which is false when the padding is zero; the padding is zero afterwards; false only for a refused request, which it makes only for another number of words, and then nothing changes |
| BitSet.BitSet.Flush | src/main/bitset.cpp:42-52 | `flush` |
| BitSet.ExposeStaleBits | src/main/bitset.cpp:84-110 | `set_all` after `clear`, then `resize`: unless memory is refused, bits nobody set read true, exactly as far as the old buffer went |
| BitWords.HeadMask | src/main/bitset.cpp:148-158 | The mask of the head word covers exactly the range inside that word |
| BitWords.TailMask | src/main/bitset.cpp:177-182 | The mask of the tail word |
| BitWords.UpMask | src/main/bitset.cpp:159-165 | The mask of the rest of a word |
| PpHash.PpHash.Grow | src/main/pphash.cpp:179-240 | `grow`: the same map in twice the bins; the kept tuples of a bin in order, the moved ones turned around; no tuple lost or copied, the sizes of the bins exact; without memory nothing changes |
| PpHash.PpHash.SplitBin | src/main/pphash.cpp:215-234 | The relinking of one bin through the pointer to the next pointer |
| PpHash.PpHash.FindTuple | src/main/pphash.cpp:70-93 | `find_tuple`: NULL if and only if the key is not bound, otherwise the tuple bound |
| PpHash.PpHash.FindLink | src/main/pphash.cpp:95-134 | The link that leads to the tuple `remove_tuple` unlinks |
| PpHash.PpHash.CreateTuple | src/main/pphash.cpp:136-177 | `create_tuple`: the table is the one grown at four tuples a bin, with one tuple with a copy of the key in front of its bin; it fails only for a refused request, and then no tuple, bin or binding has changed |
| PpHash.PpHash.Get | src/main/pphash.cpp:276-281 | `get`: the bound value or the default |
| PpHash.PpHash.Key | src/main/pphash.cpp:283-288 | `key`: the stored copy of the key or the default |
| PpHash.PpHash.Put | src/main/pphash.cpp:297-321 | `put`: writes the value of the tuple the key is found at, or creates one in front of its bin; gives the old value back; fails only for a refused request, and nothing has changed then |
| PpHash.PpHash.Create | src/main/pphash.cpp:323-340 | `create`: a tuple for an unbound key, in front of its bin; fails only for a refused request, and nothing has changed then |
| PpHash.PpHash.Replace | src/main/pphash.cpp:342-355 | `replace`: writes the value of the tuple the key is found at; an unbound key changes nothing |
| PpHash.PpHash.Remove | src/main/pphash.cpp:357-374 | `remove`: unbinds exactly the key; its tuple is freed, and the others of its bin stay in order |
| PpHash.PpHash.DestroyBin | src/main/pphash.cpp:56-68 | `destroy_bin`: frees the tuples of one bin |
| PpHash.PpHash.Clear | src/main/pphash.cpp:257-267 | `clear`: no bindings, the capacity stays, every tuple freed |
| PpHash.PpHash.Flush | src/main/pphash.cpp:242-255 | `flush`: no bindings, no bins, every tuple freed |
| PpHash.CapacityIsLeast | src/main/pphash.cpp:154-164 | Over every run: no bins before the first insertion since construction or `flush`, afterwards the least 16 * 2^k bins with at most four tuples a bin at the peak size |
| PpHash.LeastCapacity | src/main/pphash.cpp:154-164 | No smaller power of two from 16 on has room for the peak |
| PpHashIter.Items | src/main/pphash.cpp:430-470 | `items`: keys and values in the order of the ranks; fails if and only if there is no memory for one of the two lists |
| PpHashIter.First | src/main/pphash.cpp:472-494 | `iter`: rank 0, not reversed, INVALID if and only if empty |
| PpHashIter.Last | src/main/pphash.cpp:496-525 | `riter`: the highest rank, reversed, INVALID if and only if empty |
| PpHashIter.PrevTuple | src/main/pphash.cpp:527-534 | `prev_tuple`: the tuple before; the last one if none is given, which is why a skipped bin is entered again |
| PpHashIter.Forward | src/main/pphash.cpp:547-584 | Forward moves by any n land n ranks further, or are INVALID if and only if there are not so many; the index moves along |
| PpHashIter.Backward | src/main/pphash.cpp:586-616 | Backward moves: the index is the one asked for; the tuple comes too early by the sizes of the bins left behind as a whole, exactly |
| PpHashIter.LagIsFar | src/main/pphash.cpp:586-616 | That is by nothing if and only if the move goes no further back than the first tuple of the nearest non-empty bin before its own |
| PpHashIter.IterMove | src/main/pphash.cpp:536-617 | `iter_move` by any signed n, also from an iterator whose index is behind its rank after such a move: INVALID if and only if the index or the rank would leave the container; the index asked for, and the exact rank of the tuple; from a right index, the tuple is the right one if and only if the move is near |
| PpHashIter.Advance | src/main/iterator.cpp:72-77 | `advance` of the pointer hash iterators: the index n further in the direction of the iterator, with the exact lag of the tuple; the direction stays |
| PpHashIter.SingleSteps | src/main/pphash.cpp:536-617 | Single steps are near |
| PpHashWitnesses.MoveBackOverBin | src/main/pphash.cpp:496-617 | A run: keys 1, 2 and 3 created with their numbers as hashes, `riter`, and a move by two back: if no request for memory is refused, the index is 0 and the tuple is that of key 2, which has rank 1 |
| PpHashIter.Visit | src/main/pphash.cpp:472-617 | From `iter` on by `++`, reading each key: the keys in the order of the snapshots, each once, every index being the rank |
| PpHashIter.VisitBack | src/main/pphash.cpp:496-617 | From `riter` on by `++`, which goes backwards there: the same from the last rank to the first |

## Left out

- phashset.cpp: left out; its chained bins are like those of pphash.cpp, nothing is proved of them.
- darray.cpp and parray.cpp: plain arrays moved with memmove; the snapshots use a sequence in place of `raw_parray`.
- shbuffer: a reference count.
- types.cpp and spec.h: hash and compare stay arbitrary.
- Template wrappers, virtual tables, `swap`, `wbget`, `any`, comparison and difference of iterators, and `keys` and `values` of the hashes, which are the halves of `items`.
- push_back() and push_front() of the deque without data, and the pops without data: the same steps as those with data, without the copy.
- raw_ddeque::index_of: compares raw addresses.
- clear and flush of raw_ptrset, which free every bin.
- current and pending of raw_state: single loads.
- Weak memory orders: atomic_swap and atomic_load come from another library and are taken as sequentially consistent steps.
- size_t wrap-around: sizes, capacities and `index + count` are natural numbers.
- Sizes of items in bytes, alignment, and the addresses realloc returns: slots and indices instead.
- Objects for nodes: nodes live in a map from addresses, which is a field of the container, and not in Dafny objects; aliasing between two containers is not captured.
- Arrays of the bins of raw_ptrset: sequences with junk behind the elements; the loops that move elements one by one are one update.
- Key copies of raw_pphash: that they are freed with their tuples is not tracked; tuples are.
- PpHash.PpHash.CreateTuple: malloc of the tuple and its initialization are one step, at the place of the latter; whether there is memory for it is decided at the place of the former.
- Out-pointers `ov` that may be NULL: results instead.
- HashIndex.HashIndex.Remove: a call whose loop does not end has no state afterwards; what is proved is that the condition of the loop holds after every round.
- HashIndex.HashIndex.Grow: after an interrupted growth `find_node` is proved on the container (module HashInterrupted), further changes are not modelled.
- Deque.Deque.Clear: after clear of a deque in use, `push_back`, `push_front`, `truncate` and `flush` are modelled, other calls are not; nor is `push_back` after `push_front` there, or anything after an item was written behind a chunk.
- Deque.Deque.PushBackMany: after a read through NULL or with a chunk too many in the list, no further operations are modelled.
- Deque.Deque.PushFrontMany: likewise.

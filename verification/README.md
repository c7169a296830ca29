# Verified models of the BadgerOS kernel

This project models the parts of the BadgerOS kernel whose correctness is hardest to
see from the code, and proves what they promise: the page cache and the radix tree it
is indexed by, the lock-free byte FIFO, path walking through symbolic links, the bus
reservation protocol and the ID allocator under it, FAT cluster chains and the
free-cluster bitmap, memory moves, the device-tree parser, link counts of the RAM
filesystem, the deny-write counter and the intrusive list.

Each file holds one module.

- `Common`, `Bits`: bytes, powers of two, bitwise operations, arithmetic.
- `BlockStore`, `CacheView`, `PageCache`: a store of whole blocks, what cached entries over
  it mean, and the cache. A reader of byte i sees the cached byte if its entry is cached, and
  the store's byte otherwise; every operation is proved against that view, for every
  block size above and below the page size, with transfers that may fail.
- `RadixKeys`, `RadixShape`, `RadixUpdates`, `RadixTree`, `RadixIter`, `RadixRun`: digits of keys,
  when a heap of nodes is a well-formed tree and what map it stands for, the effect of each update
  on both, the tree with its bounded counts, its iterator, and runs up to the overflow of a count.
  Nodes are linked both ways through a heap that is a map from addresses to nodes.
- `Fifo`, `FifoPair`, `FifoWriters`: every load, exchange and byte copied is a step of one reader or
  one writer, in any order, and then the same with a second reader or a second writer. Unbounded
  counters and byte histories record what happened and guard nothing.
- `Walk`: the stack machine, and a resolver that puts each link target in front of the rest
  of the path. The filesystem is a lookup function, a kind for each node and a root.
- `IdAlloc`, `Bus`: the allocator, and claims, takes, cancellations and drops by any number of
  threads on any number of buses, as steps on one piece of shared state each.
- `ClusterChain`, `ClusterBitmap`: runs of clusters against the sequence of clusters they stand
  for, transfers run by run against transfers byte by byte, and the bitmap as atomic steps of
  any number of threads.
- `Memory`: memory is one array; copies in chunks, elements and bytes, upwards and downwards.
- `Fdt`: tokens and nodes from bytes, and the encoding they invert.
- `RamFs`, `DenyWrite`, `IntrusiveList`: names and link counts, the counter, and lists whose
  nodes live in memory shared with other lists.

Where the code does not do what its names and comments say, the model follows the code, gives
the failing case, and states exactly when the code is right:

- A truncated entry that is still referenced stays cached, and its bytes come back when the
  object grows again, which is seen exactly when one of them is not zero (`RegrowIff`,
  `ShrinkAndGrow`; `PinnedEntryResurfaces`).
- Removing an absent key from a radix tree leaf that holds other values corrupts the leaf's
  count or drops its values (`RemovalSoundIff`; `RemoveNeighbour`).
- A node of a radix tree counts in eight bits, and an inner node never counts a collected child
  off. Storing a key overflows the count if and only if the key is absent and the last node on its
  way has counted to 255, which takes 255 insertions (`Insert`, `FullIff`, `Play`; `OverflowRun`).
  A build that does not check wraps to zero, and the next collection under the node never ends
  (`CollectStuckIff`).
- A path that follows a 32nd link while 31 are open indexes the link stack out of bounds, where
  resolution would end with EMLINK (`Walk`, `OverflowNeedsAll`; `SelfLink`).
- A path whose last link is not to be followed ends at the directory that holds the link
  (`LastNotFollowed`, `LastOfPath`; `LinkNotFound`).
- The FIFO's writable amount is too large while a copy is under way (`AvailableAmounts`;
  `WritableTooLarge`). With a second reader, an exchange that is retried with the write position
  from before can take bytes that were never written (`FifoPairs.PairStepIff`; `StaleRetry`), and a
  second writer can take cells that are not free (`FifoWriters.PairStepIff`; `StaleWrite`).
- Freeing an ID in the middle of a free range overlaps the range (`DeallocIff`; `FreedTwice`).
- Joining cluster chains gives wrong offsets when the first of several runs is merged
  (`ExtendIff`; `MergedOffsetWrong`), a range that does not start with a run panics (`CollectRange`;
  `CutInsideRun`), and taking a chain of clusters frees the rest of the bitmap
  word, held or not, real or not (`ChainPopIff`; `ChainPopExample`).
- A downward copy of one-byte elements steps below zero unless the length is a multiple of the
  unrolling (`CopyReverse`, `Memmove`, `OneByteElements`; `MoveUpByOne`).
- A failed unlink loses the name and keeps the link count (`UnlinkExactIff`;
  `UnlinkDirectoryAsFile`).
- Clearing an intrusive list leaves its length (`IntrusiveList.Clear`; `ClearedLength`).

Members after a semicolon are the failing case, and those before it say exactly when the code
is right.

## Model

| member | source | states |
|---|---|---|
| BlockStores.BlockStore.ReadBlocks | src/mem/pagecache.rs:676-684 | a transfer that succeeds returns exactly the addressed blocks; which transfers fail is arbitrary |
| BlockStores.BlockStore.WriteBlocks | src/mem/pagecache.rs:686-694 | a transfer that succeeds overwrites exactly its range; one that fails may leave anything there and nothing elsewhere |
| BlockStores.BlockStore.Resize | src/filesystem/vfs.rs:323-337 | a file resize that succeeds leaves whole blocks with the old bytes and zeroes from the old length on; one that fails keeps the bytes below both lengths, and past them leaves anything |
| CacheViews.EntrySizes | src/mem/pagecache.rs:63-111 | the entry size counted in pages and counted in blocks is the same number, for block sizes above and below the page size |
| CacheViews.CleanViewIsStore | src/mem/pagecache.rs:469-486 | a coherent cache without dirty entries shows exactly the store |
| CacheViews.DropCleanKeepsView | src/mem/pagecache.rs:489-531 | evicting any clean entries changes nothing a reader sees and keeps the invariant |
| CacheViews.LoadKeepsView | src/mem/pagecache.rs:306-371 | reading an absent entry from the store changes nothing a reader sees and keeps the invariant |
| CacheViews.WriteSplicesView | src/mem/pagecache.rs:568-601 | overwriting part of an entry and marking it dirty changes exactly those bytes of the view |
| CacheViews.StoreChangeKeepsView | src/mem/pagecache.rs:400-441 | whatever a write-back does to the entry's own range of the store, readers see the same, with entries past the end or without, and coherence and the invariant are kept, if the entry is dirty or agrees afterwards |
| CacheViews.TruncateKeepsPrefix | src/mem/pagecache.rs:79-152 | truncation keeps every byte below the new length, referenced entries or not |
| CacheViews.TruncateInvariant | src/mem/pagecache.rs:79-152 | truncation keeps the cache invariant, on which all other calls rely, if and only if no entry past the new end is referenced |
| CacheViews.RegrowIff | src/mem/pagecache.rs:79-152 | after a truncation to n and growth to m over zeroes, readers see the first n bytes and then zeroes if and only if every referenced entry past n is zero as far as m |
| CacheViews.PinnedEntryResurfaces | src/mem/pagecache.rs:117-145 | an entry of ones that stays referenced through a truncation to nothing breaks the invariant, and its bytes are read after growth over a zeroed store |
| CacheViews.GrowInvariant | src/mem/pagecache.rs:79-86 | growth keeps the invariant if and only if the store is zero under every clean entry it uncovers |
| CacheViews.GrowExtendsView | src/mem/pagecache.rs:79-86 | growth over a store that is zero there appends zeroes to the view |
| CacheViews.ResizeView | src/filesystem/vfs.rs:323-354 | resizing the store and then the cache cuts the view or extends it with zeroes, and keeps the invariant if and only if nothing past the new end is referenced |
| PageCaches.BlockRange | src/mem/pagecache.rs:167-222 | the block range of an entry, clipped to the object: where it starts, that it covers all the entry holds of the object, and that it stays within the store |
| PageCaches.PageCache.Index | src/mem/pagecache.rs:160-164 | entry and page of an address: together with the offset in the page they give back the offset in the entry |
| PageCaches.PageCache.ReadFromDisk | src/mem/pagecache.rs:167-222 | an entry read is the store's bytes up to the end of the object and zeroes after it; an entry past the end is ENXIO, any other failure a failed transfer |
| PageCaches.PageCache.WriteToDisk | src/mem/pagecache.rs:225-261 | an entry written leaves the store equal to it below the length; nothing outside its range changes, and only an entry past the end is ENXIO |
| PageCaches.PageCache.Get | src/mem/pagecache.rs:264-303 | a cached entry's page with one more reference, and nothing for an entry that is not cached |
| PageCaches.PageCache.Alloc | src/mem/pagecache.rs:306-371 | gets the page with one more reference and never changes what readers see; fails only past the end or when a transfer failed, and then caches nothing |
| PageCaches.PageCache.ReadBytes | src/mem/pagecache.rs:534-565 | returns exactly the view of the range, page by page; out of range is EIO, and any other failure means that a transfer failed |
| PageCaches.PageCache.WriteBytes | src/mem/pagecache.rs:568-601 | changes exactly the addressed range of the view; a write that fails part way has written a prefix, and only a failed transfer makes it fail |
| PageCaches.PageCache.WriteZeroes | src/mem/pagecache.rs:604-631 | the range reads zero afterwards and every other byte is as before |
| PageCaches.PageCache.MarkDirty | src/mem/pagecache.rs:382-397 | marks the entry dirty if it is cached, and changes nothing else |
| PageCaches.PageCache.SyncEntry | src/mem/pagecache.rs:400-441 | writes a dirty entry back: clean on success, dirty again on failure, the view unchanged; ENXIO if and only if the entry is dirty and past the end |
| PageCaches.PageCache.Sync | src/mem/pagecache.rs:444-466 | after success the store equals the view on the whole range; a failure leaves some entry dirty and the view unchanged, and is ENXIO only if a dirty entry lies past the end; the sum for the end of the range overflows if and only if it reaches past the last address |
| PageCaches.PageCache.SyncAll | src/mem/pagecache.rs:469-486 | after success nothing is dirty and the store is the object; with a dirty entry past the end, as a truncation can leave, it ends in ENXIO unless a transfer fails first, and otherwise never in ENXIO |
| PageCaches.PageCache.Flush | src/mem/pagecache.rs:489-531 | evicts exactly the clean unreferenced entries, and the view is unchanged |
| PageCaches.PageCache.SetLen | src/mem/pagecache.rs:79-152 | shrinking zeroes the entry the new end falls in from there on, evicts the entries past it that nobody references, and keeps the rest |
| PageCaches.ResizeFile | src/filesystem/vfs.rs:323-354 | readers see the old contents cut or extended with zeroes, and clean entries agree with the store; the cache keeps its invariant if and only if nothing past the new end is referenced; a failure leaves the cache alone and what is below both lengths readable as before |
| PageCaches.ShrinkAndGrow | src/filesystem/vfs.rs:323-354 | after a resize down to n and one up to m, readers see the first n bytes and then zeroes if and only if every entry referenced past n is zero as far as m |
| RadixKeys.Subkey | src/util/rtree.rs:54-56 | the shifted and masked key is digit number height of the key |
| RadixKeys.TooLargeShift | src/util/rtree.rs:59-63 | a key is too large for a height if and only if it has a digit at or above it |
| RadixKeys.KeyHeightEnough | src/util/rtree.rs:66-70 | the height computed for a key holds all its digits |
| RadixKeys.KeyHeightLeast | src/util/rtree.rs:66-70 | every height the key is too large for is lower than the computed one |
| RadixUpdates.SlotWellFormed | src/util/rtree.rs:156-163 | overwriting a leaf slot keeps the tree well formed if and only if the new occupancy is positive and counts the leaf's values |
| RadixUpdates.GrowWellFormed | src/util/rtree.rs:128-149 | a new root above the old one keeps the tree well formed |
| RadixUpdates.PathWellFormed | src/util/rtree.rs:125-183 | hanging a new path of nodes where a child is missing keeps every node linked to its parent and children |
| RadixTrees.PathAll | src/util/rtree.rs:164-181 | with a count below 255 at the node it hangs from, a new path also stores exactly its key and keeps every count within eight bits, one per child a node was made with or had hung under it |
| RadixUpdates.PathFind | src/util/rtree.rs:125-183 | the new path holds exactly one value, and every other key is found as before |
| RadixUpdates.DropWellFormed | src/util/rtree.rs:186-204 | collecting an empty leaf, and the tree with its last value, leaves a well-formed tree |
| RadixUpdates.RemovalSoundIff | src/util/rtree.rs:207-231 | removal keeps the tree well formed and deletes only its key if and only if the key is present or no key in its leaf is |
| RadixTrees.RadixTree.Insert | src/util/rtree.rs:125-183 | returns the old value and updates the map at one key, however many levels the root has to grow; panics if and only if the key is absent and the last node on its way has counted to 255; a new subtree counts once at the node it is hung under |
| RadixTrees.RadixTree.GrowTo | src/util/rtree.rs:127-152 | raises the root to the wanted height without changing any key |
| RadixTrees.RadixTree.CreateSubtree | src/util/rtree.rs:73-122 | builds a path of single-child nodes down to the value, and touches no node that was there |
| RadixTrees.RadixTree.Get | src/util/rtree.rs:256-275 | agrees with the map for every key, too large ones included |
| RadixTrees.RadixTree.Remove | src/util/rtree.rs:186-231 | returns the stored value and takes a present key out of the map; no inner node counts less for it, so every count stays positive and collection ends at the first parent |
| RadixTrees.RemoveNeighbour | src/util/rtree.rs:207-231 | a fresh tree with one value loses it when another key of its leaf is removed |
| RadixRuns.FullIff | src/util/rtree.rs:154-175 | with digits of fewer than eight bits, an insertion overflows if and only if the key's leaf is missing and the last node on its way has counted to 255 |
| RadixRuns.Play | src/util/rtree.rs:125-231 | in every run the tree is the map, and inner nodes count one child and those hung since, up to the removal of an absent key or an insertion that panics; that one is of an absent key and has 255 insertions before it |
| RadixRuns.OverflowRun | src/util/rtree.rs:154-204 | key 0 stored, and key 16 stored and removed 254 times: storing 16 once more panics |
| RadixRuns.CollectStuckIff | src/util/rtree.rs:186-204 | if counts wrapped around, collection under a node would never end if and only if its count was raised from 255 |
| RadixIters.RadixIter.Down | src/util/rtree.rs:407-422 | goes down to the current key's value, or stops at a node below which no key with that prefix is stored |
| RadixIters.RadixIter.Advance | src/util/rtree.rs:425-444 | moves to a larger key and passes no stored key outside the subtree just left, up to the top of the key type |
| RadixIters.RadixIter.Next | src/util/rtree.rs:454-463 | yields the least stored key not yet passed, with its value, and ends only when none is left |
| RadixIters.CollectAll | src/util/rtree.rs:393-463 | iteration ends and yields exactly the stored pairs, once each, in strictly increasing key order |
| Fifos.ReadSpaceExact | src/util/fifo.rs:70-70 | the wrapping subtraction gives the exact number of readable bytes on unbounded counters |
| Fifos.WriteSpaceExact | src/util/fifo.rs:128-129 | the wrapping subtraction gives the exact number of writable bytes on unbounded counters |
| Fifos.ReaderKeepsInv | src/util/fifo.rs:60-109 | every step of a reader keeps the counters ordered, the positions their residues, and the unread bytes in their cells |
| Fifos.WriterKeepsInv | src/util/fifo.rs:118-168 | every step of a writer keeps the same |
| Fifos.RunInv | src/util/fifo.rs:60-168 | in every interleaving read commit, read reservation, write commit and write reservation stay in this order and less than a capacity apart |
| Fifos.DeliveredInOrder | src/util/fifo.rs:60-168 | in every interleaving the bytes read are a prefix, in order, of the bytes accepted |
| Fifos.NoCellShared | src/util/fifo.rs:145-155 | in every interleaving no cell being filled is unread or being copied out |
| Fifos.ReaderWithinCommitted | src/util/fifo.rs:86-96 | in every interleaving the reader copies only committed bytes, from the cells of their counters |
| Fifos.ExchangesSucceed | src/util/fifo.rs:66-108 | with one reader and one writer no exchange fails and every step makes progress |
| Fifos.ReservationsMaximal | src/util/fifo.rs:66-82 | a read takes all that was committed, and a write all that was free, when it looked, up to what was asked |
| Fifos.AvailableAmounts | src/util/fifo.rs:171-184 | the readable amount is exact; the writable amount is never too small, and exact if and only if no copy is under way |
| Fifos.WritableTooLarge | src/util/fifo.rs:179-184 | a FIFO of four with one byte being written reports three bytes writable, and two are free |
| Fifos.AmountsOverTime | src/util/fifo.rs:171-184 | with any steps between their two loads, both amounts are those of the second load for a calling reader, those of the first for a calling writer, and for a third thread those of the second if and only if the reader went on by whole laps |
| FifoPairs.PairStepIff | src/util/fifo.rs:60-109 | with two readers, a step keeps positions, contents, order of delivery and reservations sound if and only if it is not an exchange for more than is committed, for every lap the loaded position may be behind |
| FifoPairs.PairRunInv | src/util/fifo.rs:60-109 | a run of two readers and a writer whose exchanges are all of that kind delivers a prefix of what was accepted |
| FifoPairs.FreshIsSafe | src/util/fifo.rs:65-81 | an exchange is of that kind if nobody has read past the write position it uses |
| FifoPairs.StaleRetry | src/util/fifo.rs:65-81 | a reader that loads both positions of an empty FIFO of two, and retries after another reader took the byte written since, reserves a byte that was never written |
| FifoWriters.PairStepIff | src/util/fifo.rs:118-167 | with two writers, a step keeps positions, contents, order and reservations sound if and only if it is not an exchange for more than is free, for every lap the loaded position may be behind |
| FifoWriters.PairRunInv | src/util/fifo.rs:118-167 | a run of two writers and a reader whose exchanges are all of that kind delivers a prefix of what was accepted |
| FifoWriters.FreshIsSafe | src/util/fifo.rs:122-140 | an exchange is of that kind if nobody has written a lap past the read position it uses |
| FifoWriters.StaleWrite | src/util/fifo.rs:122-140 | a writer that loads both positions of an empty FIFO of two, while another writes, is read and writes again, finds the write position unchanged and reserves a cell where none is free |
| Walks.Look | src/filesystem/mod.rs:591-650 | a move uses up at least one byte, and a link is followed at the end of a component |
| Walks.LookLocal | src/filesystem/mod.rs:611-628 | a move decided on the top name is the move on all that is left of the path |
| Walks.ComponentLen | src/filesystem/mod.rs:611-617 | the length up to the next slash or the end of the name |
| Walks.Walk | src/filesystem/mod.rs:540-653 | for every path and link graph the machine ends with the resolver's result, and panics if and only if a link is followed while 31 are open |
| Walks.Walker.Turn | src/filesystem/mod.rs:600-649 | one turn either ends with the result the walk was to have, or leads to a state with that result and with fewer links or bytes left |
| Walks.Walker.FollowLink | src/filesystem/mod.rs:630-646 | following a link puts its target in front of the rest, or fails as the resolver does or for want of a stack slot |
| Walks.Walker.Leave | src/filesystem/mod.rs:592-597 | leaving a used-up name changes neither what is left nor the result |
| Walks.Walker.Examine | src/filesystem/mod.rs:600-649 | the code finds the move the resolver makes on what is left |
| Walks.OverflowNeedsAll | src/filesystem/mod.rs:632-637 | a walk that runs out of stack would fail with EMLINK if one link fewer were allowed, so a path that needs at most 31 links never does |
| Walks.SelfLink | src/filesystem/mod.rs:630-646 | a link whose target is its own name is EMLINK for the resolver and an index out of bounds for the machine |
| Walks.MoreLinks | src/filesystem/mod.rs:632-635 | allowing more links changes no result but EMLINK |
| Walks.ResolveConcat | src/filesystem/mod.rs:589-650 | resolving a path is walking a first part of it and resolving the rest from there with the links left |
| Walks.LastNotFollowed | src/filesystem/mod.rs:589-648 | without following the last link, a path ends at the entry of its last component in the place the rest leads to, or at that place itself if the entry is a link, and fails as the rest or the lookup fails |
| Walks.LastOfPath | src/filesystem/mod.rs:547-648 | the same for whole paths, with their length limit and starting point; a bare name is its entry in the starting directory |
| Walks.LinkNotFound | src/filesystem/mod.rs:626-648 | the path to a link in the starting directory, not followed, gives that directory |
| Walks.DanglingTarget | src/filesystem/mod.rs:626-628 | a link to a missing name is ENOENT, though the missing name by itself is found as a negative entry |
| IdAllocs.ReplacedWellFormed | src/util/id_alloc.rs:76-113 | putting a range between ranges it does not touch keeps them sorted, disjoint and not adjacent |
| IdAllocs.DeallocLive | src/util/id_alloc.rs:76-113 | returning an ID in use makes it free, nothing else, and keeps the ranges canonical |
| IdAllocs.DeallocIff | src/util/id_alloc.rs:76-113 | returning an ID frees exactly it and keeps the ranges sound if and only if it is in use or starts a free range |
| IdAllocs.FreedTwice | src/util/id_alloc.rs:76-113 | a fresh allocator given back ID 2 hands out 1, then 2, and still has 2 free |
| IdAllocs.AllocTakes | src/util/id_alloc.rs:115-170 | taking the first ID of a range removes one free ID and no other |
| IdAllocs.Canonical | src/util/id_alloc.rs:46-57 | one set of free IDs has one vector of ranges |
| IdAllocs.RunOk | src/util/id_alloc.rs:60-184 | over every run the free IDs are those not handed out, and with everything returned one range from 1 to the maximum is left |
| IdAllocs.IdAlloc.Search | src/util/id_alloc.rs:77-83 | binary search ends at the number of ranges that start below the ID |
| IdAllocs.IdAlloc.Alloc | src/util/id_alloc.rs:115-170 | fails if and only if no ID is free, and otherwise takes the start of the range at or after the last ID given, or of the first range |
| IdAllocs.IdAlloc.Dealloc | src/util/id_alloc.rs:76-113 | merges the ID with the ranges it touches; an ID in use becomes free and no other |
| IdAllocs.IdAlloc.IsFree | src/util/id_alloc.rs:172-184 | membership in the free IDs |
| Buses.StepKeepsInv | src/device/bus/mod.rs:111-270 | every step of every thread keeps locks, IDs, in-flight counts and owners consistent |
| Buses.BusExclusive | src/device/bus/mod.rs:111-270 | in every run all operations in flight on a bus belong to one reservation, and to the current one if there is one |
| Buses.LiveIdsHeld | src/device/registry.rs:158-171 | in every run live reservations have distinct IDs, none of which can be handed out again |
| Buses.ClaimWaitsForAll | src/device/bus/mod.rs:118-123 | in every run a claim stops waiting if and only if no operation is in flight on the bus |
| Buses.CancelledForever | src/device/bus/mod.rs:136-153 | once cancelled, a reservation stays cancelled until it is dropped and starts no further operation, whatever claims follow |
| Buses.TakeFailsIff | src/device/bus/mod.rs:262-270 | in every run take passes its check if and only if the reservation is not cancelled |
| Buses.ClaimTakesEffect | src/device/bus/mod.rs:125-132 | in every run a completed claim finds no operation in flight, makes its reservation current and every other one on the bus cancelled |
| Buses.CancelTakesEffect | src/device/bus/mod.rs:136-153 | in every run a completed cancellation cancels the reservation it means, and one that means another reservation changes nothing |
| Buses.DropReturnsId | src/device/bus/mod.rs:226-231 | in every run a completed drop makes the reservation's ID free, and nobody holds it |
| ClusterChains.LinkAddr | src/filesystem/fatfs/cluster.rs:385-406 | within a run, the media address of a file byte is the run's address plus the offset in the run |
| ClusterChains.PokeRun | src/filesystem/fatfs/cluster.rs:385-407 | writing a stretch within one run at once is writing it byte by byte through the cluster mapping |
| ClusterChains.FirstRun | src/filesystem/fatfs/cluster.rs:375-383 | the run found for the first cluster is where the request starts, or the request starts past the end |
| ClusterChains.ReadyStep | src/filesystem/fatfs/cluster.rs:385-399 | the shares of the runs follow each other without gap or overlap, and an empty share means that the request is done |
| ClusterChains.WriteSplicesFile | src/filesystem/fatfs/cluster.rs:369-411 | with distinct clusters a write overwrites exactly the addressed bytes of its file |
| ClusterChains.WriteKeepsOthers | src/filesystem/fatfs/cluster.rs:369-411 | a file that shares no cluster with the one written keeps all its bytes |
| ClusterChains.ClusterChain.Write | src/filesystem/fatfs/cluster.rs:369-411 | writes, run by run, what a bytewise write of the part inside the file writes; if the media fails, a prefix of that; panics if and only if the chain is empty |
| ClusterChains.ClusterChain.Read | src/filesystem/fatfs/cluster.rs:414-457 | reads, run by run, every byte of the request inside the file through the cluster mapping, and leaves the rest of the buffer alone; panics if and only if the chain is empty |
| ClusterChains.ClusterChain.Push | src/filesystem/fatfs/cluster.rs:298-317 | appends one cluster to the sequence the runs stand for |
| ClusterChains.ClusterChain.Shorten | src/filesystem/fatfs/cluster.rs:350-366 | drops exactly that many clusters from the end |
| ClusterChains.ClusterChain.Last | src/filesystem/fatfs/cluster.rs:320-325 | the last cluster, if there is one |
| ClusterChains.ClusterChain.FindRun | src/filesystem/fatfs/cluster.rs:377-383 | the last run that starts at or before a cluster of the file |
| ClusterChains.ExtendIff | src/filesystem/fatfs/cluster.rs:328-347 | joining gives the runs of the joined sequence if and only if the first run is not merged or is the only one |
| ClusterChains.ClusterChain.Extend | src/filesystem/fatfs/cluster.rs:328-347 | joins the runs, and the chains in the cases where the joined runs are right; panics if and only if an empty chain is joined to one that is not |
| ClusterChains.MergedOffsetWrong | src/filesystem/fatfs/cluster.rs:328-347 | cluster 0 joined with clusters 1 and 5 records cluster 5 at offset 3 instead of 2 |
| ClusterChains.ClusterChain.Range | src/filesystem/fatfs/cluster.rs:265-282 | gives an iterator over the clusters asked for if and only if they lie in the chain and the first of them starts a run; otherwise it panics |
| ClusterChains.ClusterChain.Get | src/filesystem/fatfs/cluster.rs:257-262 | gives the cluster at an offset that starts a run, none for an empty chain, and panics otherwise |
| ClusterChains.CollectRange | src/filesystem/fatfs/cluster.rs:265-282 | iterating a range yields clusters k up to k + n of the file if and only if k starts a run, and panics otherwise |
| ClusterChains.CutInsideRun | src/filesystem/fatfs/cluster.rs:265-282 | the search for what to free when a file of two adjacent clusters is cut to one panics |
| ClusterChains.ClusterIter.Next | src/filesystem/fatfs/cluster.rs:194-211 | the next cluster of the sequence, and nothing after the last |
| ClusterChains.Collect | src/filesystem/fatfs/cluster.rs:472-484 | full iteration yields the clusters in order |
| Bits.LowestBitIs | src/filesystem/fatfs/cluster.rs:85-85 | the word exclusive-or the word and its predecessor is the lowest set bit, and zero only for zero |
| ClusterBitmaps.ClearBit | src/filesystem/fatfs/cluster.rs:89-94 | clearing a bit takes exactly one cluster from the set |
| ClusterBitmaps.TakeIsFree | src/filesystem/fatfs/cluster.rs:81-102 | the cluster an exchange takes had its bit set and was held by nobody |
| ClusterBitmaps.StepKeepsInv | src/filesystem/fatfs/cluster.rs:46-106 | every step of every thread keeps counter, set bits and holders in balance |
| ClusterBitmaps.CountsBalance | src/filesystem/fatfs/cluster.rs:46-106 | in every run the counter, the allocations paid and not yet served, and the frees not yet counted add up to the set bits, and each cluster is free or held |
| ClusterBitmaps.NeverHeldTwice | src/filesystem/fatfs/cluster.rs:46-106 | in every run a cluster is only taken when nobody holds it, and only given back when somebody does |
| ClusterBitmaps.PaidHasBit | src/filesystem/fatfs/cluster.rs:69-88 | in every run there is a set bit for an allocation that has paid |
| ClusterBitmaps.ScanFinishes | src/filesystem/fatfs/cluster.rs:80-105 | a paid allocation that scans alone takes a cluster within one round of the words |
| ClusterBitmaps.AllocAlone | src/filesystem/fatfs/cluster.rs:69-106 | an allocation that runs alone gets a cluster nobody held if and only if the counter is not zero, and otherwise changes nothing |
| ClusterBitmaps.ChainPopFrees | src/filesystem/fatfs/cluster.rs:131-155 | taking one cluster for a chain leaves every other cluster of its word free |
| ClusterBitmaps.ChainPopIff | src/filesystem/fatfs/cluster.rs:131-155 | the cluster taken was free and held by nobody; afterwards no free cluster is held by anybody or lies past the last one if and only if every bit of the word was set |
| ClusterBitmaps.ChainPopExample | src/filesystem/fatfs/cluster.rs:131-155 | of two clusters with only the first free, taking it frees the second, which is held, and a third, which does not exist |
| Memories.CopyUp | src/misc/string.rs:38-78 | a chunk copied upwards extends the copy, if the destination is below the source or apart from it |
| Memories.CopyDown | src/misc/string.rs:80-116 | a chunk copied downwards extends the copy, if the destination is above the source |
| Memories.CopyForward | src/misc/string.rs:38-78 | the destination gets what the source held and nothing else changes, for every length, element size and unrolling |
| Memories.CopyReverse | src/misc/string.rs:80-116 | the same downwards; it ends well if and only if elements are larger than a byte or the length is a multiple of the unrolling |
| Memories.ReverseStops | src/misc/string.rs:83-102 | the masked lengths are multiples of the steps the loops take |
| Memories.Memmove | src/misc/string.rs:252-260 | for every overlap the destination gets what the source held and nothing else changes, except for one-byte elements copied downwards over a length that is no multiple of the unrolling |
| Memories.MoveUpByOne | src/misc/string.rs:252-260 | two bytes moved up by one, with slow unaligned access and chunks of sixteen, go wrong |
| Memories.OneByteElements | src/misc/string.rs:151-160 | elements of one byte are used if and only if an address is odd and unaligned access is slow |
| Memories.Memcmp | src/misc/string.rs:168-209 | zero for equal blocks, and otherwise the difference of the first bytes that differ |
| Fdts.ReadWordOf | lib/dtb/src/spec.rs:70-74 | reading a big-endian word inverts writing it |
| Fdts.NextOfName | lib/dtb/src/spec.rs:77-85 | the token for a node's start is its name, and the stream stands after the padding |
| Fdts.NextOfProp | lib/dtb/src/spec.rs:87-112 | the token for a property is its name from the strings block and its value, and the stream stands after the padding |
| Fdts.NextOfNops | lib/dtb/src/spec.rs:113-113 | any number of FDT_NOP tokens is skipped |
| Fdts.ParseInvertsEncode | lib/dtb/src/lib.rs:262-335 | parsing an encoded node body consumes exactly up to its own end and gives what the body means |
| Fdts.TreeRoundTrip | lib/dtb/src/lib.rs:61-86 | parsing a whole encoded tree gives what it means, with FDT_NOP tokens around it and any bytes after FDT_END, and succeeds if and only if its cells fit |
| Fdts.MeaningDone | lib/dtb/src/lib.rs:286-327 | a tree parses if and only if, in every node, the last property of each of the names phandle, #size-cells, #address-cells and #interrupt-cells is one cell |
| Fdts.MeaningProps | lib/dtb/src/lib.rs:293-300 | a node whose cells fit has exactly the properties of its body, the last of each name |
| Fdts.MeaningCells | lib/dtb/src/lib.rs:304-327 | its handle and cell counts are the values of its own properties, and none where it has no such property, whatever its parent has |
| Fdts.MeaningNodes | lib/dtb/src/lib.rs:288-291 | a node whose cells fit has exactly the children of its body, the last of each name, each parsed as a node |
| Fdts.TokenStream.NextToken | lib/dtb/src/spec.rs:67-117 | the loop returns the token the grammar gives and leaves the rest, or panics |
| Fdts.TokenStream.ParseNode | lib/dtb/src/lib.rs:262-335 | the loop fills in the node the grammar gives and leaves the rest, or panics |
| Fdts.ReadUintCells | lib/dtb/src/lib.rs:478-492 | the big-endian value of the cells, and nothing if and only if they are not all there |
| RamFss.NoDangling | src/filesystem/ramfs.rs:336-343 | a directory entry names an inode in the table with a link left |
| RamFss.UnlinkKeepsSound | src/filesystem/ramfs.rs:325-369 | an unlink, failed or not, leaves every inode at least as many links as entries and no entry dangling |
| RamFss.UnlinkExactIff | src/filesystem/ramfs.rs:325-369 | an unlink keeps link counts equal to the number of entries if and only if the entry is a directory with no other entry and the mode allows directories, or no directory and the mode allows others |
| RamFss.RamFs.constructor | src/filesystem/ramfs.rs:47-65 | a new filesystem has a root without links and satisfies the invariant |
| RamFss.RamFs.MakeFile | src/filesystem/ramfs.rs:416-476 | makes an inode with one link under a fresh number and names it, or fails without change |
| RamFss.RamFs.Link | src/filesystem/ramfs.rs:371-414 | adds a link and a name, or fails without change; the root, which has no link, makes it panic |
| RamFss.RamFs.Unlink | src/filesystem/ramfs.rs:325-369 | never panics or underflows; removes the entry even when it then fails, and the inode with its last link |
| RamFss.UnlinkDirectoryAsFile | src/filesystem/ramfs.rs:325-369 | a new directory unlinked as a file fails, is no longer named, and keeps its link |
| RamFss.RamFs.Rename | src/filesystem/ramfs.rs:478-497 | moves the entry to a free name in the same directory, or fails without change |
| DenyWrites.StepKeepsInv | src/filesystem/vfs.rs:191-208 | every open, flag change, close, map and unmap keeps counter and exclusion, and no assertion fails |
| DenyWrites.WritesExcluded | src/filesystem/vfs.rs:376-384 | over every run the counter is denying mappings minus writing handles, the two are never both nonzero, and the assertions hold |
| DenyWrites.BusyExactly | src/filesystem/mod.rs:863-872 | over every run a request is refused if and only if it would break the exclusion |
| IntrusiveLists.InsertLinked | src/util/list.rs:156-178 | linking a node in at any place keeps neighbours mirrored and the end markers in place, and touches no other node |
| IntrusiveLists.RemoveLinked | src/util/list.rs:366-393 | taking a node out keeps the rest linked, leaves null links on the node, and touches no other node |
| IntrusiveLists.IntrusiveList.PushFront | src/util/list.rs:156-178 | puts a detached node first, and refuses one that is in a list |
| IntrusiveLists.IntrusiveList.PushBack | src/util/list.rs:210-232 | puts a detached node last, and refuses one that is in a list |
| IntrusiveLists.IntrusiveList.PopFront | src/util/list.rs:180-201 | takes the first node out, if there is one |
| IntrusiveLists.IntrusiveList.PopBack | src/util/list.rs:234-255 | takes the last node out, if there is one |
| IntrusiveLists.IntrusiveList.InsertAfter | src/util/list.rs:264-282 | puts a node right after another |
| IntrusiveLists.IntrusiveList.InsertBefore | src/util/list.rs:284-302 | puts a node right before another |
| IntrusiveLists.IntrusiveList.Remove | src/util/list.rs:366-393 | takes a node out of its place |
| IntrusiveLists.IntrusiveList.Iterate | src/util/list.rs:93-102 | yields the items in order |
| IntrusiveLists.IntrusiveList.Contains | src/util/list.rs:345-356 | membership in the list |
| IntrusiveLists.IntrusiveList.Clear | src/util/list.rs:330-343 | detaches every node and empties the list but keeps its length, so the list stays valid if and only if it was empty |
| IntrusiveLists.ClearedLength | src/util/list.rs:330-343 | a list of one node, cleared, yields nothing and has length one |

## Left out

- Running out of memory, and faults while copying to or from user memory.
- Page cache calls that run at the same time, the waits on entries being read or written, memory-mapped writes and the physical page allocator.
- Page cache flags set by a concurrent writer while a write-back is under way: the model runs one call at a time, so a write-back that clears the flag and one that sets it to writing are the same.
- What a radix tree does after a count has wrapped around, beyond the collection that never ends.
- `get_mut`, mutable iteration and dropping of the radix tree, which walk as `get` and the iterator do.
- The FIFO under weak memory ordering, its blocking wrappers, and more than two readers, two writers, or two of both.
- Fifos.RunInv: asks for a capacity between one and half the range of a word; with none the source divides by zero, and no allocation is larger.
- PageCaches.ResizeFile: does not say what a failed resize leaves past the smaller of the two lengths, because FAT can fail after it has changed its chain or length.
- PageCaches.PageCache.Sync: a range past the last address ends in an error of its own, as in a build that checks additions; one that does not check would wrap around instead.
- Path walking through mount points, and a directory cache that changes during the walk.
- IdAllocs.IdAlloc.Alloc: the branches for the middle and the end of a range are not written out, because the search ends at a range that starts at or after the wanted ID or wraps to the first range, so they are never taken.
- The device behind a bus reservation, its interrupt handlers, and the waiting list of a claim.
- Buses.StepKeepsInv: a claim that finds no free ID panics in the source and is not enabled in the model.
- ClusterChains.ClusterChain.Range: panics as a build that checks does; one that does not panics only inside the last run, and inside an earlier one yields the clusters from the next run on.
- `sync`, and the rest of FAT: directories, long names and the table itself.
- The assembly paths of the memory functions, and addresses that wrap around.
- Header checks of the device tree, the map from phandles to nodes, aliases, UTF-8 validity of names, and display.
- Cross-directory renames, file data, symbolic links and times in the RAM filesystem.
- More than 2^31 handles or mappings of one file, at which the deny-write counter would overflow.
- Drivers, architecture code, system calls, scheduling and logging.

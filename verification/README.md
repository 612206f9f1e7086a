# NiFAT32 in Dafny

NiFAT32 is a FAT file system that tolerates bit flips. This project models its stateful core and proves what each part promises. Code that changes state in place is modelled as methods over heap objects, arrays and mutable fields, each proved against specification functions; the laws are lemmas about those functions, and the two locking protocols are transition systems.

| files | what they model |
|---|---|
| `Ecache.dfy`, `EcacheInsert.dfy`, `EcacheDelete.dfy` | the directory index: a red-black tree of heap nodes with parent pointers (`src/ecache.c`) |
| `DirIndex.dfy` | directory lookup with and without the index (`src/entry.c`) |
| `Arith.dfy`, `Bits.dfy`, `Hamming.dfy` | shared arithmetic; the Hamming(15,11) code, on words and on buffers (`std/hamming.c`) |
| `Vote.dfy`, `FatTable.dfy`, `FatRuns.dfy`, `FatMap.dfy`, `Fat.dfy` | the replicated table with its vote, cache and free-cluster bitmap (`src/fat.c`, `src/fatmap.c`) |
| `Chains.dfy`, `Cluster.dfy` | allocation, release and cluster chains (`src/cluster.c`) |
| `Streams.dfy`, `AreaLocks.dfy`, `Disk.dfy`, `Volume.dfy` | sector range locks, sector loops, and contents as byte streams (`src/disk.c`, `nifat32.c`) |
| `Blocks.dfy`, `Mm.dfy` | the heap allocator (`std/mm.c`) |
| `RwLock.dfy` | the reader/writer lock (`std/threading.c`) |
| `FatSize.dfy` | the size of the table (`formatter/nifat32formatter.c`) |

The layers meet: `Fat` reads and writes copies through the Hamming code and is proved equal to `FatTable`; `FatRuns` proves that table equal to a plain array on every run; `Cluster` and `Volume` work on that array (`FatRuns.Logical`) and on the sectors of `Disk`, which takes and returns the locks of `AreaLocks` around every access; `DirIndex` builds its index with the red-black tree of `EcacheInsert`.

Where the code does less than one would expect, the model follows the code and the project proves when the expectation holds:

- `ecache_delete` tests the colour of the successor after overwriting it (`src/ecache.c:256-260`). A deletion yields a red-black tree exactly when the node has at most one child or the colour of its successor; for a black node with a red successor it reads through a null pointer (`EcacheDelete.Delete`).
- `write_fat` caches and marks values that the copies cut to 28 bits. `FatRuns.WriteCoherentIff` says exactly when the table stays coherent.
- A read that sees a first copy with BAD and one single other value rewrites nothing (`Vote.RepairIff`).
- The fallback scan of `alloc_cluster` is sure to find the first free cluster exactly when at most one BAD or RESERVED cluster lies before it (`Chains.ScanFindsFirstIff`); the same holds of the whole allocator, without a bitmap and with one that was never loaded (`Cluster.ChosenIsFirstIff`).
- A sector range lock whose end wraps around 32 bits does not keep out all requests for its sectors (`AreaLocks.ExcludesIff`, `AreaLocks.WrappedOverlapIff`).
- A write release is guarded by the owner number alone, and `get_thread_num` is zero for all threads by default (`RwLock.ForeignReleaseIff`). If threads may call it without holding the lock, writers are alone in every run exactly when no two threads share a number (`RwLock.AtWillIff`).
- Seven request sizes at the top of the 64-bit range round to zero in the allocator (`Blocks.RoundedUpIs`), and a payload of no bytes at the end of the buffer cannot be freed (`Mm.RefusedIff`, `Mm.RefusedIsReached`).
- When memory runs out, the index can lead elsewhere than the scan exactly when a name has two data clusters (`DirIndex.IndexAgreesIff`).
- `_calculate_fat_size` does not always end. `FatSize.EndsIff` says exactly when, by one division of its inputs; with the default options it does not end on a volume of 252 MB (`FatSize.DefaultCycle`).

## Model

| member | source | states |
|---|---|---|
| `Ecache.RotateLeft` | src/ecache.c:4-17 | a left rotation keeps every node's links and search interval consistent and moves only the three links around the turned edge |
| `Ecache.RotateRight` | src/ecache.c:19-32 | the mirror image |
| `Ecache.Find` | src/ecache.c:115-124 | on a red-black tree the search returns a node with the key if and only if the key is present, after at most 2 * log2(n + 1) steps for n nodes |
| `Ecache.HeightBound` | src/ecache.c:34-124 | no more than 2 * log2(n + 1) steps fit into twice the black height of a tree of n nodes |
| `Ecache.KeysUnique` | src/ecache.c:95-103 | two nodes with one key are the same node |
| `Ecache.RedBlackIs` | src/ecache.c:34-78 | the local invariants, which use ghost fields, imply the textbook ones: all paths down have the same number of black nodes, counted from pointers and colours alone, the root is black and no red node has a red parent |
| `EcacheInsert.FixInsert` | src/ecache.c:34-78 | from a tree that is red-black but for one red node, the fix-up ends with a red-black tree of the same nodes |
| `EcacheInsert.Insert` | src/ecache.c:81-113 | insertion yields a red-black tree that gains exactly the new pair if the key was absent and memory was granted, and is unchanged otherwise |
| `EcacheDelete.FixDelete` | src/ecache.c:140-216 | from a tree that lacks one black node at the given place, the fix-up ends with a red-black tree; it reads through null exactly when entered on a tree that lacks none |
| `EcacheDelete.Transplant` | src/ecache.c:132-138 | one subtree takes the place of another below the same parent |
| `EcacheDelete.Delete` | src/ecache.c:219-265 | deletion removes exactly the node with the key; the result is a red-black tree without a fault if and only if the node has at most one child or the colour of its successor; a fault occurs if and only if it is black with two children and a red successor |
| `EcacheDelete.DeficientIsUnbalanced` | src/ecache.c:256-262 | a tree that lacks a black node has two paths with different numbers of black nodes |
| `DirIndex.EntryIndex` | src/entry.c:68-82 | indexing a directory builds a red-black tree that holds, for each hash, the first usable entry for which memory was granted |
| `DirIndex.Scan` | src/entry.c:37-66 | the walk over the clusters finds the entry that `DirIndex.FirstHitIs` describes, and its data cluster |
| `DirIndex.FirstHitIs` | src/entry.c:37-101 | the scan succeeds if and only if some entry in front of the end mark of its cluster has a right checksum, is not marked as deleted by the byte 0xE5, carries the hash of the name, and has the name up to a NUL; its answer is the first such entry |
| `DirIndex.IndexIs` | src/entry.c:68-119 | without hash collisions on the name and with honest stored hashes, the index knows a name if and only if memory was granted for some accepted entry, and it leads to the first such entry |
| `DirIndex.IndexAgreesIff` | src/entry.c:107-128 | what the search through an index that indexing built answers with (`DirIndex.EntrySearch`) leads to the data cluster of the first accepted entry, whatever memory was granted, if and only if all entries of the name have one data cluster; with all memory requests met it always does |
| `DirIndex.EntrySearch` | src/entry.c:107-128 | given honest stored hashes and no collision on the name, the search through an index built by indexing succeeds exactly when the scan does, even if some memory requests failed, and its data cluster is that of the first accepted entry in the index, else of the first accepted entry; without these hypotheses it still answers only with an entry that is reached, sound and not deleted |
| `DirIndex.TwinsDiffer` | src/entry.c:68-119 | an instance: a name that is present twice with different clusters |
| `Hamming.DecodesIff` | std/hamming.c:4-51 | a word decodes to given data if and only if at most one of its fifteen bits differs from the code word, whatever bit 15 is |
| `Hamming.BufferSurvives` | std/hamming.c:53-79 | a buffer survives one flipped bit in each of its words |
| `Hamming.EncodeIs` | std/hamming.c:4-31 | a code word holds the eleven data bits in the places 2, 4 to 6 and 8 to 14, and the number of set bits is even in each of the four groups of places |
| `Hamming.PackMemory` | std/hamming.c:72-79 | packing fills the buffer with the code words of the bytes and nothing beyond |
| `Hamming.UnpackMemory` | std/hamming.c:62-70 | unpacking fills the buffer with the decoded bytes and nothing beyond |
| `Vote.LeadMoves` | src/fat.c:177-192 | the invariant of the vote: how far a value leads is at least twice its count less the number of copies and one |
| `Vote.MajorityWins` | src/fat.c:177-192 | a value in more than half of the copies is elected; half suffices for BAD |
| `Vote.MajorityIff` | src/fat.c:177-192 | for every number of copies, a value other than BAD in a given number of them is sure to be elected if and only if they are a strict majority |
| `Vote.RepairIff` | src/fat.c:177-203 | the copies are rewritten if and only if they disagree otherwise than by one stray copy after a first copy with BAD |
| `FatTable.BytesRoundTrip` | src/fat.c:89-90 | the four bytes of a value give back its low 28 bits |
| `FatTable.CellIs` | src/fat.c:85-153 | byte `k` of a value is its digit `k` to the base 256, kept in code word `k`, and four words read as the number with these digits, cut to 28 bits |
| `FatTable.CellSurvives` | src/fat.c:138-154 | a stored value survives one flipped bit in each of its four words |
| `FatTable.SurvivesFaults` | src/fat.c:156-207 | an uncached read returns the stored value if a strict majority of the copies is readable and has at most one flipped bit in each word |
| `FatTable.WriteSurvives` | src/fat.c:105-207 | end to end: a value written to a strict majority of copies and damaged by one flip a word there, and at will elsewhere, is read back, for every number of copies |
| `FatTable.CacheShields` | src/fat.c:105-208 | on a table with a cache, a value other than BAD that was written or read is read again without looking at the copies, whatever has become of them |
| `FatTable.LostIsBad` | src/fat.c:138-192 | if no copy can be read, the read yields BAD |
| `FatTable.PutYields` | src/fat.c:105-112 | after a write that reaches all copies, every copy yields the value, and other clusters yield what they did |
| `FatTable.ReadHeals` | src/fat.c:177-207 | after an uncached read all copies decode to the result, but for one stray copy of a BAD cluster; copies that agreed are not rewritten |
| `FatRuns.ReadKeeps` | src/fat.c:156-208 | a read returns the elected value, cached or not, changes no value, and keeps the cache coherent and the bitmap exact |
| `FatRuns.WriteKeeps` | src/fat.c:115-136 | a write of a 28-bit value changes that value only, and keeps the cache coherent and the bitmap exact |
| `FatRuns.WriteCoherentIff` | src/fat.c:105-112 | a write keeps the table coherent if and only if the value fits in 28 bits, or there is no cache and no bitmap that takes a stored FREE for a value in use |
| `FatRuns.RunsLikeAnArray` | src/fat.c:105-208 | every run of reads and writes gives the answers and the final values of a plain array, ends coherent, and keeps an exact bitmap exact |
| `FatRuns.RepairHeals` | src/fat.c:76-82 | repairing a table without a cache heals every cluster and changes no value |
| `FatRuns.LoadIsExact` | src/fat.c:48-58 | after loading, a bit of the bitmap is clear exactly when the cluster is free, and clusters before the root count as taken |
| `Fat.Fat.ReadCopy` | src/fat.c:138-154 | the four decoded bytes of a copy as a little-endian number, cut to 28 bits, or BAD on an I/O error |
| `Fat.Fat.WriteCopy` | src/fat.c:85-100 | the four words of the cluster decode to the bytes of the value, the least one first, and nothing else of the copy changes; on an I/O error nothing changes |
| `Fat.Fat.Ballot` | src/fat.c:177-192 | the loop over the copies computes the vote |
| `Fat.Fat.ReadFat` | src/fat.c:156-208 | the method that changes disk, cache and bitmap in place does to the table what the read of `FatTable` says, for any outcome of every disk access |
| `Fat.Fat.WriteFat` | src/fat.c:115-136 | the same for writes, and success means that every copy was written |
| `Fat.Fat.CacheHload` | src/fat.c:48-58 | the loop over all clusters loads cache and bitmap as specified |
| `Fat.Fat.Repair` | src/fat.c:76-82 | the loop over all clusters repairs the table as specified |
| `FatMap.FirstRunIsLeast` | src/fatmap.c:53-81 | the plain search finds the least start of a run of clear bits; zero means none |
| `FatMap.SkipAhead` | src/fatmap.c:64-71 | a set bit rules out every start from which a run would cover it |
| `FatMap.FatMap.FindFree` | src/fatmap.c:53-81 | the search that skips ahead agrees with the plain search |
| `FatMap.FatMap.Set` | src/fatmap.c:29-35 | clears exactly the bit of the cluster in the packed words |
| `FatMap.FatMap.Unset` | src/fatmap.c:41-47 | sets exactly the bit of the cluster in the packed words |
| `Chains.ScanIsSound` | src/cluster.c:49-70 | what the fallback scan finds is free and not before the first free cluster |
| `Chains.ScanIs` | src/cluster.c:49-70 | the scan looks at positions one apart, plus, behind a BAD or RESERVED cluster, as many as such clusters were looked at before it; it finds the first free cluster looked at, and none if and only if it leaves the table before |
| `Chains.ScanFindsFirstIff` | src/cluster.c:49-70 | among all tables with a given number of BAD or RESERVED clusters before the first free one, the scan always finds that one if and only if the number is at most one |
| `Chains.ScanCanMiss` | src/cluster.c:63-67 | for every larger number and every root there is a table on which the scan finds nothing although a cluster is free |
| `Chains.WalkIs` | nifat32.c:395-403 | on any table the walk follows the links up to the cluster before END or BAD if it gets there in time, and else uses up its rounds |
| `Chains.WalkFindsTail` | nifat32.c:395-403 | the bounded walk along a chain ends at its last cluster |
| `Chains.WalkOnCycle` | nifat32.c:397-407 | on clusters that lead round and round the walk uses up its rounds |
| `Chains.DrainIs` | src/cluster.c:91-104 | on any table, cyclic, cross-linked or broken, releasing frees exactly the clusters that links lead to, and reports success if and only if the start is in range and none of them links out of range other than by END or BAD |
| `Chains.DrainOnlyFrees` | src/cluster.c:91-104 | releasing from any cluster of any table, cyclic or cross-linked, ends and only frees clusters |
| `Chains.DrainClearsChain` | src/cluster.c:91-104 | on a well-formed chain it frees exactly that chain |
| `Chains.ClearCounts` | src/cluster.c:91-104 | freeing a chain raises the free count by exactly its length |
| `Chains.EventKeepsFamily` | nifat32.c:357-384 | creating, extending and releasing chains keeps all chains acyclic, ended by END and pairwise disjoint |
| `Chains.RunEvents` | nifat32.c:357-384 | the same over every run |
| `Chains.RunConserves` | src/cluster.c:19-104 | over every run, the clusters in use change by as much as the total length of the chains: none leaks |
| `Cluster.ChosenIsFirst` | src/cluster.c:27-72 | with an exact bitmap the allocator chooses the least free cluster from its start on, and none exactly when there is none |
| `Cluster.ChosenIsFirstIff` | src/cluster.c:27-72 | over all coherent tables, with a bitmap or without one, the allocator is sure to choose the first free cluster if and only if at most one BAD or RESERVED cluster lies before it |
| `Cluster.ValuesSurvive` | src/fat.c:138-208 | if for every cluster a strict majority of copies is within one flipped bit in each word of its value, a fresh mount sees the same value of every cluster |
| `Cluster.FamiliesSurvive` | src/fat.c:138-208 | after such damage and a fresh mount the same families of chains are well-formed and disjoint |
| `Cluster.ChosenIsFree` | src/cluster.c:27-72 | with any bitmap the choice is in range, free, and not before the start |
| `Cluster.ChosenIs` | src/cluster.c:27-72 | the allocator takes the least cluster whose bit is clear if that cluster is free, else the first free cluster that the scan looks at |
| `Cluster.Clusters.GetClusterOffset` | src/cluster.c:9-17 | without an entry offset the search starts where the last one ended; with one, at `(n + 11) * 3024953 / 2` in 32-bit arithmetic, modulo the number of clusters, for the remembered number `n` raised by it |
| `Cluster.Clusters.AllocCluster` | src/cluster.c:19-76 | the chosen cluster becomes RESERVED and nothing else changes, or BAD is returned and nothing changes; the remembered position moves as specified |
| `Cluster.Clusters.DeallocCluster` | src/cluster.c:78-89 | a cluster in range becomes free, any other is refused |
| `Cluster.Clusters.DeallocChain` | src/cluster.c:91-107 | the loop releases what `Chains.Drain` releases, on every table; in a family of chains this is the event that releases the chain |
| `Cluster.CarvedIs` | src/cluster.c:113-126 | the bytes of cluster `ca` are those of the sectors from `first + (ca - root) * spc` on |
| `Cluster.CarvedUpdate` | src/cluster.c:109-131 | a change of the sectors of one cluster changes no byte of another |
| `Cluster.Clusters.ReadoffCluster` | src/cluster.c:109-115 | the bytes of the `spc` sectors from `first + (ca - root) * spc` on, from the offset on, are put into the buffer |
| `Cluster.Clusters.WriteoffCluster` | src/cluster.c:121-131 | the bytes are written at the offset over the `spc` sectors from `first + (ca - root) * spc` on; no other sector and no other cluster changes |
| `AreaLocks.AreaTable.Lock` | src/disk.c:11-48 | a request is granted if and only if the table could be locked, fewer than 25 areas are held, and every area held that shares a sector with it is, like itself, for reading; it then takes the first idle slot |
| `AreaLocks.AreaTable.Unlock` | src/disk.c:50-66 | the first slot with that start and count becomes idle; an area that is held is thereby removed, and no other |
| `AreaLocks.GrantIff` | src/disk.c:11-48 | the same of a table of areas as a value |
| `AreaLocks.OverlapIffShared` | src/disk.c:21-25 | the comparison of bounds is true exactly when the ranges share a sector |
| `AreaLocks.ExcludesIff` | src/disk.c:21-35 | a write lock on a non-empty range keeps out every request within 32 bits that shares a sector if and only if it lies within 32 bits itself or is just the last sector |
| `AreaLocks.ExcludesItselfIff` | src/disk.c:21-35 | a write lock keeps a second one on the same range out if and only if its end does not wrap around |
| `AreaLocks.WrappedOverlapIff` | src/disk.c:21-25 | a range that wraps around is seen to overlap a request if and only if the request meets both of its parts |
| `AreaLocks.ReleaseKeeps` | src/disk.c:50-66 | although unlocking ignores the mode, it removes exactly the area that was granted |
| `AreaLocks.RunsExclude` | src/disk.c:11-66 | in every run the table holds exactly the areas granted and not given back, and two that share a sector are both for reading |
| `Disk.CalledIff` | src/disk.c:105-119 | exactly which sectors the loops call the platform for, the step of zero length included |
| `Disk.TransferredIff` | src/disk.c:105-119 | a byte is transferred if and only if no platform call fails up to the sector that it is in |
| `Disk.Disk.ReadoffSectors` | src/disk.c:102-130 | if the table of areas can be locked and the range is granted, the loop reads a slice of the concatenated sectors up to the first platform call that fails; it succeeds if and only if no call fails, and the range is given back if the table can be locked again |
| `Disk.Disk.WriteoffSectors` | src/disk.c:150-182 | the same for writes over a slice, and no other sector changes |
| `Streams.FlatPiece` | src/disk.c:105-119 | bytes inside one block are bytes of the concatenation |
| `Streams.FlatOverlay` | src/disk.c:154-169 | a write inside one block is a write at its place in the concatenation |
| `Volume.AddClusterToChain` | nifat32.c:357-384 | a chosen free cluster becomes END and the given cluster points to it; if there is none, or the given cluster is out of range, no value changes |
| `Volume.AddClusterToContent` | nifat32.c:393-411 | on any table, cyclic or broken chains included, a content grows by one free cluster behind the cluster given or found by the bounded walk, or no value changes; in a family of chains this is the event that extends the chain |
| `Volume.ReadContent` | nifat32.c:319-350 | reading yields exactly the slice of the content from the offset on, over any chain and offset, and its length |
| `Volume.WriteContent` | nifat32.c:414-465 | writing overlays the data on the content at the offset; the chain grows by free clusters to the larger of its old length and what the data reaches, keeps its links, and no other cluster or table value and no sector outside of the clusters changes; it falls short only at the end of the chain, when the scan leaves the table without looking at a free cluster and, with an exact bitmap, none is free from the start of the last search on |
| `Volume.ReadsBack` | nifat32.c:319-465 | the bytes written are read back, and all other old bytes read as before |
| `Volume.FamilyKeeps` | nifat32.c:414-465 | a write to one content leaves all contents well-formed and disjoint, and the bytes of the others as they were |
| `Volume.CreateChain` | nifat32.c:549-555 | a new content starts with a chain of one cluster that was free: the event that creates a chain |
| `Blocks.LiveDisjoint` | std/mm.c:54-98 | live payloads lie within the buffer and are a header apart |
| `Blocks.TakenKeeps` | std/mm.c:67-89 | taking a block, split or whole, adds one live payload and keeps the tiling, the alignment and all other payloads |
| `Blocks.FreedKeeps` | std/mm.c:115-141 | freeing removes exactly that payload |
| `Blocks.MergedJoined` | std/mm.c:38-49 | free neighbours may be joined in any order |
| `Blocks.MergedKeeps` | std/mm.c:30-52 | coalescing keeps every live payload, the accounting, and the room that runs of free blocks have |
| `Blocks.MergedApart` | std/mm.c:30-52 | after coalescing no two neighbours are free |
| `Blocks.RoundedUpIs` | std/mm.c:57 | rounding to the alignment in 64 bits yields at least the size if and only if the size is not one of the seven largest |
| `Blocks.AllocatedIs` | std/mm.c:54-109 | for every size up to 2^64 - 1, a request is met if and only if some run of consecutive free blocks, absorbed headers included, holds the rounded size; the payload is aligned, disjoint from all others, less than a header larger than the rounded size, and holds the requested size if and only if that is not one of the seven largest |
| `Blocks.AllocatedWhere` | std/mm.c:64-109 | the block handed out is the first free one that holds the rounded size as it is; if there is none, it starts at the lowest address at which a run of free blocks holds it |
| `Blocks.RunsKeepApart` | std/mm.c:54-145 | after every run of calls, of any sizes, in which callers free what they hold, what they hold lies in the buffer, aligned and disjoint; a free that the bounds check refuses leaves the payload with its holder |
| `Mm.Heap.constructor` | std/mm.c:10-23 | the buffer starts as one free block |
| `Mm.StoresSwapped` | std/mm.c:42-43 | rewriting the headers of some blocks keeps the headers of all others reachable and stale ones free |
| `Mm.Heap.Fit` | std/mm.c:64-98 | the walk takes the first block that fits |
| `Mm.Heap.Coalesce` | std/mm.c:30-52 | the nested loops end with all free neighbours joined |
| `Mm.Heap.Malloc` | std/mm.c:100-109 | first fit, then coalescing and first fit again, on linked headers in memory, with exact accounting |
| `Mm.Heap.Free` | std/mm.c:115-145 | a pointer below the end of the buffer that was handed out and not yet freed is freed; every other pointer changes nothing |
| `Mm.RefusedIff` | std/mm.c:117-120 | a payload in use is refused as out of range if and only if it is the last one and has no bytes |
| `Mm.RefusedIsReached` | std/mm.c:54-120 | two requests lead to such a payload, on every buffer and with each of the seven largest sizes |
| `RwLock.Fields` | include/std/threading.h:39-47 | packing and unpacking the lock word are inverse |
| `RwLock.NextKeeps` | std/threading.c:3-81 | every step of every thread keeps the word in agreement with what the threads hold |
| `RwLock.Excludes` | std/threading.c:3-81 | the word counts the readers; its write bit is set if and only if there is a writer, who is the only holder and whose number it carries |
| `RwLock.RequireReadIs` | std/threading.c:3-26 | on the present word, a read lock is granted if and only if there is no writer and fewer than 255 are held, and refused if and only if there is no writer and 255 are held; with a writer the thread asks again |
| `RwLock.RequireWriteIs` | std/threading.c:47-66 | on the present word, the write lock is granted if and only if nobody holds anything; else the thread asks again |
| `RwLock.ReleaseGivesBack` | std/threading.c:28-81 | on the present word, a release gives back exactly one lock that the thread holds |
| `RwLock.StaleIs` | std/threading.c:3-81 | on a word that has changed since it was loaded, no call takes or gives back a lock |
| `RwLock.ReleaseIs` | std/threading.c:28-81 | a release by a holder is never refused; a write release by another thread never changes the word |
| `RwLock.ForeignReleaseIff` | std/threading.c:68-77 | a write release by another thread is refused if and only if its owner number differs from the holder's |
| `RwLock.AtWillIff` | std/threading.c:3-81 | if threads may call for a write release at any time, writers are alone in every run if and only if no two threads have the same number |
| `RwLock.InitialInv` | include/std/threading.h:47 | a fresh lock that nobody holds is in agreement |
| `RwLock.RunsExclude` | std/threading.c:3-81 | in every interleaving of loads and compare-and-swaps the count is exact, at most 255, and readers and a writer never coexist |
| `FatSize.StepAntitone` | formatter/nifat32formatter.c:117-121 | a larger table leaves no more clusters to describe |
| `FatSize.FixedIsUnique` | formatter/nifat32formatter.c:117-122 | the iteration has at most one fixed point |
| `FatSize.Bracket` | formatter/nifat32formatter.c:117-122 | every iterate lies between the second and the first |
| `FatSize.FewCopiesAreRoomy` | formatter/nifat32formatter.c:112-122 | with no more copies than a cluster has sectors, the default options included, every disk is roomy: no 32-bit difference of the iteration wraps around |
| `FatSize.FixedIff` | formatter/nifat32formatter.c:117-122 | there is a fixed point if and only if the remainder of `sectors + 127 * spc` by `fc + 128 * spc` is less than `128 * spc`; the quotient is the fixed point |
| `FatSize.EndsIff` | formatter/nifat32formatter.c:117-122 | on every roomy disk, with `r` the remainder and `q` the quotient of `sectors + 127 * spc` by `fc + 128 * spc`, the iteration ends if and only if `r < 128 * spc` and one of `q == 0`, `r < 128 * spc - fc`, `fc <= r` holds |
| `FatSize.GentleIff` | formatter/nifat32formatter.c:117-122 | the iteration ends on every roomy disk that has a fixed point if and only if `fc <= 64 * spc` or `2 * fc >= 257 * spc` |
| `FatSize.FixedOrCycle` | formatter/nifat32formatter.c:117-122 | with `fc <= 128 * spc` there is a fixed point, or two adjacent sizes that lead to each other |
| `FatSize.SteepCycle` | formatter/nifat32formatter.c:117-122 | for all options that fail the test of `FatSize.GentleIff` there is a disk on which the iteration passes by its fixed point for ever |
| `FatSize.CalculateFatSize` | formatter/nifat32formatter.c:112-124 | if the inputs meet the condition of `FatSize.EndsIff`, the loop ends and returns the quotient; the table has four bytes for every cluster and less than a sector too much |
| `FatSize.DefaultCycle` | formatter/nifat32formatter.c:112-124 | an instance: with the default options on 252 MB the remainder is 1024, which is too large, and the loop does not end |

## Left out

- FatSize.EndsIff: assumes tables that fit on the disk even at the first iterate, so that no 32-bit difference wraps around, which `FatSize.FewCopiesAreRoomy` proves for `fc <= spc`.
- DirIndex.EntrySearch: compares success and data cluster; the file size and attributes that the source fills in from the index are not modelled, and the copy of the whole entry that a scan yields is not either.
- Mm.Heap.Malloc: the offset parameter is fixed to `NO_OFFSET`, as in all calls of the default manager.
- Mm.Heap.Free: headers are told from payload bytes by the map of headers; payload bytes that imitate the magic number, and memory in front of the buffer, are not modelled.
- EcacheDelete.Delete: the node is freed before its colour may be read (`src/ecache.c:259-260`); the model reads the colour first and treats memory as not reused.
- Real disk callbacks and logging: callbacks copy bytes and either do all of it or fail without effect. The sector loops and the table take the outcome of every access as a parameter; at the cluster and content layers accesses succeed.
- The sectors of the copies of the table: the copies are an array apart from the data sectors, so their disjointness from clusters is an assumption; hashed placement is not modelled, and the formatter and the library compute it with different moduli.
- FatRuns: coherence over runs assumes disk accesses that succeed; a failed write leaves the cache ahead of the copies.
- I/O failures above the table: error branches of `write_fat`, `readoff_cluster` and `writeoff_cluster` that can only follow a failed access or a lock timeout.
- Lock timeouts: a failed acquisition is an event of the lock models and a parameter of the area table; elsewhere the locks are taken to be at hand. Counters of retries are not modelled.
- The calls that drop the new root returned by `ecache_insert` and `ecache_delete` after a change of the directory (`src/entry.c:141-143`, `src/entry.c:200`, `src/entry.c:299`): agreement of index and scan spans from indexing to the next change.
- The rewriting of each directory cluster that a walk performs, and the clearing of the checksum of an invalid entry; whether an entry is valid is a field.
- MurmurHash: any function from names to hashes; freedom from collisions is a hypothesis where it matters.
- The kind bits of index nodes, which `ecache_insert` ors into uninitialised flags.
- The journal, the error ring, truncation, editing and removing entries, deep copies, the content table, boot sectors, the command-line tools, and the read-only and `NO_*` builds.
- Negative sizes: sizes and offsets of reads and writes are natural numbers.

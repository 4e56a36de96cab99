# ParinOS: a verified model of its in-memory algorithms

ParinOS is a small 32-bit x86 kernel with an SDK C library. This project models the parts of it that are
algorithms on memory, in the form the source has them: structures whose fields are rewritten become classes,
loops over arrays stay loops over arrays, and each is proved against a specification on values. The theorems
are about those specifications, over all inputs and all runs.

- **FAT32 driver.** `FatDisk`, `FatVolume`: one write-back sector buffer in front of a mirrored allocation
  table. `FatChains`, `FatRuns`: cluster chains and the allocator. `FatFileView`, `FatFile`, `FatSession`: an
  open file as one flat sequence of bytes, over whole sessions. `FatDirectory`, `FatDirView`, `FatDir`:
  long-name records, lookup, insertion and removal through the sector buffer. `FatNames`, `FatFiles`: a
  directory as a list of entries, and files and directories created and deleted in any order.
- **Kernel heap.** `TlsfClasses`, `TlsfBlocks`, `TlsfLists`, `TlsfSteps`, `Tlsf`: the two-level segregated
  fit allocator, with its headers, free-list links, list heads and bitmaps as words of one memory.
  `TlsfCompiled`: its split with the unsigned comparison of the source.
- **SDK heap.** `SdkBlocks`, `SdkHeap`: first fit with headers inside a 64 KB pool.
- **Scheduler.** `SchedulerModel`: every call and every tick as a step of a state machine. `Scheduler`: the
  tables rewritten in place, which perform exactly those steps.
- **Memory.** `Frames`: the frame bitmap. `Paging`: page directory and page tables as one partial map.
- **Text.** `StdioText`, `Stdio`: `vsnprintf` and `vscan_core`. `Hangul`: the Korean input method and the UTF-8
  encoder and decoder. `Calendar`: dates and timestamps.
- **SDK sorting.** `SdkSort`: `qsort` with its bound on recursion, and `bsearch`.
- `Machine` holds bytes, sectors, 32-bit words and their wrap-around.

Two conventions run through the files. The logical disk is the disk with the dirty sector buffer laid over it,
that is, what every reader through the buffer sees. A `View` or `Now` function takes the state of an object as a
value, so that a method's contract can say which step of the model it performs.

Where the code does not do what one would expect, a lemma or contract states the exact condition under which it
does: `FatChains.ExhaustedIff` (FULL with a free cluster left), `FatChains.EndlessIff` (a search that does not
end), `FatDisk.TableOnDisk` (table entries without a cluster), `FatDirView.BoundaryIff` (clusters not aligned),
`FatFiles.FoundAtRootIff` (the first file of the root cannot be removed), `FatFile.SeekPastFull` (a handle after
FULL), `Paging.LimitIsSound`, `Paging.EndsBelowIff` and `Paging.GoesRound` (a search whose bound has wrapped),
`Frames.EndPageIff`, `SdkHeap.RoundUpCovers` and `TlsfClasses.RequestCovers` (sums that wrap around),
`TlsfSteps.PoolFlagsIff`, `Hangul.EncodingIsExact` and `Calendar.BackAndThere`. One such place is modelled
twice: `Tlsf` has the guard of `blk_split` as its comment states it, and `TlsfCompiled` has the unsigned
comparison as it is compiled, with the proof that `malloc` keeps the heap in order exactly if the two agree on
the block it has found.

`dafny verify dfyconfig.toml` checks everything.

## Model

| member | source | states |
|---|---|---|
| FatVolume.Fat.SyncBuf | src/fs/fat.c:236-246 | Writing the buffer back leaves the logical disk (the disk under the dirty buffer) as it was |
| FatVolume.Fat.UpdateBuf | src/fs/fat.c:249-264 | Bringing another sector into the buffer never changes the logical disk, and the buffer then shows that sector of it |
| FatVolume.Fat.Mount | src/fs/fat.c:1112-1139 | Right after mounting, which unknown hints prevent, nothing is buffered or dirty, and the hints are those of FSInfo |
| FatVolume.Fat.SyncFs | src/fs/fat.c:267-292 | Afterwards nothing is dirty; the logical disk differs only in the two FSInfo words, and only if the hints were dirty; FSInfo on the disk then agrees with the hints |
| FatVolume.Fat.GetFat | src/fs/fat.c:295-324 | Returns the low 28 bits of the entry and its kind (free, bad, last, link, broken) without changing the logical disk |
| FatVolume.Fat.PutFat | src/fs/fat.c:345-355 | One call stores an entry in both copies of the table, whatever the buffer held; PutEntryEffect says what that means |
| FatDisk.PutEntryEffect | src/fs/fat.c:327-355 | The table as a list of 28-bit entries changes at one index, the copies stay mirrored, every upper nibble and every sector outside the copies is preserved |
| FatDisk.WithInfoEffect | src/fs/fat.c:267-292 | Storing the hints leaves the table and the mirror alone, and FSInfo then holds exactly last_used and free_cnt |
| FatDisk.ClusterSector | src/fs/fat.c:224-233 | Clust_to_sect stays within the disk, and sect_to_clust of any sector of the cluster leads back to it |
| FatDisk.ClusterOnDisk | src/fs/fat.c:230-233 | A cluster lies on a disk of n sectors exactly if its number is below the count the data area has room for |
| FatDisk.TableOnDisk | src/fs/fat.c:1104 | Every entry of the table stands for a cluster on the disk exactly if the table, rounded up to whole sectors, is not longer than the data area |
| FatVolume.Fat.ClustClear | src/fs/fat.c:460-480 | Every sector of the cluster is zero afterwards, no other sector of the logical disk has changed |
| FatChains.ChainDistinct | src/fs/fat.c:358-451 | A chain that reaches an end mark has no cycle: its clusters are pairwise different |
| FatChains.ChainIsUnique | src/fs/fat.c:295-324 | The start cluster determines the whole chain |
| FatVolume.Fat.FindFree | src/fs/fat.c:389-434 | On any table and from any last_used: the free neighbour of prev, else the first free entry behind last_used, wrapping; stops at a malformed neighbour or a malformed entry in front of that, is FULL if back at last_used, and never ends exactly as EndlessIff says |
| FatVolume.Fat.StretchChain | src/fs/fat.c:389-451 | On any table its result is that of the search, and without success nothing has changed; with success one free cluster is end-marked and linked behind prev, nothing is dirty, and FSInfo on the disk agrees with last_used and free_cnt; on a table in order FULL exactly when exhausted |
| FatChains.WellFormedSearch | src/fs/fat.c:389-434 | On well-formed entries with last_used a data cluster, the search fails exactly when exhausted, and otherwise takes the free neighbour or the free cluster nearest behind last_used |
| FatChains.EndlessIff | src/fs/fat.c:415-431 | The search never ends exactly if last_used is no data cluster and every entry it looks at is well formed and in use |
| FatChains.FullVolume | src/fs/fat.c:415-431 | On a full volume the answer is FULL if last_used is a data cluster, and none at all if it lies beyond the table |
| FatChains.ExhaustedIff | src/fs/fat.c:415-425 | FULL means exactly: no free cluster at all, or last_used is the only one and is not the neighbour of prev (the scan never looks at last_used) |
| FatChains.FullWithAFreeCluster | src/fs/fat.c:415-425 | A full table of 128 entries, the smallest a volume can have, but for one free cluster at last_used: FULL is reported |
| FatChains.RoomIff | src/fs/fat.c:389-451 | A file can grow by n clusters, one after the other, exactly when n are free and the first can be found at all |
| FatVolume.Fat.RemoveChain | src/fs/fat.c:358-386 | On any table, well formed or not, the loop ends; its effect is that of FreeOnDisk, the free count grows by the entries it cleared, and success leaves nothing dirty and FSInfo up to date |
| FatChains.FreeOnDiskEffect | src/fs/fat.c:358-386 | Freeing one put_fat at a time on the disk is the walk FreeWalk over the table, and keeps data area and mirror |
| FatChains.FreeWalkCounts | src/fs/fat.c:358-386 | Each pass turns exactly one used entry into a free one, also when the walk ends in an error |
| FatChains.FreeWalkOfChain | src/fs/fat.c:358-386 | On a chain the walk frees exactly that chain and reports success |
| FatChains.FreeWalkSucceedsIff | src/fs/fat.c:358-386 | Remove_chain succeeds exactly if its argument starts a chain |
| FatChains.StretchKeepsSound | src/fs/fat.c:389-451 | After stretching, all chains are still acyclic, pairwise disjoint, end-marked, and account for every used cluster |
| FatChains.CreateKeepsSound | src/fs/fat.c:454-457 | The same after starting a new chain, which clashes with no chain there was |
| FatChains.RemoveKeepsSound | src/fs/fat.c:358-386 | The same after removing a chain; the other chains are untouched |
| FatRuns.Perform | src/fs/fat.c:358-457 | The mounted volume performs exactly the steps of the run model: create, append, remove |
| FatRuns.RunKeepsVolumeOk | src/fs/fat.c:358-457 | Over every run of creations, appends and removals the chains stay sound, the copies mirrored, and free_cnt equals the number of zero entries |
| FatRuns.RemovalKeepsVolumeOk | src/fs/fat.c:358-386 | Removing a chain zeroes exactly its entries, adds its length to free_cnt, and FSInfo on the disk says so |
| FatRuns.RemovalSucceeds | src/fs/fat.c:358-386 | On a volume in order, removing a whole chain never meets a malformed entry |
| FatFileView.SeekSector | src/fs/fat.c:1405-1484 | The sector the seek computes from cluster and offset is the one that holds that byte of the chain |
| FatFileView.SeekSectorIff | src/fs/fat.c:1466 | Computed from any cluster, it is the right one exactly if the cluster is the one of the offset |
| FatFileView.SectorPut | src/fs/fat.c:1359-1393 | Overwriting one sector of a file overwrites exactly its 512 bytes in the flat sequence |
| FatFileView.PutWithinSector | src/fs/fat.c:1359-1393 | Storing a run of bytes in the sector of the cursor overwrites just those bytes of the flat sequence |
| FatFileView.ExtendedBytes | src/fs/fat.c:1405-1484 | Growing the chain leaves all bytes of the file where they were |
| FatFileView.OtherFileKept | src/fs/fat.c:1323-1484 | Whatever reads, writes and seeks do to one file, any other chain survives, stays disjoint, and keeps its bytes |
| FatFile.File.Walk | src/fs/fat.c:1443-1467 | Walking k clusters ends on the k-th cluster further along, appending exactly those that were missing; FULL exactly if there was no room for them |
| FatFile.File.Seek | src/fs/fat.c:1405-1484 | EOF exactly outside 0 to 2^32 - 1, FULL exactly without room; otherwise the cursor, its cluster and its buffered sector stand on the target, and no byte of the file has changed |
| FatFile.File.Read | src/fs/fat.c:1323-1352 | Delivers exactly the bytes between the cursor and size, at most len; fails only when the chain cannot be extended behind the last byte |
| FatFile.File.Write | src/fs/fat.c:1359-1393 | Changes only its own range of bytes, sets size to the larger of size and cursor, and gets its cursor to the end exactly if there was room; err is Ok even if there was not |
| FatFile.File.Open | src/fs/fat.c:1292-1308 | A handle on a chain starts in order, sees the logical disk, and has size 0 if truncated |
| FatFile.File.ValidAtEnd | src/fs/fat.c:1405-1467 | A handle whose cluster has been left at the end of its chain is in order exactly if its offset lies in the last cluster |
| FatFile.SeekPastFull | src/fs/fat.c:1405-1484 | After a seek that ran out of clusters, a seek by 0 takes the right sector exactly if the offset lies in the last cluster; from offset 0 of a chain of two or more it takes a wrong one |
| FatFile.File.Sync | src/fs/fat.c:1490-1529 | The bytes of the file are on the disk itself, no longer only in a buffer, and its directory entry is stamped there as the flags say, the rest of that sector unchanged |
| FatFile.StampedKeeps | src/fs/fat.c:1507-1521 | The size of a written file reads back from its entry; name, creation stamps, first cluster and all attributes but the archive flag are not touched |
| FatFile.WriteThenRead | src/fs/fat.c:1323-1484 | A write that got its cursor to the end is read back byte for byte |
| FatSession.Do | src/fs/fat.c:1323-1484 | One seek, read or write acts as a step on a flat byte sequence with size and cursor, and succeeds exactly when it is permitted and the clusters it needs can be had |
| FatSession.Session | src/fs/fat.c:1323-1484 | Any sequence of operations is a run of the flat file up to the first that cannot be done; nothing outside the file's clusters changes |
| FatSession.BytesAreLastWritten | src/fs/fat.c:1323-1484 | Over a run, every byte has the value written to it last, or its first value if none was |
| FatSession.ReadsAreLastWritten | src/fs/fat.c:1323-1484 | Over a run, every byte a read delivers is the one written last before it |
| FatSession.SizeIsFurthestEnd | src/fs/fat.c:1359-1393 | Over a run, size never shrinks and is the start size or the end of the write that reached furthest |
| FatDirectory.FragRoundTrip | src/fs/fat.c:650-670 | The characters of a fragment read back from its record, zero terminator and 0xff fill included |
| FatDirectory.NewEntryIsGroup | src/fs/fat.c:650-720 | A freshly written name of 1 to 255 characters is a well-formed group of fragments, and reads back exactly |
| FatDirectory.ParseFragsOfGroup | src/fs/fat.c:673-720 | Parsing a group fills the name buffer with its name, whatever it held before |
| FatDirectory.SearchIsLookup | src/fs/fat.c:723-775 | On a well-formed directory dir_search is the lookup of the first entry with that name, independent of the name buffer |
| FatDirectory.LookupGrown | src/fs/fat.c:545-558 | Records that mark the end, added behind a directory, change no lookup |
| FatDirectory.RunIff | src/fs/fat.c:896-923 | A run of records is usable for dir_add exactly if no record in use before the end mark lies in it |
| FatDirectory.AddedLookup | src/fs/fat.c:883-995 | Adding an absent name: it is found where it was put, every other lookup is unchanged, the directory stays well formed |
| FatDirectory.ClearedLookup | src/fs/fat.c:852-880 | Removing: a lookup that found the entry now goes on behind it, every other lookup is unchanged |
| FatDirectory.AddThenClear | src/fs/fat.c:852-995 | Adding a name and removing it again restores every lookup |
| FatDirectory.SfnSlotFacts | src/fs/fat.c:978-992 | The short entry written for a name carries its short name, and its cluster number reads back |
| FatDirView.PutRecord | src/fs/fat.c:502-564 | Writing 32 bytes at the cursor through its sector replaces exactly one record of the directory |
| FatDirView.StandsNext | src/fs/fat.c:502-530 | The cursor after dir_next stands on the next record, across sectors and clusters, given a data area aligned to whole clusters |
| FatDirView.BoundaryIff | src/fs/fat.c:509-513 | Looking at the absolute number of the next sector finds the end of every cluster exactly if the data area starts at a multiple of the cluster size |
| FatDirView.StretchedDirectory | src/fs/fat.c:545-558 | A directory extended by a cleared cluster has the same records in front and end marks behind |
| FatDirView.OthersKept | src/fs/fat.c:852-995 | Changing a directory leaves the chains and bytes of all other files alone |
| FatDir.Dir.DirNext | src/fs/fat.c:502-530 | Moves to the next record, or reports EOF exactly at the end of the chain |
| FatDir.Dir.DirNextStretch | src/fs/fat.c:545-558 | Like dir_next, but extends the directory by a cleared cluster at its end; FULL exactly if there is none to be had |
| FatDir.Dir.ParseLfnName | src/fs/fat.c:673-720 | The method on the sector buffer computes ParseName on the records |
| FatDir.Dir.DirSearch | src/fs/fat.c:723-775 | The method on the sector buffer computes Search on the records; the cursor ends on the short entry and the location is that of the first record |
| FatDir.Dir.FindRun | src/fs/fat.c:896-923 | Finds the first usable run, growing the directory only if there is none in it; FULL only if no usable run with a record behind it exists and no cluster is left |
| FatDir.Dir.DirAdd | src/fs/fat.c:883-995 | The records become those with the entry added in the first usable run (see AddedLookup), other files untouched; PARAM exactly for a length outside 1 to 255 |
| FatDir.Dir.RemoveEntries | src/fs/fat.c:852-880 | Exactly the records from the given location to the cursor are marked unused |
| FatDir.Dir.AddFindRemove | src/fs/fat.c:723-995 | On a mounted volume: an added name is found with its cluster, is gone after removal, and in the end every lookup is as at the start |
| FatNames.LookupIsFirst | src/fs/fat.c:723-775 | Any well-formed directory is a list of entries, with long names or short ones only; a lookup finds the first that matches, at its own record |
| FatNames.EntriesAdded | src/fs/fat.c:883-995 | Dir_add puts one entry into that list and leaves the others as they are, in order |
| FatNames.EntriesCleared | src/fs/fat.c:852-880 | Remove_entries takes exactly the entry that the lookup has found out of the list |
| FatNames.GoneIff | src/fs/fat.c:723-880 | After a removal the name is gone exactly if no entry behind it matches the name too |
| FatNames.LastChangeDecides | src/fs/fat.c:723-995 | Over any run that starts without ambiguous names, a name is found exactly if the last change about it put it there, or none was and it was there at the start |
| FatNames.NewIsEmpty | src/fs/fat.c:1562-1583 | The records of a directory as it is made are well formed, and no name is found among them: a short name never begins with a dot |
| FatFiles.Find | src/fs/fat.c:723-775 | The search succeeds exactly for the names in the directory, and brings the first matching entry into the buffer |
| FatFiles.FindOrCreate | src/fs/fat.c:1260-1290 | Opening by name gives the first cluster of the entry; creating gives a file a new chain of its own; a failure leaves the entries as they were |
| FatFiles.MakeDirectory | src/fs/fat.c:1534-1591 | A new directory has the records for itself and its parent and end marks behind them, a chain of its own and an entry that leads to it; everything is written back; an existing name is left alone |
| FatFiles.Unlink | src/fs/fat.c:1191-1248 | EOF for an absent name, and for a subdirectory whose chain ends before an end mark without a used record behind the first two; DENIED if the short record found is the first of the root, for RO, SYS, LABEL, and for a directory with such a used record; otherwise exactly the entry and its chain are gone, free_cnt has grown by its length and nothing is dirty |
| FatFiles.FoundAtRootIff | src/fs/fat.c:778-783 | The guard on the first record of the root refuses a name exactly if the directory is the root and the entry found is its first and has a short record only |
| FatFiles.RootIsApart | src/fs/fat.c:778-783 | On a tree in order no other directory contains the first cluster of the root, so the guard sees the root alone |
| FatFiles.FirstFileIsRefused | src/fs/fat.c:1199-1200 | An entry with a short record only, at the head of the root, is found and cannot be unlinked |
| FatFiles.EmptyIff | src/fs/fat.c:1208-1234 | A directory passes for empty exactly if only unused records stand between its first two and an end mark |
| FatFiles.NewIsDeletable | src/fs/fat.c:1208-1234 | A directory just made passes |
| FatFiles.TreeAdded | src/fs/fat.c:1275-1290 | After a creation every file and subdirectory still has a chain of its own |
| FatFiles.TreeDeleted | src/fs/fat.c:1236-1247 | After a deletion every file and subdirectory left still has a chain of its own, and no used cluster is lost |
| FatFiles.Serve | src/fs/fat.c:1191-1591 | Each request, whatever its outcome, is one change of the list of entries and keeps the tree in order |
| FatFiles.Perform | src/fs/fat.c:1191-1591 | Over any sequence of creations and deletions of files and directories, entries, first clusters and chains stay in step, and the entries are a run to which LastChangeDecides applies |
| TlsfClasses.ClassAtLeast | src/std/tlsf_allocator.cpp:24-29 | The floor map against its meaning: class(s) >= class(t) exactly if s reaches the floor of t's class |
| TlsfClasses.FloorMonotone | src/std/tlsf_allocator.cpp:24-29 | Larger blocks never go to lower classes |
| TlsfClasses.ClassInTable | src/std/tlsf_allocator.cpp:24-29 | Exactly the blocks below 2^25 bytes fit the 21 by 16 table, and the two indices are the digits of the class number |
| TlsfClasses.SearchSizeIsGoodFit | src/std/tlsf_allocator.cpp:31-38 | Rounding a request up to its class width covers it and costs less than a sixteenth |
| TlsfClasses.SearchIff | src/std/tlsf_allocator.cpp:31-38 | The classes searched are exactly those whose blocks reach the rounded request |
| TlsfClasses.SearchInTable | src/std/tlsf_allocator.cpp:200-214 | A request of up to 2^24 bytes is searched for within the table |
| TlsfClasses.RequestCovers | src/std/tlsf_allocator.cpp:202-206 | Aligning a request covers it exactly when the 32-bit sum does not wrap |
| TlsfBlocks.PoolIsTiled | src/std/tlsf_allocator.cpp:153-179 | In every reachable state each word of a pool belongs to exactly one block between its sentinels |
| TlsfBlocks.LiveDisjoint | src/std/tlsf_allocator.cpp:200-265 | Live payloads never overlap |
| TlsfBlocks.AllFreeIsOneBlock | src/std/tlsf_allocator.cpp:231-244 | A pool with nothing live is one free block again: full coalescing |
| TlsfBlocks.AllocKeepsOk | src/std/tlsf_allocator.cpp:107-122 | Splitting and marking used keeps prev_phys, PREV_FREE and the tiling right, with no two free neighbours |
| TlsfBlocks.AllocLive | src/std/tlsf_allocator.cpp:200-229 | Allocation adds one live payload, large enough, and keeps all others in place |
| TlsfBlocks.FreedKeepsOk | src/std/tlsf_allocator.cpp:231-244 | Freeing and merging both ways keeps the layout right and leaves no two free neighbours |
| TlsfBlocks.FreedLive | src/std/tlsf_allocator.cpp:231-244 | Freeing removes just one live payload; merging moves, creates and destroys none |
| TlsfBlocks.WithPoolKeepsOk | src/std/tlsf_allocator.cpp:153-179 | A new pool apart from the others keeps the layout right and changes no live payload |
| TlsfLists.InsertedRepresents | src/std/tlsf_allocator.cpp:44-56 | Fl_insert: each free block is in exactly the list of its class, links agree both ways, a bit is set exactly if its list is not empty |
| TlsfLists.RemovedRepresents | src/std/tlsf_allocator.cpp:58-74 | The same for fl_remove, wherever in its list the block stands |
| TlsfSteps.FoundFits | src/std/tlsf_allocator.cpp:76-89 | The bitmap search finds a free block that covers the request, of the lowest class that does, and nullptr exactly if none reaches it |
| TlsfSteps.PoolFlagsIff | src/std/tlsf_allocator.cpp:169-172 | Or-ing the flag into the unrounded length gives the header of a free block exactly if bit 1 of the length is clear |
| TlsfCompiled.GuardIff | src/std/tlsf_allocator.cpp:107-110 | The unsigned comparison in blk_split agrees with its comment exactly when the block has room for a second header |
| TlsfCompiled.GuardWraps | src/std/tlsf_allocator.cpp:107-110 | A heap and a request on which the unsigned comparison asks for a split that is not there |
| TlsfCompiled.BlkSplit | src/std/tlsf_allocator.cpp:107-122 | As compiled: cuts the block as it should exactly with that room; without it no layout with that block in it is spelled by the memory any more |
| TlsfCompiled.TailHasNoList | src/std/tlsf_allocator.cpp:24-29 | The size that such a tail claims is outside the table of lists |
| TlsfCompiled.Malloc | src/std/tlsf_allocator.cpp:200-229 | As compiled: the heap stays in order, with all that Malloc promises, exactly if the first block of the first list found non-empty has room for a second header behind the request; if not, no layout with that block is left |
| TlsfCompiled.FoundDecides | src/std/tlsf_allocator.cpp:176-229 | List heads and request alone tell before the call which block the search takes, and so whether it has that room |
| TlsfCompiled.Realloc | src/std/tlsf_allocator.cpp:246-265 | As compiled: in place, or moved with its contents, with all that Realloc promises, exactly if the allocation it makes finds a block with that room |
| TlsfSteps.MoveKeeps | src/std/tlsf_allocator.cpp:246-265 | Over the three stages of a realloc the contents reach the new place and no other payload changes |
| Tlsf.Allocator.constructor | src/std/tlsf_allocator.cpp:181-198 | Init establishes the invariant, with the first pool as one free block or no pool at all |
| Tlsf.Allocator.AddPool | src/std/tlsf_allocator.cpp:153-179 | A region of at least 40 bytes becomes a pool of one free block between two sentinels; a smaller one is ignored |
| Tlsf.Allocator.FlInsert | src/std/tlsf_allocator.cpp:44-56 | On the real words, heads and bitmaps: the block is filed at the front of its list, no live payload is touched |
| Tlsf.Allocator.FlRemove | src/std/tlsf_allocator.cpp:58-74 | On the real words: the block leaves its list, all others stay filed |
| Tlsf.Allocator.FindFreeBlock | src/std/tlsf_allocator.cpp:76-89 | Returns the head of the first non-empty list from the class on, nullptr exactly if all are empty |
| Tlsf.Allocator.BlkSplit | src/std/tlsf_allocator.cpp:107-122 | Cuts the block to size exactly when the rest can form a block, with the neighbour told so |
| Tlsf.Allocator.MergeNext | src/std/tlsf_allocator.cpp:125-134 | Joins with the next block exactly if that is free, whose list it leaves |
| Tlsf.Allocator.MergePrev | src/std/tlsf_allocator.cpp:137-147 | Joins with the previous block exactly if PREV_FREE is set, and returns the block it is now part of |
| Tlsf.Allocator.Malloc | src/std/tlsf_allocator.cpp:200-229 | Nullptr exactly if nothing is asked for, the request is above 2^24 bytes or no free block reaches its class; else a good fit is taken; no live payload changes |
| Tlsf.Allocator.Free | src/std/tlsf_allocator.cpp:231-244 | The payload is given back and coalesced; every other live payload keeps its words |
| Tlsf.Allocator.Realloc | src/std/tlsf_allocator.cpp:246-265 | In place if it fits, else moved with its contents; failure leaves blocks and payloads as they were; no other payload changes |
| SdkHeap.RoundUpCovers | sdk/lib/stdlib.c:43 | The rounding loses the request exactly when the 32-bit sum wraps |
| SdkHeap.ReallocWraps | sdk/lib/stdlib.c:96-108 | Every request that wraps asks for 0 bytes, and there is a heap on which the copy then runs past the block found |
| SdkBlocks.LiveDisjoint | sdk/lib/stdlib.c:38-64 | Live payloads never overlap |
| SdkBlocks.TakenLive | sdk/lib/stdlib.c:38-64 | Allocation adds one live payload, at least as large as asked for, and keeps all others |
| SdkBlocks.TakenKeepsInvariant | sdk/lib/stdlib.c:38-64 | Splitting keeps the pool tiled and creates no two free neighbours |
| SdkBlocks.MergeKeepsInvariant | sdk/lib/stdlib.c:71-85 | The coalescing pass keeps the pool tiled and leaves no two free neighbours, whatever list it starts from |
| SdkBlocks.MergeKeepsLive | sdk/lib/stdlib.c:71-85 | Coalescing neither moves, creates nor destroys a live payload |
| SdkBlocks.ReleasedLive | sdk/lib/stdlib.c:66-86 | Freeing removes just the one payload |
| SdkBlocks.TakeThenRelease | sdk/lib/stdlib.c:38-86 | Malloc followed at once by free restores the same list of blocks |
| SdkBlocks.FreeAllRestores | sdk/lib/stdlib.c:66-86 | Freeing every live block, in any order, leaves the single initial free block |
| SdkHeap.TakenTiles | sdk/lib/stdlib.c:50-60 | The header words written by a split spell out the new list of blocks and touch no live payload |
| SdkHeap.JoinTiles | sdk/lib/stdlib.c:77-83 | The one word written by a join spells out the joined list and touches no live payload |
| SdkHeap.Heap.constructor | sdk/lib/stdlib.c:20-36 | Before the first call the heap is one free block of 65528 bytes |
| SdkHeap.Heap.Malloc | sdk/lib/stdlib.c:38-64 | The lowest free block that fits is taken; NULL exactly if the size is 0 or no free block fits; no live payload changes |
| SdkHeap.Heap.Free | sdk/lib/stdlib.c:66-86 | The walk over the headers in the pool refines the coalescing pass on the list; no live payload changes |
| SdkHeap.Heap.Realloc | sdk/lib/stdlib.c:96-108 | For any 32-bit size: in place if it fits, else moved with its contents; failure leaves everything as it was; no other payload changes; the copy runs past the new block exactly if the size wraps and what the first free block keeps of itself is smaller than the old payload |
| SdkSort.InsertionSort | sdk/lib/stdlib.c:163-173 | The short stretch is sorted and permuted within itself |
| SdkSort.PlacePivot | sdk/lib/stdlib.c:174-181 | The median of three stands last but one, between the elements at the two ends |
| SdkSort.Partition | sdk/lib/stdlib.c:183-190 | All scans stay in bounds, and the pivot ends with nothing greater before it and nothing smaller behind it |
| SdkSort.QsortR | sdk/lib/stdlib.c:160-202 | Sorts the stretch, and its recursion depth is at most the logarithm of its length, as only the smaller part recurses |
| SdkSort.Qsort | sdk/lib/stdlib.c:204-208 | A sorted permutation for every total preorder, with depth at most log2(n) |
| SdkSort.Bsearch | sdk/lib/stdlib.c:212-224 | Returns a matching element, and NULL exactly if there is none |
| SdkSort.SortedIsOrderedFor | sdk/lib/stdlib.c:160-224 | What qsort leaves behind is what bsearch with the same comparator needs, whatever the key |
| SdkSort.SortThenSearch | sdk/lib/stdlib.c:160-224 | Sorting and then searching succeeds exactly if the original array held a match |
| SchedulerModel.NextKeepsOk | src/kernel/multitasking.c:190-575 | Every call and every tick keeps the invariant: one runner at most, zombies without stacks, one owner for each stack in use, no sleeper overdue |
| SchedulerModel.RoomInPool | src/kernel/multitasking.c:252-258 | The cleanup pool is never full when a thread with a stack exits, so the pool-full branches lose no stack |
| SchedulerModel.FreesAreSafe | src/kernel/multitasking.c:437-464 | Whatever is freed was in use, leaves use, and is never the stack of the interrupted thread or of any thread that still owns one |
| SchedulerModel.RoundReclaims | src/kernel/multitasking.c:437-464 | A scheduling round reclaims stack and slot of every pooled zombie but the interrupted thread |
| SchedulerModel.NoZombieRuns | src/kernel/multitasking.c:516-547 | A zombie is never switched to |
| SchedulerModel.StacksAreConserved | src/kernel/multitasking.c:190-575 | Over every run: stacks obtained equal stacks freed plus stacks still owned, each by one thread or pool entry |
| SchedulerModel.StepTowards | src/kernel/multitasking.c:516-547 | A round runs a ready thread or moves the current slot nearer to it in the circle |
| SchedulerModel.ReadyThreadRuns | src/kernel/multitasking.c:473-575 | Bounded waiting: a thread that stays ready runs within ten ticks for each place between it and the current one |
| SchedulerModel.ReadyThreadRunsSoon | src/kernel/multitasking.c:473-575 | Hence within 310 ticks, wherever it stands |
| SchedulerModel.SleepersWakeOnTime | src/kernel/multitasking.c:501-507 | No sleeper wakes before its deadline, and none sleeps a full interval beyond it |
| SchedulerModel.ContextKept | src/kernel/multitasking.c:473-575 | Over every run in which a thread is not chosen, its saved stack pointer stays |
| SchedulerModel.ContextRoundTrip | src/kernel/multitasking.c:473-575 | A thread that was switched out resumes with the stack pointer it was interrupted with |
| Scheduler.Tables.constructor | src/kernel/multitasking.c:152-185 | The initial tables are in order |
| Scheduler.Tables.CreateThread | src/kernel/multitasking.c:190-238 | Fails exactly without an entry, a free slot or memory; otherwise a ready thread owns the new stack |
| Scheduler.Tables.ThreadExit | src/kernel/multitasking.c:243-265 | Performs the exit step of the model on the tables |
| Scheduler.Tables.ThreadSleep | src/kernel/multitasking.c:270-282 | Performs the sleep step; 0 ms changes nothing |
| Scheduler.Tables.ProcessExit | src/kernel/multitasking.c:362-396 | Performs the process exit for any thread list, stale or with repetitions |
| Scheduler.Tables.CleanupDeadThreads | src/kernel/multitasking.c:437-464 | The compaction in place frees each pooled stack once, keeps at most the skipped entry, and resets the slots |
| Scheduler.Tables.FindNext | src/kernel/multitasking.c:516-526 | Finds the next runnable slot in circular order, or none after a full circle |
| Scheduler.Tables.SchedulerTick | src/kernel/multitasking.c:473-575 | Performs the tick step of the model, and returns the stack pointer of the thread that runs next |
| Frames.Pmm.BitmapSet | src/mem/pmm.c:21-27 | Sets one bit and keeps used_pages equal to the number of set bits below total_pages |
| Frames.Pmm.BitmapUnset | src/mem/pmm.c:29-35 | Clears one bit and keeps the count equal |
| Frames.Pmm.AllocPage | src/mem/pmm.c:130-142 | The lowest free page, NULL exactly if all are in use |
| Frames.Pmm.AllocPages | src/mem/pmm.c:152-177 | The lowest run of count free pages, NULL exactly if count is 0 or there is no such run; exactly its bits are set |
| Frames.Pmm.FreePages | src/mem/pmm.c:179-188 | Clears exactly the bits of the run that lie within the memory |
| Frames.Pmm.ReserveRegion | src/mem/pmm.c:118-124 | Exactly the pages from the first one up to the 32-bit end page are reserved; without wrap-around these include every page the region touches |
| Frames.EndPageIff | src/mem/pmm.c:118-124 | The pages reserved are those the region touches exactly if the 32-bit sum does not wrap |
| Frames.Pmm.TakeAndGiveBack | src/mem/pmm.c:152-188 | Freeing the run just allocated restores bitmap and count, byte for byte |
| Frames.UsedByRun | src/mem/pmm.c:152-177 | Taking a run of n free pages adds exactly n pages to those in use |
| Paging.EntryStored | src/mem/vmm.c:246-353 | Writing one table entry changes the partial map of the whole space at one page |
| Paging.TableAdded | src/mem/vmm.c:246-277 | A fresh table in a frame of its own changes nothing in the map |
| Paging.Vmm.AllocPageTable | src/mem/vmm.c:213-240 | A cleared table below 16 MB; 0 exactly if no such frame is free, and then the frame it got has been given back |
| Paging.Vmm.MapPage | src/mem/vmm.c:246-299 | Each result exactly in its case; success adds one page to the map, failure changes neither map nor frames |
| Paging.Vmm.UnmapPage | src/mem/vmm.c:316-353 | Removes one page from the map; NOT_MAPPED exactly if it was not there |
| Paging.Vmm.GetPhysicalAddress | src/mem/vmm.c:362-385 | Agrees with the map: frame and offset, 0 exactly if the page is not mapped |
| Paging.Vmm.IsMappedAt | src/mem/vmm.c:190-207 | Agrees with the map |
| Paging.Vmm.MapPages | src/mem/vmm.c:301-314 | Succeeds exactly if addresses are aligned, the pages are free and different, and a frame below 16 MB is free for each missing table; else the map is exactly as before and the error tells which |
| Paging.Vmm.AllocVirtualPages | src/mem/vmm.c:410-444 | Succeeds exactly if the pages are free and the frames suffice, counting one for each page and a low one for each missing table in the order they are taken; else the map is as before and every data frame is back, only page tables may remain |
| Paging.ExtendedMeans | src/mem/vmm.c:301-314 | After a successful run of pages, page i is mapped to entry i |
| Paging.ExtendedKeeps | src/mem/vmm.c:301-314 | And every page outside the run is as before |
| Paging.ExtendedAndBack | src/mem/vmm.c:304-310 | Unmapping the pages of a run again gives exactly the old map |
| Paging.Vmm.FindFreeVirtualAddress | src/mem/vmm.c:391-408 | The lowest gap of count pages between start and end, 0 if there is none; with a bound that has wrapped, the first free run from start on round the address space, or 0 at a page beyond the bound; the search never ends exactly if no run is free anywhere and start and every page behind a mapped one are within the bound |
| Paging.EndsBelowIff | src/mem/vmm.c:391-408 | A result other than 0 begins count free pages, and they end below end exactly if count pages fit below end at all |
| Paging.OneOutcome | src/mem/vmm.c:391-408 | The outcome of the search is determined by map, start, bound and count |
| Paging.GoesOn | src/mem/vmm.c:395-403 | Where the search goes round, each window is blocked and the next page to try is within the bound again |
| Paging.OnePageGoesRound | src/mem/vmm.c:395-403 | Asked for all 4 GB below a high enough end, the search never ends if one page is mapped |
| Paging.LimitIsSound | src/mem/vmm.c:395 | The bound of that search keeps the gap below end exactly if count pages fit below end; otherwise the subtraction wraps |
| Stdio.Vsnprintf | sdk/lib/stdio.c:182-358 | For every buffer size the output is the prefix of the unbounded rendering that fits, terminated; nothing behind it changes; each n stores what StoreMeasures says |
| Stdio.PieceByPiece | sdk/lib/stdio.c:182-358 | A format in two parts is rendered part by part, the second with the arguments the first has left |
| Stdio.StoreMeasures | sdk/lib/stdio.c:345-348 | A conversion n stores, where its argument points, the length of the rendering in front of it as far as it fits in the buffer |
| Stdio.StoreDigits | sdk/lib/stdio.c:247-248 | The digits stored last first, turned round, are the number, and the temporary array is large enough for any 32-bit value |
| Stdio.ReadDirective | sdk/lib/stdio.c:193-215 | Flags, width, precision and length modifier are parsed as ParseDirective reads them |
| StdioText.DirectiveParsed | sdk/lib/stdio.c:193-215 | A directive written with any flags and width is parsed as what it was written for, whatever follows |
| StdioText.DigitsReadBack | sdk/lib/stdio.c:506-517 | The digits of any 32-bit word, read back modulo 2^32 in the same base, are the word |
| StdioText.ItemRead | sdk/lib/stdio.c:473-533 | Sign or base prefix, zeros and digits of one printed field read back as its value, with i for prefixed fields |
| StdioText.RenderIsFields | sdk/lib/stdio.c:182-358 | The format of a list of integers renders as its padded fields separated by blanks |
| StdioText.FieldsScanned | sdk/lib/stdio.c:433-590 | Scanning such fields with the matching letters gives all values, in order |
| StdioText.RoundTrip | sdk/lib/stdio.c:182-590 | Printf and scanf: every list of 32-bit integers with any widths and flags comes back |
| Stdio.Source.SkipWs | sdk/lib/stdio.c:422-430 | Skips exactly the blanks in front, through getc and ungetc |
| Stdio.Source.Integer | sdk/lib/stdio.c:473-533 | Reads sign, prefix and digits within the width, and leaves everything behind them in the source |
| Stdio.Source.VscanCore | sdk/lib/stdio.c:433-590 | The values stored, the number returned and the input left over are those of the scan on whole texts |
| Stdio.PrintThenScan | sdk/lib/stdio.c:182-590 | The two routines one after the other, on a real buffer, return the list that was printed |
| Hangul.HandOver | src/hal/hangul_ime.c:237-252 | A final handed over to the next syllable turns back into the initial it was typed with |
| Hangul.Ime.Input | src/hal/hangul_ime.c:176-262 | One key performs the composition step; keys without a letter complete the syllable; with Korean input off nothing happens |
| Hangul.Ime.Flush | src/hal/hangul_ime.c:169-174 | Gives the waiting code point and forgets it |
| Hangul.TypingRoundTrip | src/hal/hangul_ime.c:163-262 | For every text of typable syllables, its keys in order and a flush give its code points, each once |
| Hangul.TypeText | src/hal/hangul_ime.c:163-262 | The same through the input method itself |
| Hangul.UnicodeToUtf8 | src/hal/hangul_ime.c:267-292 | Writes the encoding of any 32-bit value and a terminator |
| Hangul.Decoder.PutByte | src/hal/vga.c:214-233 | One byte performs the decoder step: a lead, a continuation, a completed code point or a question mark |
| Hangul.DecodeOne | src/hal/vga.c:214-233 | Below 2^21 the decoder gives back what was encoded, and is ready for the next character |
| Hangul.DecodeText | src/hal/vga.c:214-233 | The same for whole texts |
| Hangul.EncodingIsExact | src/hal/hangul_ime.c:267-292 | The round trip of one value holds exactly below 2^21 |
| Hangul.KeysToScreen | src/hal/hangul_ime.c:163-292 | What is typed, encoded and decoded is what was meant |
| Calendar.TimestampsDiffer | src/kernel.c:84-96 | No two dates have the same timestamp |
| Calendar.YearsUpTo | src/kernel.c:84-96 | The years summed up by the loop, in closed form by the rule for leap years |
| Calendar.DateToUnix | src/kernel.c:84-96 | The number of seconds since 1970, modulo 2^32 |
| Calendar.UnixToDate | src/kernel.c:98-125 | A valid date with exactly that timestamp; the fallback behind the month loop is never reached |
| Calendar.UnixToUtc | src/net/sntp.c:50-77 | The same for the time client, whose month counts from 0 in its loop |
| Calendar.ThereAndBack | src/kernel.c:84-125 | Every 32-bit timestamp survives the way to a date and back, and both routines give the same date |
| Calendar.BackAndThere | src/kernel.c:84-125 | A valid date survives the way to a timestamp and back exactly if its timestamp fits in 32 bits |
| Calendar.EndOfTime | src/kernel.c:84-96 | The last second that fits is 2106-02-07 06:28:15 |

## Left out

Assumed throughout the FAT32 part: disk reads and writes succeed; the areas of the volume are laid out as
`FatDisk.Layout` says, with sector numbers below 2^32; the cluster size is a power of two sectors, so that the
shifts and masks of the source are the products and remainders used here; entries are well formed and last_used is a data
cluster where files and directories grow (the allocator itself takes any table); every entry of the table has a cluster on the disk; the data area starts at a multiple of the cluster size where directories are walked,
since `dir_next` looks at the absolute sector number; a file has one handle, and its clusters are not those of a directory.

- FatVolume.Fat.StretchChain: where the scan meets a malformed entry the source returns the flags of the entry it looked at before (src/fs/fat.c:427); the model has `ErrFlags` for all of these values. `NoReturn` stands for the call that does not come back.
- FatDir.Dir.DirNext: the data area starts at a multiple of the cluster size, as do `FatDirView.StandsNext` and all that walks directories; `FatDirView.BoundaryIff` says what the test decides elsewhere.
- FatFile.File.Write: the source hides the outcome of the last seek behind an inner variable (src/fs/fat.c:1384); the model returns Ok as the code does, and gives the hidden outcome as a ghost result only.
- FatFile.File.Sync: takes date and time as parameters, and the place of the directory entry as given when the file was opened; nothing is claimed if the entry stands in a sector of the file itself.
- FatFile.File.Open: takes first cluster and size as parameters instead of reading them from the entry the search has found; a missing volume is not an error path.
- FatDir.Dir.ParseLfnName: the comparison with 0xff at src/fs/fat.c:698 is between a signed char and 255 and never true on i386, so the model has no such branch; characters 1 to 255 are all allowed.
- FatDir.Dir.DirAdd: date and time are parameters; the zero length that the source rejects together with negative ones is the only such length here.
- FatFiles.FindOrCreate: one directory at a time, without path parsing and without truncation; a cluster that a failed creation leaves behind stays allocated, as in the source.
- FatFiles.MakeDirectory: the source ends by moving its cursor into the new directory, which here stays an object to be entered.
- FatFiles.Create: which of the two allocations failed is not told apart.
- FatNames.LastChangeDecides: starts from a directory in which no name is found at two entries; what removing one of several leaves is `FatNames.GoneIff`.
- Probing, the fields of the boot sector, path parsing, stat, directory listing, the time stamp formats, and what a crash or a failed disk operation leaves behind.
- Tlsf.Allocator.BlkSplit: the guard is the one its comment states; `TlsfCompiled.BlkSplit`, `TlsfCompiled.Malloc` and `TlsfCompiled.Realloc` have the unsigned comparison of the source, up to the split that goes wrong.
- TlsfCompiled.Malloc: where the split has gone wrong the model ends, and so does `TlsfCompiled.Realloc`; the source goes on to file the tail in a list that does not exist.
- Tlsf.Allocator.AddPool: bit 1 of the length is clear (`TlsfSteps.PoolFlagsIff`), the main block is below 2^25 bytes (`TlsfClasses.ClassInTable`), and pools lie apart from each other and from null_blk.
- Tlsf.Allocator.Malloc: addresses are counted in words of one memory, and a bitmap word is the set of its bits; which of several blocks of one class is taken is stated by `TlsfCompiled.Malloc` only.
- Tlsf.Allocator.FlRemove: the order in which the other blocks of the list remain is not part of the contract.
- SdkHeap.Heap.Realloc: where the copy would run past the block found, which `SdkHeap.Overruns` decides, the model ends before it; what lies there is overwritten by the source.
- SdkHeap.Heap.Free: the pointer is NULL or a live payload; what the source does with any other pointer is undefined.
- calloc, the numeric conversions of the same file, and the kernel's own kmalloc, whose grow-and-retry makes no promise.
- SdkSort.Qsort: elements are values of one type, so the byte-wise exchange of two elements is one assignment; sizes and addresses do not wrap.
- kqsort of the kernel: it drops stretches when its stack is full, so that sorting is not its property.
- SchedulerModel.NextKeepsOk: processes, names, address spaces, floating-point state and the contents of stacks are left out; what kmalloc returns and the thread list of a process are parameters of the step; tick does not wrap.
- SchedulerModel.ReadyThreadRuns: the thread must not be killed while it waits; time is counted in ticks.
- FatVolume.Fat.FindFree: every entry is taken to have a cluster on the disk, which `FatDisk.TableOnDisk` says is not so on a volume whose table has spare entries.
- Frames.Pmm.AllocPage: page 0 is in use from the start, as its address stands for NULL; reading the memory map at boot is left out.
- Paging.Vmm.MapPage: flags fit in the low 12 bits; page tables are reached directly below 16 MB and not at all above, where the temporary mapping slots would be needed.
- Paging.Vmm.FindFreeVirtualAddress: counts the pages it passes, so that a search that never ends can be left after one round; the source has no such counter.
- TLB, statistics counters, cloning and switching of directories, page faults, and the mapping set up at boot.
- Stdio.Vsnprintf: a directive cut off by the end of the format is excluded, as the source then reads behind it; what n stores is a list beside the buffer, as if its pointers led elsewhere; arguments of the wrong kind or missing count as 0 or "(null)"; field widths are unbounded numbers, while the source adds up their digits in an int that overflows.
- Stdio.Source.VscanCore: the string source only, since a FILE source depends on the file system calls; field widths are unbounded numbers here too.
- StdioText.RoundTrip: fields of up to 2^31 - 3 characters, the largest width the scanner can count.
- Hangul.TypingRoundTrip: syllables whose vowel has its own key and whose final comes from one key; compound vowels and finals cannot be typed.
- Hangul.Ime.Input: the code points given for single letters are the approximations of the source, and nothing further is claimed about them.
- Hangul.Decoder.PutByte: drawing the character is left out.
- Calendar.DateToUnix: dates before 1970 or out of range are excluded.
- Device drivers, interrupts, boot code, the network stack, fonts, floating point, shells and user programs.

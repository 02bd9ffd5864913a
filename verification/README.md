# Spore kernel: a verified model

This project models the parts of the Spore kernel where correctness depends on several functions
agreeing about shared mutable state, and proves what those functions promise together. Kernel
mutations run under one big lock, so each operation is one atomic step of the model. Every statement
is checked by the Dafny verifier for all inputs.

Modules, by subsystem:

- **Copy-on-write memory.** `Words` and `Pmm` are the bitmap and reference-count page allocator;
  `PageTables`, `Views`, `Cloning` and `VmmSteps` are the four-level tables, which live in the
  memory they map, as values with one invariant (tables form a forest, a user-writable leaf is its
  page's only reference, every count is the number of references); `Vmm` has the operations;
  `CowRuns` is the transition system over whole runs. A view is a partial map from page to bytes
  and rights. Descriptor fields follow section D8.3 of the Arm Architecture Reference Manual
  (DDI 0487).
- **Virtual memory areas.** `Vma`: an unordered slot table that refines a partial map from address
  to attributes.
- **Processes.** `Process`: areas, tables and page-cache pages together, on faults, at fork and when
  areas come and go.
- **Pipes.** `Pipes`: rings, ends, blocked threads and the guarded wake pass.
- **ext2.** `BlockCache` (write-back cache over a device), `Ext2Disk` and `Ext2Volume` (bitmaps,
  descriptors, allocation), `Ext2Tree` and `Ext2State` (the direct/single/double/triple block
  tree), `Ext2Bytes`, `Ext2Truncate` and `Ext2Files` (reading, writing, truncating), `Ext2Stored`
  (what a failed call leaves, seen through the inode as it is stored), `Ext2Runs` (whole runs),
  `Dirents` and `Ext2Dirs` (directory records).
- **VFS page cache.** `PageCache`: hash chains over an evicting table; `Residency`: which pages such
  a table keeps.
- **ramfs.** `RamfsSlots`, `Ramfs` and `RamfsRuns`: the slot free list, page chains, and files as
  byte sequences.
- **Network.** `Net`: IPv4, TCP and UDP construction, receipt and checksums.
- **Shared.** `Bytes`, `Arith` and `Chains`.

Conventions: device calls, memory and user mappings may fail at any point; a `reliable` constant
says that in this instance they do not, and contracts state what then cannot happen. Ghost
parameters such as `base`, `n` or `firsts` only name part of the state for the proof.

Where the code does less than one might expect, the model follows the code and the contracts say so:

- `Ext2Dirs.AddDirent`: the size of a directory is a 32-bit field that the append does not check. The
  block that would make it 4 GiB sets the size to 0, and the directory then lists nothing. This
  happens exactly when no record has room and the directory has one block less than 4 GiB;
  `Ext2Dirs.WrapsAtFourGiB` shows that the block tree reaches that far.
- `Ramfs.FailedThenGrown`: a write that runs out of pages half way has changed pages past the size, and
  growing the file later reads them. It reads zeros exactly if those bytes are zeros. How far the
  write got follows from the pages the file lacks and the room of the store (`Ramfs.Fs.Write`);
  `Ramfs.FailThenGrow` is one such run.
- `PageCache.PageTable.Read`: a page just loaded can be pushed out by its own read-ahead, and the
  read is then short. `Residency.PushedOutExactly` says when, from the table before the call;
  `PageCache.FillThenRead` is one such run of reads, at the smallest capacity; reading again from
  there delivers.
- `Net.UdpRoundTrip`: a datagram to port 0 can be built and is dropped by the receiver.
- `Ext2Files.FileSystem.ReadFile`: a read that touches an index in the triple range is refused, rather
  than reading a hole, exactly while the file has no triple tree (`Ext2Files.RefusedExactly`). That
  range begins at byte 67383296 with 1024-byte blocks and at byte 537944064 with 2048-byte blocks;
  with 4096-byte blocks no 32-bit size reaches it.
- `Ext2Files.FileSystem.Truncate`: the blocks are given back before the inode is stored. If storing it
  fails, the stored inode still points at them, and every caller in the VFS has only that inode. The
  files are then sound exactly if no block had been given back (`Ext2Stored.StaleExactly`);
  `Ext2Stored.TruncationCanHarm` is one file that is not, and `Ext2Stored.StaleShares` says what it
  reads once another file gets the block.
- `Ext2Files.FileSystem.WriteFile`: a write that fails never stores the inode, so what it put under slots
  the inode did not have is out of reach, though its blocks stay in use; under the other slots the
  bytes written so far are in the file. Past them a device failure can leave a block in place of a hole
  that was neither cleared nor written. `Ext2Stored.NeitherOldNorNew` says exactly which bytes then
  are neither old nor new.
- `Process.Process.AddArea`: the tables ignore address bits from 48 up, and no check keeps an area below
  2^48. A page fault in a higher area would map the page at the address 2^48 below
  (`Process.HighAliases`), so areas are required to end below it.

## Model

| member | source | states |
|---|---|---|
| `Pmm.FindLowest` | kernel/src/mm/pmm.c:61-85 | the word scan with both edge masks yields the lowest free page of the range, and 0 exactly when the range has none |
| `Pmm.FindRun` | kernel/src/mm/pmm.c:200-226 | the run scan yields the lowest start of `count` free pages from 1 MiB up, and 0 exactly when there is no such run |
| `Pmm.WordScan` | kernel/src/mm/pmm.c:67-79 | one masked word stands for exactly the free pages of the range that fall in it; its lowest bit is the lowest of them |
| `Pmm.SetUsedBit` | kernel/src/mm/pmm.c:39-48 | setting one bit removes exactly that page from the set of free pages |
| `Pmm.ClearUsedBit` | kernel/src/mm/pmm.c:50-59 | clearing one bit adds exactly that page to the set of free pages |
| `Pmm.RunBroken` | kernel/src/mm/pmm.c:207-215 | a used page rules out every run that would cover it, so restarting the count after it misses none |
| `Pmm.UsedSound` | kernel/src/mm/pmm.c:39-48 | marking a page keeps the free count equal to the clear bits and keeps referenced pages out of the free set |
| `Pmm.FreeSound` | kernel/src/mm/pmm.c:50-59 | freeing a page keeps the free count equal to the clear bits |
| `Pmm.Allocator.constructor` | kernel/src/mm/pmm.c:115-178 | before usable ranges are freed, nothing is free and nothing is referenced |
| `Pmm.Allocator.SetUsed` | kernel/src/mm/pmm.c:39-48 | new free set and counts; out-of-range pages change nothing |
| `Pmm.Allocator.SetFree` | kernel/src/mm/pmm.c:50-59 | new free set and counts; out-of-range pages change nothing |
| `Pmm.Allocator.AllocInRange` | kernel/src/mm/pmm.c:61-85 | takes the lowest free page of the range with one reference and moves the hint past it, or changes nothing because the range has none |
| `Pmm.Allocator.AllocPage` | kernel/src/mm/pmm.c:180-192 | fails exactly when no page from 1 MiB up is free, wherever the hint points; otherwise takes the lowest at or after the hint, wrapping to the lowest of all |
| `Pmm.Allocator.TakeRun` | kernel/src/mm/pmm.c:216-218 | the marking loop takes exactly the run, one reference each |
| `Pmm.Allocator.AllocContiguous` | kernel/src/mm/pmm.c:200-226 | first fit and complete: fails exactly when no run exists, takes the lowest run, moves the hint behind it |
| `Pmm.Allocator.FreePage` | kernel/src/mm/pmm.c:233-245 | drops one reference; the page becomes free exactly when it was the last, and the hint never passes it |
| `Pmm.Allocator.SharePage` | kernel/src/mm/pmm.c:247-256 | adds a reference exactly to a referenced page whose count is not saturated |
| `PageTables.DescendLeads` | kernel/src/mm/vmm.c:248-260 | every table a walk reaches is owned at its level by that path of that address space |
| `PageTables.PathUnique` | kernel/src/mm/vmm.c:62-73 | no table lies on two paths, of one address space or of two |
| `PageTables.WritableIsSole` | kernel/src/mm/vmm.c:129-155 | a user-writable leaf is the only descriptor of its page, and nobody outside the tables holds the page |
| `PageTables.FreshUnused` | kernel/src/mm/vmm.c:62-73 | an unreferenced page is no table, no leaf's target and held by nobody |
| `PageTables.AttachKeepsInv` | kernel/src/mm/vmm.c:62-73 | hanging a new table into an empty slot keeps tree shape, sole writers and exact counts |
| `PageTables.NewRootKeepsInv` | kernel/src/mm/vmm.c:50-60 | a new empty root keeps them |
| `PageTables.InstallKeepsInv` | kernel/src/mm/vmm.c:75-109 | writing a leaf keeps them when the writable leaf's page has no other reference |
| `PageTables.ClearKeepsInv` | kernel/src/mm/vmm.c:319-328 | removing a leaf and dropping its reference keeps them |
| `PageTables.ReuseKeepsInv` | kernel/src/mm/vmm.c:262-286 | making the last reference writable in place keeps them |
| `PageTables.CopyKeepsInv` | kernel/src/mm/vmm.c:262-286 | switching a shared leaf to a private copy keeps them |
| `PageTables.CloneLeafKeepsInv` | kernel/src/mm/vmm.c:129-155 | duplicating a leaf, write-protected on both sides and counted once more, keeps them |
| `PageTables.MoveKeepsInv` | kernel/src/mm/vmm.c:297-317 | carrying a leaf to an empty slot keeps them |
| `PageTables.StoreKeepsInv` | kernel/src/mm/vmm.c:369-402 | storing into an ordinary page keeps them |
| `PageTables.DetachRootKeepsInv` | kernel/src/mm/vmm.c:212-217 | letting a root go keeps them |
| `PageTables.PassTableKeepsInv` | kernel/src/mm/vmm.c:197-210 | each table entry destroy passes keeps them |
| `PageTables.PassLeafKeepsInv` | kernel/src/mm/vmm.c:197-210 | each leaf destroy passes, with its reference dropped, keeps them |
| `PageTables.DropTableKeepsInv` | kernel/src/mm/vmm.c:197-210 | freeing a table whose entries have all been passed keeps them |
| `Views.LeafChangeIsLocal` | kernel/src/mm/vmm.c:75-91 | writing one leaf changes the translation of exactly one page of exactly one address space |
| `Views.AttachTranslates` | kernel/src/mm/vmm.c:62-73 | a new intermediate table changes no translation |
| `Views.NewRootTranslates` | kernel/src/mm/vmm.c:50-60 | a new address space maps nothing and changes no translation |
| `Views.ReuseViews` | kernel/src/mm/vmm.c:262-286 | a fault on the last reference changes no view of any address space |
| `Views.CopyViews` | kernel/src/mm/vmm.c:262-286 | a fault that copies changes no view of any address space |
| `Views.StoreViews` | kernel/src/mm/vmm.c:369-402 | a store through a writable leaf is seen by its own address space only |
| `Views.OneWriter` | kernel/src/mm/vmm.c:219-246 | a page reached through a writable leaf is reached by no other translation |
| `Cloning.LeafStep` | kernel/src/mm/vmm.c:129-155 | one leaf of the clone loop: earlier entries and every other table look as before, the new entry leads where the source's did |
| `Cloning.TableStep` | kernel/src/mm/vmm.c:129-155 | one subtree of the clone loop, given the recursive call's result |
| `Cloning.CloneViews` | kernel/src/mm/vmm.c:157-173 | whatever the clone got to, no existing view changed; once complete, the child's view is the parent's, page for page |
| `VmmSteps.SamePage` | kernel/src/mm/vmm.c:25-27 | two 48-bit addresses have the same four indices exactly when they lie in the same page |
| `VmmSteps.ReadLeaf` | kernel/src/mm/vmm.c:248-260 | the level-by-level read finds the leaf table of the abstract walk, or none exactly when nothing is mapped |
| `VmmSteps.PhysMeans` | kernel/src/mm/vmm.c:231-246 | the checked walk answers exactly where the translation allows the access, with that page and offset |
| `VmmSteps.MoveMoves` | kernel/src/mm/vmm.c:297-317 | moving a leaf transfers exactly one page: the target shows what the source showed, the source nothing, all else as before |
| `VmmSteps.StoreChunk` | kernel/src/mm/vmm.c:386-400 | one copy into a writable page changes exactly those bytes of that address space |
| `VmmSteps.RefsExact` | kernel/src/mm/vmm.c:129-155 | each page's count is the leaf descriptors, table descriptors, roots and outside owners that point at it |
| `VmmSteps.InUseIsReferenced` | kernel/src/mm/vmm.c:75-91 | no mapped page is unreferenced |
| `VmmSteps.NothingLeft` | kernel/src/mm/vmm.c:212-217 | with every address space destroyed no table is left and every count is what outside owners hold |
| `Vmm.AddressSpaces.EnsureTable` | kernel/src/mm/vmm.c:62-73 | returns the table below an entry; succeed or fail, no translation changes; fails only out of pages |
| `Vmm.AddressSpaces.EnsureLeafTable` | kernel/src/mm/vmm.c:75-84 | the three levels together |
| `Vmm.AddressSpaces.MapLeaf` | kernel/src/mm/vmm.c:75-109 | exactly one page of one address space is remapped; reference accounting of the page mapped and of a page displaced |
| `Vmm.AddressSpaces.MapPage` | kernel/src/mm/vmm.c:75-91 | the same for an ordinary leaf; failure changes no translation |
| `Vmm.AddressSpaces.MapPageCow` | kernel/src/mm/vmm.c:93-109 | the same for a copy-on-write leaf |
| `Vmm.AddressSpaces.AllocPage` | kernel/src/mm/vmm.c:111-114 | exactly this page reads as zeros afterwards, or nothing observable changed and no page is free; pages held outside the tables stay as they were |
| `Vmm.AddressSpaces.MapFilled` | kernel/src/proc/memory.c:218-244 | a page filled with given bytes is mapped with the rights asked for, or nothing observable changed and the page is free again |
| `Vmm.AddressSpaces.MapHeld` | kernel/src/proc/memory.c:204-214 | a page held by the page cache is mapped read-only, for copying on the first write if asked, with a reference of its own; or nothing changed and the reference is given back |
| `Vmm.AddressSpaces.CopyAndSwitch` | kernel/src/mm/vmm.c:274-283 | break-before-make: contents copied, descriptor switched, old reference dropped |
| `Vmm.AddressSpaces.HandleCowFault` | kernel/src/mm/vmm.c:262-286 | succeeds exactly on a copy-on-write page that is the last reference or when a page is free; makes it writable; no view of any address space changes, and no page held outside the tables |
| `Vmm.AddressSpaces.UnmapPage` | kernel/src/mm/vmm.c:319-328 | one page gone from one address space, nothing else |
| `Vmm.AddressSpaces.UnmapRange` | kernel/src/mm/vmm.c:319-328 | exactly the pages the loop visits are gone from this address space, for every range on which the loop ends |
| `Vmm.AddressSpaces.MovePage` | kernel/src/mm/vmm.c:297-317 | transfers exactly one page, or changes no translation because the target is mapped or no table can be had |
| `Vmm.AddressSpaces.CloneLeafEntry` | kernel/src/mm/vmm.c:138-147 | the leaf case of the loop; false only when the count is saturated |
| `Vmm.AddressSpaces.CloneTable` | kernel/src/mm/vmm.c:129-155 | on success the copy leads everywhere the source leads; always, everything that existed looks the same |
| `Vmm.AddressSpaces.CloneCow` | kernel/src/mm/vmm.c:157-173 | fork: the child observes the parent's view, nobody else observes anything; fails only out of pages or with a saturated count |
| `Vmm.AddressSpaces.DestroyTable` | kernel/src/mm/vmm.c:197-210 | frees the table and everything below it, once |
| `Vmm.AddressSpaces.Destroy` | kernel/src/mm/vmm.c:212-217 | the address space is gone, no page of memory changed |
| `Vmm.AddressSpaces.RangeAccessible` | kernel/src/mm/vmm.c:355-367 | true exactly when every page the range touches allows the access and the range does not wrap |
| `Vmm.AddressSpaces.PrepareWrite` | kernel/src/mm/vmm.c:374-382 | the first pass makes every page writable or stops at one that cannot be, and no view changes either way |
| `Vmm.AddressSpaces.CopyToUser` | kernel/src/mm/vmm.c:369-402 | false only before any user byte is written, with the reason; true when exactly `[dst, dst+len)` of this address space is the source |
| `Vmm.AddressSpaces.CopyFromUser` | kernel/src/mm/vmm.c:404-424 | succeeds exactly when every page is mapped, and returns exactly the bytes the address space holds |
| `Vmm.FreeMemoryRestored` | kernel/src/mm/vmm.c:212-217 | once every address space is destroyed the free pages are exactly the managed pages no outside owner holds |
| `Vmm.InUseIsNotFree` | kernel/src/mm/vmm.c:75-91 | no mapped page and no table page is ever free |
| `CowRuns.SpaceStepViews` | kernel/src/mm/vmm.c:93-173 | the views after each kind of step on a private range |
| `CowRuns.QuietIsInvisible` | kernel/src/mm/vmm.c:262-286 | faults, table growth and outside references change no view |
| `CowRuns.TeardownViews` | kernel/src/mm/vmm.c:197-217 | every step of a destruction changes only the destroyed space's view |
| `CowRuns.RunRefinesPrivate` | kernel/src/mm/vmm.c:93-328 | over every run, each page of each address space shows what it would show if memories were never shared |
| `CowRuns.Isolation` | kernel/src/mm/vmm.c:93-328 | over every run, an address space no step was addressed to observes no change |
| `Vma.CompatibleIsSameAttr` | kernel/src/mm/vma.c:22-28 | compatible means equal attributes |
| `Vma.MergeKeepsMap` | kernel/src/mm/vma.c:131-149 | merging two slots keeps the address map and disjointness and consumes one used slot |
| `Vma.MergeKeepsSaturated` | kernel/src/mm/vma.c:131-149 | a slot that could be joined with nothing stays so when others merge, which is why slot 0 need not be rechecked |
| `Vma.AcrossOnce` | kernel/src/mm/vma.c:230-266 | disjoint areas do not straddle the same address, so one removal splits at most one area |
| `Vma.FirstDecides` | kernel/src/mm/vma.c:316-330 | only the first candidate area decides whether the stack can grow |
| `Vma.Vfs.Retain` | kernel/src/mm/vma.c:90-103 | the notes an area keeps on its file node are added |
| `Vma.Vfs.Release` | kernel/src/mm/vma.c:105-114 | and taken back |
| `Vma.VmaList.MergeAdjacent` | kernel/src/mm/vma.c:131-149 | terminates, keeps the address map, leaves no two used areas adjacent and compatible, and balances file-node notes |
| `Vma.VmaList.MergeInto` | kernel/src/mm/vma.c:135-147 | the inner loop: everything joinable with slot `i` is joined, earlier slots stay finished |
| `Vma.VmaList.AllocSlot` | kernel/src/mm/vma.c:80-88 | an unused slot, growing by a chunk; fails only with every slot taken or no memory |
| `Vma.VmaList.AddRaw` | kernel/src/mm/vma.c:90-129 | one more area with its notes, or nothing changed, and why |
| `Vma.VmaList.Clear` | kernel/src/mm/vma.c:155-164 | every note is given back |
| `Vma.VmaList.OverlapsAny` | kernel/src/mm/vma.c:187-194 | true exactly when some address of the range is mapped, or the range is empty |
| `Vma.VmaList.Lookup` | kernel/src/mm/vma.c:170-176 | the area of an address, or none exactly when the address is unmapped |
| `Vma.VmaList.LookupRange` | kernel/src/mm/vma.c:178-185 | one area that contains the range, or none exactly when no area does |
| `Vma.VmaList.Insert` | kernel/src/mm/vma.c:196-203 | adds exactly `[start, end)`, or leaves the list as it was because of an overlap, an empty range or no slot |
| `Vma.VmaList.InsertFile` | kernel/src/mm/vma.c:205-228 | the same for a file area; only regular nodes |
| `Vma.VmaList.InsertArea` | kernel/src/mm/vma.c:196-228 | what the two share |
| `Vma.VmaList.Append` | kernel/src/mm/vma.c:116-129 | adds a piece to the list being rebuilt, or gives back everything that list held |
| `Vma.VmaList.Remove` | kernel/src/mm/vma.c:230-266 | restricts the map to outside `[start, end)`, or changes nothing; with memory, fails only for an empty range or a full table |
| `Vma.VmaList.Adopt` | kernel/src/mm/vma.c:262-264 | the rebuilt list, merged, replaces this one and every note balances |
| `Vma.VmaList.AppendProtected` | kernel/src/mm/vma.c:283-308 | the up to three pieces of an overlapping area, with the protection changed inside |
| `Vma.VmaList.Protect` | kernel/src/mm/vma.c:268-314 | changes the protection inside `[start, end)` and nothing else, or changes nothing; with memory, fails only for an empty range or within one slot of a full table |
| `Vma.VmaList.GrowDown` | kernel/src/mm/vma.c:316-330 | succeeds exactly when the first candidate area is near enough and the gap free, and then extends that one area over the gap |
| `Vma.VmaList.CloneInto` | kernel/src/mm/vma.c:332-343 | the copy has the same map; with memory it never fails; on failure the copy is empty and all notes are given back |
| `Process.Process.TranslationFault` | kernel/src/proc/memory.c:298-320 | a page is mapped only where an area, or a stack grown down to it, allows the access, and shows the file's bytes or zeros with exactly the area's write and execute rights; no other process sees a difference |
| `Process.Process.EnsureRange` | kernel/src/proc/memory.c:256-288 | true only if every page of the range then allows the access; in any case pages were only added, every one within an area and its rights, and every page already mapped shows what it showed |
| `Process.Process.EnsurePage` | kernel/src/proc/memory.c:266-284 | the same for one page, and nothing changes where the access was possible already |
| `Process.Process.FaultFile` | kernel/src/proc/memory.c:194-245 | the page shows the file's bytes, zero outside the part the area maps, whether the cache's page is mapped itself or copied |
| `Process.Process.FaultZero` | kernel/src/mm/vmm.c:111-114 | the page shows zeros with the area's rights |
| `Process.Process.AreaFor` | kernel/src/proc/memory.c:305-306 | the area of the page, after growing a stack down to it if need be; no address loses its area |
| `Process.Process.Fork` | kernel/src/proc/memory.c:76-100 | the child has the same areas and sees the same pages, all within those areas and their rights; no existing process notices, whether it succeeds or not |
| `Process.Process.CowFault` | kernel/src/proc/memory.c:290-296 | nothing any process sees changes |
| `Process.Process.RemoveArea` | kernel/src/proc/memory.c:396-405 | exactly the pages and addresses of the range go, or only the pages if the areas cannot be cut: either way no page is left without an area |
| `Process.Process.AddArea` | kernel/src/proc/memory.c:342-346 | the range gets the area, every other address keeps its own |
| `Process.Process.AddFileArea` | kernel/src/proc/memory.c:372-376 | the same for a file area |
| `Process.CopyFile` | kernel/src/proc/memory.c:220-239 | the chunked copy from cached pages is the page of the file |
| `Process.WholePageBytes` | kernel/src/proc/memory.c:203-207 | a cached page mapped itself shows what a copy would |
| `Process.ConfinedMap` | kernel/src/proc/memory.c:256-288 | mapping one page of an area with no more than its rights keeps every page within its area |
| `Process.CutConfined` | kernel/src/proc/memory.c:396-405 | so does unmapping a range before its areas are cut |
| `Process.ConfinedElsewhere` | kernel/src/proc/memory.c:256-288 | what one process does keeps every other within its areas |
| `Process.HighAliases` | kernel/src/mm/vmm.c:75-93 | the tables do not tell an address from the one 2^48 above it |
| `Pipes.WriteChunk` | kernel/src/proc/pipe.c:269-280 | one chunk that ends at the ring's end or a page boundary appends exactly its bytes |
| `Pipes.ReadChunk` | kernel/src/proc/pipe.c:295-306 | one chunk removes exactly the oldest bytes |
| `Pipes.Push` | kernel/src/proc/pipe.c:269-280 | the copy loop of a write appends the source to the ring's contents |
| `Pipes.Pull` | kernel/src/proc/pipe.c:295-306 | the copy loop of a read takes the oldest bytes off |
| `Pipes.QuietIsOneSided` | kernel/src/proc/pipe.c:221-252 | when no blocked thread could progress, no pipe has both blocked readers and blocked writers |
| `Pipes.StaysStuck` | kernel/src/proc/pipe.c:221-252 | a thread passed over stays stuck while the pass serves others, so one pass is enough although nested notifications are ignored |
| `Pipes.AnswerStays` | kernel/src/proc/pipe.c:221-252 | an answer given during a pass stays truthful whatever the rest of the pass moves |
| `Pipes.ReadsArePrefixOfWrites` | kernel/src/proc/pipe.c:259-313 | the reads concatenated are a prefix of the writes concatenated; the difference is what the pipe holds |
| `Pipes.PipeTable.Write` | kernel/src/proc/pipe.c:259-287 | -EAGAIN exactly when the request must wait; as much as fits otherwise; at most PIPE_BUF bytes all or nothing; afterwards nobody could progress |
| `Pipes.PipeTable.Deposit` | kernel/src/proc/pipe.c:269-286 | the admitted write and its wake pass |
| `Pipes.PipeTable.Read` | kernel/src/proc/pipe.c:289-313 | -EAGAIN exactly when the request must wait; 0 exactly at end of file; otherwise the oldest bytes, as many as asked for and there |
| `Pipes.PipeTable.Withdraw` | kernel/src/proc/pipe.c:295-311 | the read that found bytes and its wake pass |
| `Pipes.PipeTable.Notify` | kernel/src/proc/pipe.c:254-257 | a notification inside a pass does nothing; outside one it leaves nobody who could progress |
| `Pipes.PipeTable.Retry` | kernel/src/proc/pipe.c:234-246 | a blocked request tried again: answered truthfully, or still waiting and nothing moved |
| `Pipes.PipeTable.WakeWaiters` | kernel/src/proc/pipe.c:221-252 | one pass answers blocked threads truthfully and leaves none that could progress |
| `Pipes.PipeTable.SysWrite` | kernel/src/proc/io.c:225-229 | a blocking write is answered at once or sleeps on a request that must wait; no lost wakeup |
| `Pipes.PipeTable.SysRead` | kernel/src/proc/io.c:292-296 | a blocking read likewise |
| `Pipes.PipeTable.Resume` | kernel/src/proc/thread.c:276-288 | a thread that leaves its wait disturbs no other |
| `Pipes.PipeTable.Create` | kernel/src/proc/pipe.c:83-95 | a new empty pipe in the first unused slot, everything else as before |
| `Pipes.PipeTable.Open` | kernel/src/proc/fd.c:312-320 | one more end, then a pass; nobody left who could progress |
| `Pipes.PipeTable.Close` | kernel/src/proc/pipe.c:191-201 | one end fewer, the pipe destroyed with its last end, then a pass |
| `Pipes.PipeTable.CloseStream` | kernel/src/proc/fd.c:90-95 | a stream socket drops one end of each of two pipes, then a pass |
| `Pipes.PipeTable.DropEnd` | kernel/src/proc/pipe.c:133-145 | the table and histories after one end is dropped |
| `BlockCache.WriteBackKeepsView` | kernel/src/ext2.c:162-172 | writing a dirty block back does not change the disk represented |
| `BlockCache.FillKeepsView` | kernel/src/ext2.c:260-277 | bringing a block in over a clean slot does not change it |
| `BlockCache.StoreWritesView` | kernel/src/ext2.c:279-294 | a cached write is a write to the disk represented |
| `BlockCache.DirectWritesView` | kernel/src/ext2.c:296-306 | so is a write past the cache that refreshes the cached copy |
| `BlockCache.CleanIsDevice` | kernel/src/ext2.c:252-258 | with no dirty copy the device holds what the disk represents |
| `BlockCache.Cache.Find` | kernel/src/ext2.c:223-228 | the slot of a block, or none exactly when it is not cached |
| `BlockCache.Cache.FlushEntry` | kernel/src/ext2.c:162-172 | the slot is clean afterwards, the represented disk unchanged; failure changes no device block |
| `BlockCache.Cache.Victim` | kernel/src/ext2.c:230-242 | a free slot or the oldest, written back; no block becomes cached by it |
| `BlockCache.Cache.ReadBlock` | kernel/src/ext2.c:260-277 | the block of the disk represented: the latest cached or direct write, through any eviction |
| `BlockCache.Cache.WriteBlock` | kernel/src/ext2.c:279-294 | the disk with that block replaced, or unchanged on failure |
| `BlockCache.Cache.WriteDirect` | kernel/src/ext2.c:296-306 | the disk with the run replaced, or unchanged on failure |
| `BlockCache.Cache.UpdateClean` | kernel/src/ext2.c:244-250 | the cached copy, if there is one, becomes the written block |
| `BlockCache.Cache.RangeHasDirty` | kernel/src/ext2.c:252-258 | true exactly when some block of the range is cached dirty |
| `BlockCache.Cache.ReadDirect` | kernel/src/ext2.c:783-801 | a multi-block device read is taken only when no block of the run is dirty, and then equals the disk represented; on a sound device always then |
| `BlockCache.Cache.Flush` | kernel/src/ext2.c:174-180 | on success this file system's device equals the disk represented |
| `BlockCache.Cache.Drop` | kernel/src/ext2.c:182-205 | on success nothing of this file system stays cached and nothing is lost; other file systems never notice |
| `Ext2Disk.BitChangedUsed` | kernel/src/ext2.c:858-859 | writing one bitmap bit changes whether that block is in use and no other, across groups |
| `Ext2Disk.TakenCounts` | kernel/src/ext2.c:858-861 | allocation marks exactly one block and keeps every group's free count equal to its clear bits |
| `Ext2Disk.ReleasedCounts` | kernel/src/ext2.c:895-900 | release clears exactly one bit and keeps every group's count exact |
| `Ext2Disk.MetaDecides` | kernel/src/ext2.c:359-369 | what the metadata says depends on metadata blocks alone |
| `Ext2Volume.AllGroupsFull` | kernel/src/ext2.c:838-879 | a scan that met only groups that offer nothing met no free block at all |
| `Ext2Volume.WholeGroupScanned` | kernel/src/ext2.c:853-857 | the wrapped bit scan of a group misses no bit |
| `Ext2Volume.AllocatedOk` | kernel/src/ext2.c:838-879 | one block in use that was not, never metadata; only it and metadata are touched, and it holds zeros or, uncleared, what it held; counts stay exact |
| `Ext2Volume.Volume.ReadBlock` | kernel/src/ext2.c:260-277 | the volume's block |
| `Ext2Volume.Volume.WriteBlock` | kernel/src/ext2.c:279-294 | the volume with one block replaced; other volumes on the cache keep theirs |
| `Ext2Volume.Volume.WriteRun` | kernel/src/ext2.c:296-306 | the volume with a run replaced |
| `Ext2Volume.Volume.ReadRun` | kernel/src/ext2.c:795-796 | a run as the volume holds it; succeeds on a sound device when no block of it is dirty |
| `Ext2Volume.Volume.ReadGroup` | kernel/src/ext2.c:359-363 | bitmap block and free count of a group |
| `Ext2Volume.Volume.WriteFree` | kernel/src/ext2.c:365-369 | one group's free count changes, nothing else |
| `Ext2Volume.Volume.FindBit` | kernel/src/ext2.c:853-857 | a free block of the group, or none exactly when the group has none |
| `Ext2Volume.Volume.AllocBlock` | kernel/src/ext2.c:838-879 | a free block goes into use and nothing else changes; -ENOSPC only when no block of the volume is free; what a device failure may leave |
| `Ext2Volume.Volume.Claim` | kernel/src/ext2.c:858-875 | bitmap, descriptor, block and hint of a successful search |
| `Ext2Volume.Volume.Mark` | kernel/src/ext2.c:858-861 | bitmap and descriptor alone |
| `Ext2Volume.Volume.FreeBlockAt` | kernel/src/ext2.c:885-907 | a block in use goes out of use, anything else is refused |
| `Ext2Volume.Volume.Unmark` | kernel/src/ext2.c:897-900 | the bitmap and descriptor writes of a release |
| `Ext2Tree.OnePlace` | kernel/src/ext2.c:582-652 | no block is at two places of one file or of two |
| `Ext2Tree.NewIsFresh` | kernel/src/ext2.c:838-879 | a free block is in no file's tree and is not metadata |
| `Ext2Tree.AddKeepsTree` | kernel/src/ext2.c:1060-1157 | hanging a fresh block at an empty place fills that place; every other place of every file, and all data, is as before |
| `Ext2Tree.KeptTree` | kernel/src/ext2.c:279-306 | writing data moves no file's block |
| `Ext2Tree.LocateIndex` | kernel/src/ext2.c:582-652 | the direct, single, double and triple place of a file block determines the index; all are data places |
| `Ext2Tree.LocateInjective` | kernel/src/ext2.c:582-652 | distinct file blocks have distinct places |
| `Ext2State.OthersStay` | kernel/src/ext2.c:1060-1157 | adding at one file block leaves every other file block of every file where it was |
| `Ext2State.AddExtends` | kernel/src/ext2.c:1060-1157 | one level of `file_block_for_write`: only places on the way were filled, with blocks that were free |
| `Ext2State.LeakExtends` | kernel/src/ext2.c:838-879 | a block taken but never hung is noticed by no file |
| `Ext2Bytes.MapInjective` | kernel/src/ext2.c:582-652 | a data block belongs to one index of one file |
| `Ext2Bytes.StoreBytes` | kernel/src/ext2.c:279-294 | storing a data block changes the bytes of that one block of that one file |
| `Ext2Bytes.RunBytes` | kernel/src/ext2.c:296-306 | a run written past the cache is those file blocks stored one by one |
| `Ext2Bytes.WroteChunk` | kernel/src/ext2.c:1209-1218 | the cached path: exactly the piece changes |
| `Ext2Bytes.WroteRun` | kernel/src/ext2.c:1188-1208 | the direct path: exactly the run changes, though blocks it adds are not zeroed first |
| `Ext2Bytes.RunContents` | kernel/src/ext2.c:783-801 | what the direct read fetches is the file's bytes there |
| `Ext2Bytes.ReadBack` | kernel/src/ext2.c:765-813 | reading a written range gives what was written |
| `Ext2Bytes.ReadElsewhere` | kernel/src/ext2.c:1177-1226 | reading anywhere else, in any file, gives what was there |
| `Ext2Files.FileSystem.Lookup` | kernel/src/ext2.c:594-603 | one level of the walk; a hole stays a hole |
| `Ext2Files.FileSystem.FileBlock` | kernel/src/ext2.c:582-652 | the block the tree maps the index to; with a sound device, answers exactly up to the end of the trees that exist |
| `Ext2Files.MappedAnswers` | kernel/src/ext2.c:626-631 | an index that is mapped is one `file_block` answers for |
| `Ext2Files.FileSystem.EnsureRoot` | kernel/src/ext2.c:1067-1074 | an inode slot is filled, with zeros or what the block held while free, or an error and no place changed; a slot in use never fails on a sound device |
| `Ext2Files.FileSystem.EnsureEntry` | kernel/src/ext2.c:1082-1090 | a pointer-block entry likewise |
| `Ext2Files.FileSystem.NextLevel` | kernel/src/ext2.c:1100-1116 | one more level on the way |
| `Ext2Files.FileSystem.TripleForWrite` | kernel/src/ext2.c:1122-1157 | the triple tree's part |
| `Ext2Files.FileSystem.FileBlockForWrite` | kernel/src/ext2.c:1060-1157 | afterwards the index maps to the returned block, which holds zeros or, uncleared, what it held while free; every other index of every file as before; -EFBIG exactly past the triple tree; -ENOSPC only when full, and on a sound device never for a mapped index; counts exact |
| `Ext2Files.FileSystem.WriteChunk` | kernel/src/ext2.c:1209-1218 | the cached step of a write: the bytes past it are as they were or left over from a free block, and on a sound device as they were |
| `Ext2Files.FileSystem.WriteWhole` | kernel/src/ext2.c:1188-1208 | the direct step of a write: the same, but for one block that it may give the file ahead of writing it |
| `Ext2Files.FileSystem.WriteFile` | kernel/src/ext2.c:1177-1226 | returning len, exactly that range holds the source and the stored inode is the one in hand; otherwise an error with its reason, and through the inode as it was stored before the call every file is sound, no byte outside the range has changed, and inside it each byte is new, old or left over as `FailedWrite` says, never left over on a sound device; the same bytes outside the range for the copy in hand |
| `Ext2Files.FileSystem.ReadFile` | kernel/src/ext2.c:765-813 | exactly the file's bytes up to its size, whichever mix of cached and direct reads; with a sound device it succeeds exactly if every index of the range is one the trees answer for |
| `Ext2Files.RefusedExactly` | kernel/src/ext2.c:626-631 | of the bytes a 32-bit size allows, a read is refused exactly at those past the double tree of a file without a triple tree |
| `Ext2Files.TripleStartsAt` | kernel/src/ext2.c:626-631 | where those bytes begin, for each block size |
| `Ext2Files.WriteThenRead` | kernel/src/ext2.c:765-813 | a write that returns its length is read back whole, and on a sound device that read succeeds |
| `Ext2Files.FileSystem.ReadChunk` | kernel/src/ext2.c:802-809 | the cached step of a read |
| `Ext2Files.FileSystem.ReadWhole` | kernel/src/ext2.c:783-801 | the direct step of a read |
| `Ext2Files.FileSystem.CountTree` | kernel/src/ext2.c:406-418 | the number of blocks at and below a place |
| `Ext2Files.FileSystem.CountBlocks` | kernel/src/ext2.c:420-429 | the number of blocks of the file |
| `Ext2Files.FileSystem.WriteInode` | kernel/src/ext2.c:552-580 | size, blocks and sector count reach the table, or nothing does |
| `Ext2Files.FileSystem.FreeTree` | kernel/src/ext2.c:1159-1175 | exactly the blocks at and below a place go out of use |
| `Ext2Files.FileSystem.FreeEntries` | kernel/src/ext2.c:1163-1172 | the entry loop of the same |
| `Ext2Files.FileSystem.FreeFile` | kernel/src/ext2.c:1245-1256 | the slot loop of a truncation: exactly the file's blocks go out of use on a sound device, and never another's |
| `Ext2Files.FileSystem.Truncate` | kernel/src/ext2.c:1228-1262 | to zero and returning true: exactly the file's blocks go out of use, it reads as zeros, no other file changes, counts exact, and the stored inode is empty; to any other size only the size changes; returning false: the inodes are stored as before, and the files they show are sound exactly if no block had been given back |
| `Ext2Files.EmptiedBytes` | kernel/src/ext2.c:1228-1262 | giving a file's blocks back changes no byte of another file |
| `Ext2Truncate.SubIs` | kernel/src/ext2.c:406-418 | the blocks at a place are the one there and those below it |
| `Ext2Truncate.EmptiedOk` | kernel/src/ext2.c:1228-1262 | after giving back a file's blocks, all or some, the volume is sound and every other file is where it was |
| `Ext2Runs.RunBytesExpected` | kernel/src/ext2.c:1177-1262 | over every run of calls on stored inodes, writes that succeed or fail and truncations that store the inode or give back nothing, each byte of each file is what the last of them made it; with no device failure every byte is so determined |
| `Ext2Runs.Run` | kernel/src/vfs.c:953-966 | any list of writes and truncations is such a run, up to a truncation that returns false; if that one gave blocks back, the stored inodes are unsound from there on and show the same bytes for the moment; none does on a sound device |
| `Ext2Runs.Serve` | kernel/src/vfs.c:1146-1159 | one call on a fresh copy of a stored inode: its outcome, and that stored inodes and trees stay in step |
| `Ext2Runs.WriteStored` | kernel/src/vfs.c:1146-1159 | the copy of the inode is dropped: after a failed write the stored inode is usable again and shows what `FailedWrite` says |
| `Ext2Runs.ReadInode` | kernel/src/ext2.c:375-399 | a copy of a stored inode that every operation accepts; on a sound device exactly for inodes that exist |
| `Ext2Runs.StepByte` | kernel/src/ext2.c:1177-1262 | the effect of one outcome on one byte |
| `Ext2Stored.PrunedOk` | kernel/src/ext2.c:1177-1226 | whatever a call added to its copy of an inode, the inode as stored before still heads a sound tree of blocks all its own |
| `Ext2Stored.PrunedFailed` | kernel/src/ext2.c:1177-1226 | what a failed write shows through the stored inode: what was written, as far as its slots reach, and old or left-over bytes past that |
| `Ext2Stored.NeitherOldNorNew` | kernel/src/ext2.c:1188-1208 | a byte ends up neither old nor new exactly in a block given for a hole and never written, where it held another byte before |
| `Ext2Stored.TailAdd` | kernel/src/ext2.c:1060-1157 | giving a hole a block leaves the bytes past the written part as they were or left over |
| `Ext2Stored.AheadNext` | kernel/src/ext2.c:1196-1203 | on a sound device only the block just given can differ from before |
| `Ext2Stored.StaleExactly` | kernel/src/ext2.c:1228-1262 | with the inode not stored, the files are sound exactly if nothing was given back; otherwise no account of the blocks fits the stored inodes |
| `Ext2Stored.StaleByte` | kernel/src/ext2.c:1228-1262 | until a block is handed out again the stored inode reads the old bytes |
| `Ext2Stored.StaleShares` | kernel/src/ext2.c:1228-1262 | and then, through a direct block, those of the file that was given it |
| `Ext2Stored.TruncationCanHarm` | kernel/src/ext2.c:1245-1261 | a one-block file on an eight-block volume for which this happens |
| `Dirents.PutRecIs` | kernel/src/ext2.c:819-830 | the record written reads back as written and nothing around it changed |
| `Dirents.Replaced` | kernel/src/ext2.c:1572-1660 | re-tiling a stretch of a tiled block changes what is listed there and nothing else |
| `Dirents.Reused` | kernel/src/ext2.c:1590-1591 | taking over an unused record lists one entry more |
| `Dirents.Split` | kernel/src/ext2.c:1592-1596 | cutting a record and using its slack lists one entry more |
| `Dirents.Merged` | kernel/src/ext2.c:1640-1644 | lengthening the record before drops exactly one entry |
| `Dirents.Cleared` | kernel/src/ext2.c:1645-1647 | clearing the first record drops exactly one entry |
| `Dirents.InsertedMembers` | kernel/src/ext2.c:1572-1621 | the new listing is the old set plus that entry |
| `Dirents.InsertedNames` | kernel/src/ext2.c:1623-1660 | with unique names, removal takes out that entry and no other |
| `Dirents.FreshNames` | kernel/src/ext2.c:1572-1621 | adding a fresh name keeps names unique |
| `Dirents.AddInBlock` | kernel/src/ext2.c:1581-1605 | succeeds exactly if some record has room; the first such record takes the entry, whole or its slack, and the block stays tiled |
| `Dirents.FirstRoomIs` | kernel/src/ext2.c:1582-1605 | no record has room exactly if the first record with room does not exist |
| `Dirents.RemoveInBlock` | kernel/src/ext2.c:1630-1657 | one entry of that name goes and the block stays tiled; or the block lists none |
| `Ext2Dirs.BlockInserted` | kernel/src/ext2.c:1572-1621 | one entry more in a block is one entry more in the directory |
| `Ext2Dirs.BlockRemoved` | kernel/src/ext2.c:1623-1660 | and one less likewise |
| `Ext2Dirs.SizeWraps` | kernel/src/ext2.c:1614-1614 | the 32-bit size of a directory reaches its limit exactly at 4 GiB and is then 0 |
| `Ext2Dirs.WrapsAtFourGiB` | kernel/src/ext2.c:1608-1614 | with 4096-byte blocks the block that wraps the size can be had, and adding to a directory without room then sets the size to 0 |
| `Ext2Dirs.Fetch` | kernel/src/ext2.c:1578-1580 | a block of the directory |
| `Ext2Dirs.Update` | kernel/src/ext2.c:1597-1602 | one block of the directory rewritten, no other file changed; the inode reaches the table or the table is as it was |
| `Ext2Dirs.AddDirent` | kernel/src/ext2.c:1572-1621 | exactly one entry more, in the first record with room of the first block with room, or in a new block exactly if there is none; every block tiled, no other file changed, counts exact; the size afterwards from the state before, 0 where a new block makes 4 GiB; fails on a sound device only when no record has room and the directory cannot grow; after any failure the directory as stored is tiled and lists what it did, or that and the entry |
| `Ext2Dirs.Append` | kernel/src/ext2.c:1608-1621 | the same for the new block at the end |
| `Ext2Dirs.PrunedDir` | kernel/src/ext2.c:1608-1621 | a directory in hand and the same directory as stored list the same blocks |
| `Ext2Dirs.RemoveDirent` | kernel/src/ext2.c:1623-1660 | exactly one entry of that name less, every block tiled; or no block lists the name and nothing changed; after a device failure the directory as stored is tiled and lists what it did, or that without the entry |
| `Ext2Dirs.NextDirent` | kernel/src/ext2.c:1270-1313 | the next entry still to be enumerated and the cursor past it; nothing found exactly at the end |
| `Ext2Dirs.DirentAt` | kernel/src/ext2.c:1315-1321 | the entry at a position of the listing without `.` and `..` |
| `PageCache.UnlinkKeepsIndex` | kernel/src/vfs.c:400-413 | cutting a slot out of its chain keeps every chain right |
| `PageCache.LinkKeepsIndex` | kernel/src/vfs.c:453-458 | putting a slot at the front of its chain keeps every chain right and keys unique |
| `PageCache.ChainIsScan` | kernel/src/vfs.c:387-398 | the chain of a key's hash holds every slot with that key, so walking it is a full scan |
| `PageCache.AllVisited` | kernel/src/vfs.c:438-451 | going once round from the hand meets every slot |
| `PageCache.PageTable.Find` | kernel/src/vfs.c:387-398 | agrees with a scan of the whole table |
| `PageCache.PageTable.Unlink` | kernel/src/vfs.c:400-413 | the slot is in no chain, every other chain is right |
| `PageCache.PageTable.Clear` | kernel/src/vfs.c:415-420 | the slot is empty, nothing else changed |
| `PageCache.PageTable.AllocPage` | kernel/src/vfs.c:422-436 | gives pages back one by one; what stays cached is unchanged |
| `PageCache.PageTable.Victim` | kernel/src/vfs.c:438-451 | takes the first vacant slot going round from the hand, else the one under the hand, and leaves the hand just past it; nothing else changes |
| `PageCache.PageTable.FindVacant` | kernel/src/vfs.c:441-447 | the search finds the slot the next load takes; none vacant exactly when every slot is valid |
| `PageCache.PageTable.Load` | kernel/src/vfs.c:460-496 | true exactly when the page is cached afterwards; with memory and a sound backend, a hit changes nothing and a miss replaces exactly the chosen slot |
| `PageCache.PageTable.Prepare` | kernel/src/vfs.c:467-473 | claiming a slot keeps the index |
| `PageCache.PageTable.Fill` | kernel/src/vfs.c:493-494 | the new page is indexed and coherent |
| `PageCache.PageTable.ReadUncached` | kernel/src/vfs.c:551-559 | the bytes of the backend, or none on failure |
| `PageCache.PageTable.ReadPageCached` | kernel/src/vfs.c:498-516 | the page of the file, zero-filled past its end; with nothing failing and three slots or more, it fails exactly where the table before the call loses the page to its read-ahead |
| `PageCache.PageTable.Invalidate` | kernel/src/vfs.c:538-549 | no page of this node stays, every other one does |
| `PageCache.PageTable.Mutate` | kernel/src/vfs.c:953-966 | after any mutation the cache is coherent with what the backend then holds |
| `PageCache.PageTable.Read` | kernel/src/vfs.c:1127-1144 | a prefix of what the uncached read gives; with nothing failing and three slots or more, its length and the table it leaves are determined by the table before the call, it is complete when the pages held and wanted fit together, and where it stops the next read delivers |
| `PageCache.PageTable.CopyPages` | kernel/src/vfs.c:1131-1142 | the page loop: length and stopping place of a read |
| `PageCache.RoomDelivers` | kernel/src/vfs.c:1127-1144 | a read for which the pages held and wanted fit into the table delivers every byte |
| `PageCache.RetryDelivers` | kernel/src/vfs.c:1127-1144 | after a page was pushed out, reading from there again delivers |
| `PageCache.ShortRead` | kernel/src/vfs.c:498-516 | a full table with the page asked for under the hand and the next page not cached: nothing is delivered |
| `PageCache.FillThenRead` | kernel/src/vfs.c:1127-1144 | that table is reached by 4096 reads of one page each on an empty cache, and the read of a cached page then returns no byte |
| `PageCache.ReadInTurn` | kernel/src/vfs.c:498-516 | reading one page after another fills the table slot by slot and then goes over it again |
| `Residency.ChoiceIs` | kernel/src/vfs.c:438-451 | a load takes a vacant slot if there is one, else the slot under the hand of a full table |
| `Residency.ChoiceIsFirst` | kernel/src/vfs.c:441-447 | no vacant slot is nearer to the hand than the one taken |
| `Residency.PutKeeps` | kernel/src/vfs.c:460-496 | the load of another page pushes a page out exactly if it misses, the table is full and the hand is on that page |
| `Residency.PushedOutExactly` | kernel/src/vfs.c:498-516 | a page is lost to the two pages read ahead of it exactly in the named cases: the hand reaches it in a table without room, or it took one of the last two vacant slots and the other is just behind |
| `Residency.RetryHolds` | kernel/src/vfs.c:498-516 | a page that was pushed out leaves a full table, where the same request succeeds |
| `Residency.RoomHolds` | kernel/src/vfs.c:498-516 | with room for the page and those read ahead it is never pushed out |
| `Residency.PutFits` | kernel/src/vfs.c:460-496 | while what is held and wanted fits, a load pushes nothing out |
| `RamfsSlots.TakeKeeps` | kernel/src/ramfs.c:168-175 | taking the free list's head keeps every slot on one list or in one chain |
| `RamfsSlots.ReleaseKeeps` | kernel/src/ramfs.c:177-183 | putting a slot back keeps it |
| `RamfsSlots.LinkKeeps` | kernel/src/ramfs.c:207-221 | linking a new page at the front of a node's chain keeps it |
| `RamfsSlots.SkipKeeps` | kernel/src/ramfs.c:705-733 | taking a page out of a chain keeps it |
| `Ramfs.WriteIsOverwrite` | kernel/src/ramfs.c:848-872 | a write overwrites the file's sequence, zeros in the gap |
| `Ramfs.TruncateIsResize` | kernel/src/ramfs.c:705-733 | a truncation cuts or zero-pads it |
| `Ramfs.OtherContents` | kernel/src/ramfs.c:848-872 | no other file changes |
| `Ramfs.ShrinkThenGrow` | kernel/src/ramfs.c:705-733 | shrinking and growing back reads zeros |
| `Ramfs.FailedWriteTail` | kernel/src/ramfs.c:848-872 | a write that stopped after `done` bytes leaves zeros past the size exactly when the bytes it left there are zeros |
| `Ramfs.FailedThenGrown` | kernel/src/ramfs.c:705-733 | growing the file after such a write reads its bytes past the old size, and zeros elsewhere; all zeros exactly if those bytes are |
| `Ramfs.FailThenGrow` | kernel/src/ramfs.c:848-872 | one such run: a write of one page more than the store holds, and the file then grown to one byte reads that write's first byte |
| `Ramfs.Fs.InitRange` | kernel/src/ramfs.c:140-148 | new slots, each on the free list once; no file changes |
| `Ramfs.Fs.Grow` | kernel/src/ramfs.c:150-166 | doubling growth keeps every page; with memory, fails exactly at the limit |
| `Ramfs.Fs.AllocSlot` | kernel/src/ramfs.c:168-175 | a slot in hand; fails, with memory, only when all are in use at the limit |
| `Ramfs.Fs.FreeSlot` | kernel/src/ramfs.c:177-183 | the slot in hand goes on the free list |
| `Ramfs.Fs.FindPage` | kernel/src/ramfs.c:200-205 | the chain holds the page exactly if any slot does |
| `Ramfs.Fs.GetPage` | kernel/src/ramfs.c:207-221 | the page's slot, made if need be; no file reads differently; a page made takes one of the room, and with memory it fails only without room |
| `Ramfs.Fs.Write` | kernel/src/ramfs.c:848-872 | exactly the range changes; or it stops, at its first byte or a page boundary, at a page the file lacks; with memory it succeeds exactly if the pages lacking do not exceed the room, and else stops where they have used it up |
| `Ramfs.Fs.Extend` | kernel/src/ramfs.c:868-868 | the size reaches the end of the write and never shrinks |
| `Ramfs.Fs.Read` | kernel/src/ramfs.c:817-846 | a slice of the file's sequence |
| `Ramfs.Fs.FreeNodePages` | kernel/src/ramfs.c:223-231 | the node's pages are gone, no other file notices |
| `Ramfs.Fs.FreeNode` | kernel/src/ramfs.c:233-236 | the node too |
| `Ramfs.Fs.Truncate` | kernel/src/ramfs.c:705-733 | exactly the bytes past the new end are zeros; refused exactly when sealed, too large or not a writable file |
| `Ramfs.Fs.DropPages` | kernel/src/ramfs.c:711-721 | the link loop: pages past the end gone, all others kept |
| `Ramfs.Fs.Retain` | kernel/src/ramfs.c:555-559 | one holder more |
| `Ramfs.Fs.Release` | kernel/src/ramfs.c:561-567 | one holder less; only the last release of an unlinked node frees it |
| `Ramfs.Fs.Unlink` | kernel/src/ramfs.c:750-766 | a held node loses its name and keeps its data; any other goes; non-empty directories are refused |
| `RamfsRuns.RunIsPlayed` | kernel/src/ramfs.c:705-872 | over every run of successful operations a file reads as the sequence its own writes and truncations make |
| `RamfsRuns.HeldSurvives` | kernel/src/ramfs.c:555-567 | a held file keeps its data through every unlink and every release but the last |
| `Net.FoldKeeps` | kernel/src/net/net.c:102-115 | one step of the folding loop keeps the ones'-complement value and makes progress |
| `Net.ChecksumCancels` | kernel/src/net/net.c:102-115 | RFC 1071 section 2: carrying the complement of the sum makes the sum all ones |
| `Net.ComputeChecksum` | kernel/src/net/net.c:102-115 | the loop computes the ones'-complement checksum without overflowing 32 bits |
| `Net.SumPayload` | kernel/src/net/net.c:117-127 | the pseudo-header checksum, 0 for payloads longer than a frame holds |
| `Net.FilledField` | kernel/src/net/net.c:301-320 | filling a zeroed field at an even place makes the checksum zero |
| `Net.TransportSum` | kernel/src/net/net.c:117-127 | so does the transport checksum, also as 0xffff where it is zero (RFC 768) |
| `Net.UdpRoundTrip` | kernel/src/net/net.c:534-548 | every datagram built is delivered with its ports and payload, unless its destination port is 0 |
| `Net.TcpRoundTrip` | kernel/src/net/net.c:550-566 | every segment built is delivered unchanged exactly if its flags are legal and its ports are not 0 (RFC 9293 section 3.1) |
| `Net.IpRoundTrip` | kernel/src/net/net.c:568-592 | every packet built passes the receiver's IPv4 checks at the addressed host (RFC 791 section 3.1) |
| `Net.FrameRoundTrip` | kernel/src/net/net.c:594-602 | and its frame reaches them |
| `Net.UdpArrives` | kernel/src/net/net.c:376-393 | end to end for UDP |
| `Net.TcpArrives` | kernel/src/net/net.c:427-457 | end to end for TCP: ports, numbers, window, flags, options, payload |
| `Net.TcpDamaged` | kernel/src/net/net.c:550-566 | a built segment with one word changed is dropped, unless the words differ only as 0 and 0xffff |
| `Net.UdpDamaged` | kernel/src/net/net.c:534-548 | a built datagram likewise, if its length is intact and its checksum not erased |
| `Net.IpDamaged` | kernel/src/net/net.c:568-592 | a built packet with a header word past the first changed likewise |
| `Net.Put` | kernel/src/net/net.c:75-96 | bytes stored after a prefix, the rest of the buffer untouched |
| `Net.Fill` | kernel/src/net/net.c:75-78 | a checksum field filled in |
| `Net.Sender.BuildIpv4Frame` | kernel/src/net/net.c:301-320 | the frame written into the buffer is that of the packet, and the identification advances |
| `Net.BuildUdp` | kernel/src/net/net.c:376-393 | the datagram written into the buffer; refused exactly when too long |
| `Net.BuildTcp` | kernel/src/net/net.c:427-457 | the segment written into the buffer; refused exactly when options or length do not fit |

## Left out

- Hardware effects: TLB maintenance, barriers, address-space identifiers, caches and inline assembly are no-ops.
- Descriptor bits: page-table pages are typed (`Table` or `Data`) and a descriptor is a record of its fields; attribute bits that no function reads are not modelled.
- `vmm_protect_range`, `vmm_restore_shared_range` and MAP_SHARED mappings: they grant write on purpose, outside the private copy-on-write relation.
- kernel/src/proc/memory.c: shared areas, `cell_protect_vma`, `cell_prefault_anon_vma`, the accounting and the `process_mm` slots.
- Process.Process.TranslationFault: the pages the page cache can hand out during the call are a parameter; the read right of an area is tested by the fault but not kept in the tables, which have no bit to deny reading a mapped user page.
- Process.Process.EnsureRange: why it returns false is not stated; the pages of the page cache are a parameter, as for TranslationFault.
- Process.Process.AddArea: areas that end past 2^48 or are shared are excluded, because the tables do not tell such addresses from lower ones and shared areas grant write to shared pages.
- Process.Process.AddFileArea: as for AddArea; sums of file offsets and sizes do not wrap at 64 bits.
- Process.Process.RemoveArea: ranges in whole pages, as `sys_munmap` makes them, and not up to the last page of the 64-bit space, as for UnmapRange.
- Process.Process.Fork: for a process without shared areas, whose rights `vmm_restore_shared_range` would grant again.
- Vmm.AddressSpaces.CopyToUser: the statement about bytes is for ranges below 2^48, because the walk ignores higher address bits and two addresses can then name one page; the atomicity and failure statements hold for every range.
- Vmm.AddressSpaces.UnmapRange: ranges whose last page is the last of the 64-bit address space, because there the source's loop counter wraps and the loop does not end.
- Vmm.AddressSpaces.MapLeaf: writable leaves of pages with another reference, which only shared mappings make, are outside the private relation.
- Vmm.AddressSpaces.MapPageCow: pages that hold tables or that the caller holds no reference to, which no caller maps.
- Vmm.AddressSpaces.MapPage: writable only for a page with no other reference, as for MapLeaf; overwriting a mapped entry leaves the displaced page's reference with no table; the model gives it to the outside owners, as the source's callers must.
- Pmm.Allocator.constructor: the scan of the boot memory map and the placement of the allocator's own tables are not modelled; statistics are not either.
- Vma.VmaList.Insert: the anonymous kinds only, because a file area comes through `InsertFile`; the slots per chunk are a parameter.
- Pipes.PipeTable.WakeWaiters: a descriptor closed under a blocked sibling thread (answer -9), poll waiters and socket waiters are not modelled.
- Pipes.PipeTable.Open: reader and writer counts have no 16-bit bound, because at most 4096 open files (kernel/src/include/cell.h:18) hold one end of each kind.
- Pipes.PipeTable.Write: a user range that becomes unmapped between the check and the copy is not modelled.
- PageCache.PageTable.Read: for a handle refreshed since the last mutation, because the source trusts the size in the handle; physical pages, ages, statistics and the one-time bucket allocation are not modelled.
- PageCache.PageTable.Mutate: shared writable mappings, through which a cached page changes without a call, are not modelled.
- Ext2Volume.Volume.AllocBlock: superblock counters are not modelled, because reading them bypasses the cache while writing them does not; the first data block is 0, as the image builder makes it.
- Ext2Files.FileSystem.WriteInode: the inode table is a map of records rather than bytes of blocks; modes, owners, links, timestamps and read-only mounts are not modelled.
- Ext2Files.FileSystem.Truncate: fast symlinks, which keep their target in the block array, are not modelled.
- Ext2Runs.Run: each call works on the inode as it is stored; a handle that the VFS has not refreshed since the inode last changed is not modelled.
- Ext2Runs.RunBytesExpected: not for runs that go on after a truncation has given blocks back and failed to store the inode, for which no statement about files holds.
- Ext2Dirs.AddDirent: the ext2plus store with its hidden names, and the child name cache, are not modelled; directory sizes are whole blocks, as the source itself keeps them.
- ext2 inode allocation, path lookup, links, rename and directory removal.
- Ramfs.Fs.Unlink: the path has been resolved to a node; lookup, creation, links, rename, devices and timestamps are not modelled, and whether seals forbid a change is a parameter.
- Net.Sender.BuildIpv4Frame: ARP resolution, routing, egress policy, loopback and multicast delivery, ICMP and sockets are not modelled; the directed broadcast address is a parameter of the receiving host.
- Drivers, terminal, framebuffer, tty, procfs, boot, signals, credentials, policy manifests, poll, host tools and userland.

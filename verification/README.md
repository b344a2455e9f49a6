# PMFS metadata, modelled and verified in Dafny

PMFS is a file system for byte-addressable persistent memory. This project
models the machinery that keeps its metadata right, and proves what that
machinery promises:

- the per-inode block tree, a radix tree of fan-out 512 that grows, is cut and
  changes height in place (`BlockTree`, `InodeTree`, `InodeOps`, `TreeGrowth`,
  `InodeAlloc`), also when an allocation fails half-way (`AllocFailure`);
- the block allocator, a sorted list of in-use intervals (`BlockList`,
  `Allocator`), its save at unmount and restore at mount (`Remount`), and its
  reconstruction after a crash (`Rebuild`);
- file contents on top of the tree (`FileContents`);
- directory blocks and directories (`DirBlock`, `Directory`);
- the undo journal: recovery (`Journal`, `LogShape`), reservation and the writer
  (`Transaction`), power failures (`Power`, `Crash`), the cleaner (`Cleaner`), the
  last of the 65535 generations (`LastGeneration`), and whole runs (`JournalRun`);
- the inode table (`InodeTable`) and the truncate list (`TruncateList`).

`Arith` and `Codec` hold integer facts and little-endian byte encoding.

Code that updates state in place is a method on a class or on the device, with
loops and `modifies` clauses; each is tied to an abstract value: a tree, a set of
blocks, a byte sequence, a multiset or map of names, a memory image. A tree on
the device (`Device.nodes`) is related to an abstract `Tree` by `Rep`; the ghost
tree travels with the operations. Power is a budget of single writes (`Supply`): an
operation of the journal stops where it runs out, and its contract says how many
writes it needs and what it leaves. Block pointers are kept as block numbers, log
offsets as entry numbers. `dafny verify dfyconfig.toml` checks everything.

## What holds, and what does not

Most promises hold as one would wish. Where the code does something else, the
model follows the code, and the project states exactly when:

- **Empty metadata nodes.** Allocating into an empty file at a block past the
  first 512 builds a leftmost path that ends in an empty node. "No metadata node
  is empty" therefore is not an invariant; `Tidy` (only the leftmost path may end
  in an empty node) is. `AllocBlocks` says when such a node appears: the file was
  empty and the range starts at block 512 or later.
- **The BUG_ON in `pmfs_decrease_btree_height`.** Truncating such a file in front
  of its first mapped block leaves a bare root, and the kernel stops.
  `TruncateBlocks` and `SetSize` return `panic` and prove it equivalent to
  `HitsBugOn`, a condition on the file before the call; `SparseFileMeetsBugOn` is
  a family of files that meet it (write block 600 of an empty file, truncate to
  600 blocks).
- **Blocks past the end after a failed allocation.** An allocation that fails at a data
  block sets a flag by which a later truncation finds what lies past the end of the
  file; `AllocOrGiveBack` shows that truncating then gives back what was taken. One that
  fails at a metadata block does not set it. Blocks then stay behind unflagged exactly if
  the first block asked for was had (`Leftover`).
- **`pmfs_readdir` and bad blocks.** Its comment says that a bad record makes it
  skip to the next block. At the start of a block the rounding leaves the position
  where it is, so the loop never ends. `Readdir` returns `stuck` in that case and
  proves that, with room in the buffer, it happens exactly if a block from the
  starting position on begins with a bad record; a zeroed block is one
  (`ZeroBlockSticks`).
- **The log cleaner and idle reservations.** The cleaner passes over slots that
  hold no valid entry, also those reserved by a transaction that has not logged
  anything yet. `CleanOpen` shows that an open transaction stays recoverable once
  it has logged an entry, `CleanTooEarly` that before that its reservation is lost.
- **Power failures, also during recovery.** Power may fail at any single write, of a
  transaction, of the cleaner, or of a recovery, which is then started again.
  Outside generation 65535 recovery can be restarted on every log whatever
  (`RestartRecovery`). In that generation it also invalidates entries as it goes, START
  first; with one open transaction restarts are harmless all the same (`Recover`).
  With two, the second recovery is right exactly if, on the bytes the lower
  transaction did not log, the entries left of the upper one agree with what it logged
  first (`RestartTwoOpenIff`); `RestartTwoOpen` is a log where they do not.
- **The generation counter comes round.** A wrap of the tail, or a recovery, moves on
  to the next of 65535 generations, and entries that already carry it count as valid
  again. `Begin` says what is then left to undo: nothing exactly if every such START is
  closed. `OldEntryRevives` leads from an idle journal in generation 65534, by one
  recovery and two reservations, to an entry nobody logged that recovery would undo.
  `Run` stops before it meets such entries, and proves that this does not happen within
  65534 operations of a fresh journal.
- **The deletion time.** An inode freed in the second whose 32-bit time is 0 does not
  look free afterwards; `FreeInode` keeps the count exact exactly if that time is not 0.

Two facts about the journal code as it stands: `pmfs_add_logentry` returns `-EINVAL`
before doing anything (journal.c:661-664), so the writer modelled here is what the
unreachable rest of its body intends, and nothing here says that the file system
as checked in is crash-atomic; and `pmfs_get_journal` lays the journal header over
the super block (pmfs.h:373-380), whereas the model keeps it as a record of its
own (the fields of `Log`).

## Model

| member | source | states |
|---|---|---|
| BlockList.CanonicalUnique | balloc.c:58-144 | A list that is sorted, in bounds and has at least one free block between nodes is determined by the set of blocks it covers |
| BlockList.UsedRangeIsHeld | balloc.c:82-138 | In such a list a range that is wholly in use lies in one node, so looking at single nodes misses nothing |
| BlockList.PutCanonical | balloc.c:192-252 | Entering a free run in a gap, with merging on either side, keeps the list canonical |
| BlockList.PutUndoesCut | balloc.c:58-144 | Entering a range again after cutting it out gives back the list node for node |
| BlockList.CoveredIsCount | balloc.c:285-289 | The summed node lengths are the number of blocks in use |
| Allocator.AlignedAfterIsLeast | balloc.c:184-184 | The rounded start after a node is the least aligned block past it |
| Allocator.SbInfo.PlaceAfter | balloc.c:192-252 | Each of the four placements after a node enters exactly the run; it fails exactly if the run touches no node and none can be had |
| Allocator.SbInfo.NewBlock | balloc.c:155-283 | Returns the least aligned start past the first node where the whole run is free; fails exactly if there is none, or the first one needs a list node that cannot be had; 4K allocations never add a node |
| Allocator.SbInfo.CutNode | balloc.c:89-135 | The four matching cases take exactly the range out of its node; the hint they leave is the first node past it, or none |
| Allocator.SbInfo.FreeBlock | balloc.c:58-144 | From any live hint: succeeds exactly if every block of the range is in use, and a list node can be had if the range splits one; the list afterwards depends on the list and the range alone; leaves the first node past the range as hint |
| Allocator.SbInfo.InitBlockmap | balloc.c:26-46 | The reserved prefix becomes the only node; free plus used blocks is the device size less the fixed deduction |
| Allocator.SbInfo.InsertRange | bbuild.c:313-423 | Enters a run exactly if it is free, inside the device and past the first node, and a list node can be had if it touches none |
| Allocator.SbInfo.Run | balloc.c:58-283 | Over any run of allocations, frees with carried hints, and insertions every outcome and every list is determined by the list before; lists stay canonical, the node count exact, and free plus used blocks constant |
| Allocator.SbInfo.NewThenFree | balloc.c:58-283 | Freeing what an allocation returned restores the list, the free count and the node count |
| Allocator.SbInfo.FreeAll | balloc.c:76-82 | A sequence of frees leaves the same list, with the same outcomes, whether each starts at the hint of the one before or at the head |
| Allocator.SpareUsedUp | balloc.c:172-189 | When no 4K block fits any more, at least as many blocks were taken as had been spare |
| BlockTree.TruncLookup | inode.c:243-317 | After truncation exactly the range looks up as 0, every other file block as before |
| BlockTree.TruncOwns | inode.c:243-317 | The blocks a truncated tree owns are owned before; data blocks of the range and emptied nodes are gone |
| BlockTree.TruncTidy | inode.c:243-317 | Truncation keeps trees tidy |
| BlockTree.BareRootIff | inode.c:351-363 | Truncation leaves a root without data exactly in the stated case |
| BlockTree.LookupInjective | pmfs.h:493-514 | Two file blocks of a disjoint tree never share a device block |
| BlockTree.LeastHeightIsLeast | inode.c:365-370 | The height the shifting loop computes is the least that reaches the last block |
| InodeTree.RepFrame | inode.c:243-317 | Memory outside a tree's own blocks does not matter to it |
| InodeTree.FreeLeaves | inode.c:262-274 | The leaf loop, with its carried hint, frees exactly the data blocks of the range and counts them |
| InodeTree.TruncateKids | inode.c:275-301 | The node loop frees emptied kids once each and computes the range left to zero |
| InodeTree.FinishNode | inode.c:302-316 | Reports the node empty exactly if no pointer is left; otherwise zeroing makes it represent the truncated node |
| InodeTree.RecursiveTruncateBlocks | inode.c:243-317 | Memory represents the truncated tree unless it is empty; the blocks released below the root are exactly those owned before and not after; the count is the data blocks freed |
| InodeTree.TruncateSubtree | inode.c:285-293 | With the caller's freeing of an emptied node: released are exactly the blocks reachable before and not after, each once |
| InodeOps.FindBlock | pmfs.h:493-514 | The walk down the tree returns the abstract lookup |
| InodeOps.FindDataBlock | inode.c:56-83 | The 4K-granular lookup for all block types and block numbers past the tree |
| InodeOps.CountIblocks | inode.c:396-423 | The mount-time count is the number of mapped data blocks in 4K units |
| InodeOps.HeightFor | inode.c:365-370 | The loop computes the least sufficient height |
| InodeOps.DropRoot | inode.c:375-383 | A discarded root has only slot 0 set, and its kid maps what it mapped |
| InodeOps.DropRoots | inode.c:375-383 | Lowering keeps every lookup and frees exactly the dropped roots |
| InodeOps.DecreaseHeight | inode.c:351-394 | Stops exactly when blocks or size are 0 and a root is left; else all surviving lookups hold at the least height |
| InodeOps.BugOnIff | inode.c:359-363 | The condition on the file before the call under which the BUG_ON is met, both directions |
| InodeOps.LastVisited | inode.c:462-472 | The last block visited is the last that the tree reaches and that begins before the end, or the last it reaches if the flag is set |
| InodeOps.TruncateTree | inode.c:474-491 | A lone block or a tree is truncated, root and freed count included |
| InodeOps.TruncateBlocks | inode.c:440-519 | Panics exactly in the stated case, with the cut made and a bare root left; else everything from the first block on is unmapped, the rest kept, released blocks exact, the height least, i_blocks exact, also when recounted at mount; the flag for blocks past the end goes exactly if something was to cut and the size covers i_blocks |
| InodeOps.FreeInodeSubtree | inode.c:319-348 | Meets the BUG_ON exactly if a data block lies past the given last one; else frees every block of the tree once, and nothing else |
| TreeGrowth.CutTwice | inode.c:243-317 | Cutting a tree at one block and then at an earlier one is cutting it at the earlier one |
| TreeGrowth.CutNothing | inode.c:243-317 | Cutting where nothing is mapped changes nothing |
| TreeGrowth.KidGap | inode.c:589-658 | Where the blocks below one slot stop is where those of the whole node stop, and the flag says the same of both |
| TreeGrowth.InOrderKid | inode.c:589-658 | Slots are filled in order: behind a block that is missing nothing is new |
| InodeAlloc.AllocBlock | balloc.c:155-283 | A taken block was free, aligned, and is zeroed on request; nothing else changes; with list nodes to hand it fails only if nothing fits |
| InodeAlloc.FillLeafSlot | inode.c:590-616 | One data block is there or is taken; if none can be had the flag for blocks past the end is set |
| InodeAlloc.RecursiveAllocBlocks | inode.c:570-664 | On success the range is mapped, and failure means that space ran out; the flag is set exactly if the pointer to the first block still missing has a place in the tree; always: old mappings hold, new ones come in order and hold zeros if asked, nothing is new before the range, gained blocks were free and are reachable, i_blocks follows, and the blocks spent are bounded by the range |
| InodeAlloc.IncreaseHeight | inode.c:528-558 | Raising wraps the old root, keeping every lookup, also when it stops early, which it does only if no 4K block is left |
| InodeAlloc.AllocBlocks | inode.c:666-760 | Maps the range at the least sufficient height, at most 3; fails only if the range is out of reach or space ran out, and given enough spare 4K blocks beforehand succeeds exactly if it is in reach; even on failure earlier mappings hold, new ones come in order and hold zeros if asked, every block taken is reachable, and the flag for blocks past the end is set exactly if the tree had the height and there was a place for the first missing block; an empty node appears exactly if an empty file starts at block 512 or later |
| InodeAlloc.SpineReachIff | inode.c:537-552 | The leftmost path ends in an empty node exactly if none of the first 512 blocks is mapped |
| InodeAlloc.SparseStart | inode.c:725-735 | An empty file that grows has an empty node exactly if the range starts past the first metadata block |
| InodeAlloc.SparseFileMeetsBugOn | inode.c:359-363 | Such a file, truncated between 512 and its first block, meets the BUG_ON |
| AllocFailure.AllocOrGiveBack | inode.c:594-602 | An allocation past the end that fails at a data block, then a truncation: it meets the BUG_ON exactly if the tree was bare, or there was none and the size is 512 blocks or more; else the file maps what it did, and tree, list and counters are as before if the height was right; a failure elsewhere leaves no block past the end exactly if the first one is missing |
| AllocFailure.BackToOld | inode.c:365-383 | Cut at the old end and lowered to its old height, a tree that was raised and grew past that end is what it was |
| AllocFailure.Leftover | inode.c:616-624 | After a failed allocation blocks lie past the end exactly if the first one asked for is mapped; if not, every mapping is as before |
| FileContents.StoreInBlock | xip.c:167-181 | Copying into a mapped block changes those bytes of the file and no others |
| FileContents.CopyBlocks | xip.c:183-257 | The copy loop stores the buffer at the position, whatever blocks it straddles |
| FileContents.ClearEdge | xip.c:318-342 | A new edge block is zeroed outside what will be written, rounded to 8 bytes |
| FileContents.WriteSlow | xip.c:378-442 | Allocating, clearing edges and copying together overwrite the bytes and leave all others, new ones zero; refused only out of reach or out of space, and then size, mappings and bytes are as before but for new blocks in the range |
| FileContents.Write | xip.c:344-442 | Fast or slow, a write makes the file its old contents overwritten at the position, zero-filled in between, taking blocks for the range alone; refused only if the range is out of reach, or space ran out and there were too few spare blocks; a refused write leaves the size, every mapping and every byte outside newly mapped blocks of the range, which come in order, were free and are counted |
| FileContents.Read | xip.c:22-121 | A read returns that slice of the contents, cut at the end of the file, holes as zeros |
| FileContents.BlockTruncatePage | inode.c:1312-1340 | The bytes of the last block past the new end become zero |
| FileContents.SetSize | inode.c:1447-1465 | Panics exactly in the stated case, with the cut made; else the contents are cut or zero-extended; the flag for blocks past the end is exact |
| FileContents.ReadBack | xip.c:344-442 | A write that succeeds and a read of the same range return the buffer |
| FileContents.ShrinkThenGrow | inode.c:1447-1465 | After shrinking and growing, the bytes in between read as zeros; without blocks past the end only the shrinking can meet the BUG_ON |
| FileContents.Run | xip.c:22-442 | Any run of writes, truncations and reads behaves as on one byte sequence, block map and in-use list following step by step; it stops only where a write is refused or a truncation meets the BUG_ON, and then leaves what those leave |
| Remount.EntryRoundTrip | bbuild.c:188-189 | A saved list node is read back as it was |
| Remount.SaveList | bbuild.c:177-206 | The list is laid out entry by entry over the save area |
| Remount.AreaLeast | bbuild.c:159-160 | The save area has as few blocks as hold the list |
| Remount.SaveBlocknodeMappings | bbuild.c:145-230 | The space reckoned before the save area is allocated holds the list as it is afterwards; fails only if the area is out of reach, or space ran out and there were too few spare blocks |
| Remount.InitBlockmapFromInode | bbuild.c:55-85 | The list is restored node for node |
| Remount.FastMount | bbuild.c:87-122 | Skips the scan exactly if there is a save area; the list is then the one before the save, after freeing the area |
| Remount.AreaFreed | bbuild.c:119-119 | Freeing the save area exactly cancels its allocation |
| Remount.CleanRemount | bbuild.c:87-230 | Unmount then mount returns the list, the node count and the free count, unless the save failed for one of those reasons |
| Rebuild.ScanBitmap.Mark | bbuild.c:241-247 | set_bit marks exactly the device blocks of one block, in the bitmap of its size |
| Rebuild.InodeCrawlRecursive | bbuild.c:232-259 | The crawl of a file marks exactly the blocks its tree owns, by size |
| Rebuild.FreeMeans | bbuild.c:292-297 | A record is free exactly if it has no link, and no mode or a deletion time |
| Rebuild.CountUsedIs | bbuild.c:288-296 | The count of used inodes is the number of records with a link, or with a mode and no deletion time |
| Rebuild.CrawlTableBlock | bbuild.c:281-301 | One block of the inode table: the files of its used inodes are marked, among them every one with a link; counted are the records that have a link, or a mode and no deletion time |
| Rebuild.InodeTableCrawl | bbuild.c:270-311 | The whole crawl marks exactly what is reached from the inode table and counts all and used inodes |
| Rebuild.FindNext | bbuild.c:432-437 | The next position with the given bit |
| Rebuild.BuildFromBitmap | bbuild.c:425-446 | Entering the runs adds exactly the marked blocks and ends |
| Rebuild.BitmapLargeEnough | bbuild.c:487-489 | The bitmaps have a bit for every block |
| Rebuild.CrashRebuild | bbuild.c:459-516 | When no block is reached at two sizes, the rebuilt list covers exactly the reserved prefix and what is reached, so every block of a file with a link, is canonical, and has the matching free count |
| Rebuild.LinkedHeld | bbuild.c:459-516 | A list that holds what is reached holds every block of every file whose record has a link, or a mode and no deletion time |
| Rebuild.RebuiltIsLost | bbuild.c:459-516 | It is node for node the list that was lost, exactly if that one held the reserved prefix, the reached blocks and nothing else |
| DirBlock.TiledAppend | dir.c:27-105 | Rows of records join, with their names in order |
| DirBlock.RecordsAligned | dir.c:53-62 | Records of a sound block lie on multiples of four bytes |
| DirBlock.FewNames | dir.c:53-62 | A block binds at most 256 names |
| DirBlock.NoRoomBehind | dir.c:41-62 | No record behind the search limit has room, so stopping there loses nothing |
| DirBlock.AddDirentToBuf | dir.c:27-105 | Reports ENOSPC exactly if no record has room; else the block stays tiled and gains exactly the new binding; "." and ".." of a directory stay its first two records |
| DirBlock.WriteDirent | dir.c:63-90 | Splitting a live record or taking a free one adds exactly the binding |
| DirBlock.LiveSplit | dir.c:65-76 | A split leaves both halves sound and the old name bound |
| DirBlock.FormatBlock | dir.c:152-157 | Whatever the block held, it becomes one free record |
| DirBlock.Swallowed | dir.c:198-205 | With a predecessor, removal keeps the tiling, loses exactly the removed binding, and leaves room for it |
| DirBlock.Freed | dir.c:206-212 | Without one, the first record becomes free, with room for its name |
| DirBlock.RemoveDirent | dir.c:198-212 | The block loses exactly the binding of the removed record and has room for that name again; "." and ".." stay the first two records if a later one goes |
| DirBlock.SearchDirblock | namei.c:93-131 | Terminates on any bytes; a hit is checked and matches; in a sound block it finds the first record of the name and its predecessor, or the name is not bound |
| DirBlock.MakeDirBlock | namei.c:499-513 | A new directory binds "." and ".." and nothing else; both are live, NUL-terminated, and the first has no slack |
| Directory.Exchanged | dir.c:128-139 | Changing one block changes the directory's bindings by the same amount |
| Directory.Dir.AddEntry | dir.c:110-163 | EINVAL exactly for the empty name, ENOSPC exactly if nothing has room and no block can be had; else one binding more, a new block only if needed; "." and ".." stay where they are |
| Directory.Dir.RemoveEntry | dir.c:168-226 | EINVAL exactly if the name is not bound; else one binding of it less, and room for it; "." and ".." stay where they are when another name goes |
| Directory.TakeBack | dir.c:110-226 | Removing a name and adding it again needs no new block |
| Directory.Dir.InodeByName | namei.c:133-196 | For every start block: a bound inode number, and 0 exactly if the name is not bound; the block of the hit is where the next search starts |
| Directory.Dir.Scan | namei.c:164-183 | The wrapping loop ends and covers all blocks from the first round to the start |
| Directory.OddNames | namei.c:147-149 | Only names of 1 to 255 bytes are bound |
| Directory.Dir.Readdir | dir.c:228-297 | On a sound directory: emits the next bindings in order and stops where a later call resumes; on any directory: stops early only with a full buffer or stuck, and, given room, is stuck exactly if a block from there on starts with a bad record |
| Directory.Dir.ReaddirAll | dir.c:228-297 | Resumed at any full buffer, it emits every binding once |
| Directory.ZeroBlockSticks | dir.c:275-281 | A zeroed block is one readdir never leaves |
| Directory.Dir.EmptyDir | namei.c:553-613 | If the first record is live, named "." and for the directory itself, and the second is live and named "..", both NUL-terminated: empty exactly if two names are bound; without that header, empty |
| Directory.ModelsAdd | dir.c:110-163 | Adding an absent name is insertion into the map |
| Directory.ModelsRemove | dir.c:168-226 | Removing is deletion from the map |
| Directory.Run | dir.c:110-226 | Any run of create, unlink and lookup gives the outcomes of a map from names to inode numbers; a creation lacks space exactly if no block has room and none can be had; "." and ".." stay first unless one of them is unlinked |
| Directory.MakeUseEmpty | namei.c:499-613 | A new directory, after any run of creations, removals and lookups that leaves "." and ".." alone, is empty exactly if every other name has gone again |
| Journal.EntriesInverse | journal.c:49-63 | Next and previous log offsets are inverse |
| Journal.GensInverse | journal.c:65-81 | Next and previous generations are inverse, and never 0 |
| Journal.UndoByte | journal.c:101-114 | Undoing in reverse order leaves at each byte what was logged first |
| Journal.RestoresFirst | journal.c:101-114 | A byte that one unfinished transaction logged, however often, gets the value it logged first |
| Journal.LeavesOthers | journal.c:101-114 | Bytes no undone entry covers keep their value |
| Journal.UndoTransaction | journal.c:101-114 | The loop undoes exactly the entries of the transaction's generation, one write a byte; cut after any byte, only logged bytes have changed |
| Journal.WalkBack | journal.c:203-230 | Where the backward walk stops, whether it saw a start and an end, and when the BUG_ON is met |
| Journal.Log.RecoverTransaction | journal.c:191-247 | Undoes the walked entries exactly if a start and no commit or abort was found; invalidates them, lowest first, in the last generation; cut at any write, what was done by then; at the BUG_ON, nothing has been done |
| Journal.Log.RecoverUndoJournal | journal.c:820-850 | For every log: panics exactly on a collision of transaction ids; else memory is the image with the planned entries undone, the journal empty and in the next generation; the number of writes is exact, and cut at any of them the entries left to undo, with their START entries still there, give the same image |
| Journal.Log.ForwardJournal | journal.c:799-818 | Next generation, then head at tail; in the last generation the rest is invalidated first; cut at any write |
| Journal.PlanIsPending | journal.c:191-247 | In a row of reservations the plan is exactly the entries of the unfinished transactions |
| Journal.PlanOfImage | journal.c:820-850 | For every well-formed log, wrapped or not: no panic; finished transactions and slots of other generations are left alone |
| Journal.RestartUndo | journal.c:820-850 | An undo cut short after any byte of any entry and started again ends in the same image |
| Journal.RestartRecovery | journal.c:820-850 | Outside the last generation, on every log: a recovery cut at any write and started again ends in the same image |
| LogShape.NothingToUndoIff | journal.c:191-247 | Recovery has nothing to undo exactly if every valid START is followed by a commit or abort before the next one |
| LogShape.SoundPlan | journal.c:191-247 | With everything below closed, recovery undoes exactly the entries of the one open transaction |
| LogShape.SoundErased | journal.c:138-163 | Invalidation that takes START entries first leaves the open transaction whole, or nothing to undo |
| LogShape.RestartInvalidated | journal.c:138-163 | A row of reservations in which each has lost its START, or is finished and has kept its last entry, leaves nothing to undo, and no BUG_ON if transaction ids are not reused |
| LogShape.CalmWithoutReuse | journal.c:220-228 | Without reuse of transaction ids recovery meets no BUG_ON, whatever the log |
| Transaction.RoomIff | journal.c:544-591 | A request fits exactly if, from the tail or from the front, so many slots are free, end short of the end of the log and do not bring the tail onto the head; the tail wraps exactly if it would pass the end while more slots are free than asked for |
| Transaction.Reserve | journal.c:544-600 | A reservation is granted exactly if there is a free run for it at the tail or at the front; it is contiguous, free, ends short of head; it wraps at most once, exactly if it would pass the end of the log while free slots are left, with a new generation; cut at either header write |
| Transaction.Begin | journal.c:544-600 | A transaction begins exactly if there is a free run for it; the log is then well-formed, with one open transaction, if no entry carries a generation it wraps to; after a wrap nothing is left to undo exactly if every START of that generation is closed |
| Transaction.WriteFields | journal.c:691-705 | Between the two writes of an entry the journal is as before, whatever the slot holds |
| Transaction.PutEntry | journal.c:690-722 | Fields first, generation last: cut before, between or after, the slot holds what was written by then and undoing gives the starting image |
| Transaction.EntriesLeast | journal.c:674-674 | A range takes as few entries of 48 bytes as hold it |
| Transaction.AddLogentry | journal.c:666-729 | ENOMEM exactly if the entries do not fit; else the range is logged in entries of at most 48 bytes by two writes each; cut at any of them, undoing gives the starting image |
| Transaction.Store | journal.c:636-639 | A store into logged bytes, cut after any byte, does not change what undoing gives |
| Transaction.Commit | journal.c:732-750 | With an entry left, the transaction is finished by the second of the two writes of a commit record, and then nothing is to be undone |
| Transaction.Abort | journal.c:752-775 | Memory is the starting image, and the transaction is finished by an abort record; cut at any byte of the undo or at the record, undoing gives the starting image |
| Crash.IdleCrashes | journal.c:889-908 | A power failure between transactions leaves a log that recovery turns into the image there is |
| Crash.OpenCrashes | journal.c:889-908 | A power failure inside a transaction leaves a log that recovery turns into the image it started from |
| Crash.StillTorn | journal.c:820-850 | So does a power failure inside recovery: the open transaction is whole, or it has been undone and nothing is left to undo |
| Crash.Recover | journal.c:889-908 | Completes exactly if the power lasts; then memory holds the stable image and the journal is empty, ready for use if no entry carries the next generation; cut at any write, the next recovery gives the same image |
| LastGeneration.RestartTwoOpenIff | journal.c:138-163 | Two open transactions, power failing while the upper one is invalidated: the next recovery is right exactly if its remaining entries agree with what it logged first, on bytes the lower one did not log |
| LastGeneration.RestartTwoOpen | journal.c:138-163 | On a sample log they do not, and a byte comes out wrong |
| LastGeneration.OldEntryRevives | journal.c:572-578 | From an idle journal in generation 65534 one recovery and two reservations lead to a journal whose recovery would undo an entry nobody logged |
| Cleaner.ProcessTransaction | journal.c:251-318 | The cleaner's walk goes to the first commit, abort, next START or end of the journal, and passes a finished transaction only |
| Cleaner.RegionHalts | journal.c:251-318 | On a reservation as the writer leaves it, that is its own last entry, or the tail if it is open |
| Cleaner.CleanJournal | journal.c:320-390 | Cleaning passes exactly what is finished or holds nothing, keeps the log well-formed, and changes no slot still in use; the number of writes is exact, and cut at any of them a prefix has been invalidated |
| Cleaner.CleanIdle | journal.c:320-390 | Between transactions it empties the journal; a power failure in the middle costs nothing |
| Cleaner.CleanOpen | journal.c:320-390 | A transaction that has logged an entry stays recoverable, also if the power fails in the middle |
| Cleaner.CleanTooEarly | journal.c:363-369 | One that has not loses its reservation |
| JournalRun.RunScript | journal.c:544-775 | One transaction, committed, aborted, refused or cut, which of them being determined by the room in the log and the charge: all of its stores or none |
| JournalRun.RunOp | journal.c:320-908 | One operation of a run: how it ends and the header it leaves are determined by the log before it and its charge |
| JournalRun.WornIff | journal.c:65-72 | A run stops exactly where some slot carries the next generation already and the operation is a recovery, outside the last generation, with something to recover, or a request that passes the end of the log while more slots are free than it asks for |
| JournalRun.NotWornYet | journal.c:65-72 | While no slot carries a later generation than the current one, and that is not the last, nothing stops a run |
| JournalRun.Run | journal.c:320-908 | Over any run of transactions, cleanings and restarts, power failing at any write: while the journal is up, memory holds the stores of the committed transactions, in order; while it is down, recovery will give them; the run goes to its end unless the generation counter has come round |
| InodeTable.Inodes.FindFree | inode.c:1170-1189 | The search, block by block, finds the first record from the hint on that has no link, and no mode or a deletion time |
| InodeTable.Inodes.Grow | inode.c:1093-1128 | Growth adds one block of free inodes and sets hint and count accordingly |
| InodeTable.Inodes.NewInode | inode.c:1163-1219 | Takes the least free inode from 3 on, never one with a link, all before it having a link, or a mode and no deletion time; grows only if none is free, and then looks once more; the hint is the number after it, or 3 |
| InodeTable.Inodes.FreeInode | inode.c:950-1005 | The record gets its deletion time; it is free, and the count exact, exactly if the 32-bit time is not 0; the hint moves down to it, or to 3 if all are free |
| InodeTable.CrawlCounts | bbuild.c:270-311 | The crawl's two counts are the inodes of the table and those that have a link, or a mode and no deletion time |
| InodeTable.Recount | bbuild.c:505-507 | The count computed after a crash from the crawl's counts is the one that was kept |
| InodeTable.Run | inode.c:950-1219 | Over any run: no free inode below the hint, the count exact; every number handed out is the least not in use, a creation fails exactly if all are in use and the table cannot grow, an eviction frees exactly its inode |
| TruncateList.ChainAcyclic | inode.c:1391-1407 | A chain that ends visits no inode twice |
| TruncateList.Unlinked | inode.c:1375-1384 | Redirecting the predecessor removes exactly one inode from the chain |
| TruncateList.Truncated.Add | inode.c:1408-1445 | The entry comes first, by three single writes; after the first two the disk holds the old list, entry by entry, after the last the new one |
| TruncateList.Truncated.Del | inode.c:1342-1389 | The entry goes, by one write |
| TruncateList.Truncated.Recover | super.c:579-622 | From the disk alone, the mount visits every entry of the list once, in order, and empties it |
| TruncateList.Run | inode.c:1342-1445 | Over any run the chain on disk is the list in memory, entry by entry, and the disk after each single write holds the list before or after the operation |

## Left out

- Kernel plumbing: VFS glue, locks, timing, flush and barrier calls, write protection, checksums, mount options, ioctl and mmap; concurrency inside one operation.
- Integer widths of counters and pointers, except the 16-bit generation, the little-endian fields and the 64-bit saved intervals.
- `sync_meta.c`, `lru.c`, `slru.h`, `migrate.c`: not part of this model; the first contradicts itself on extent indexing and replay, the others are not built.
- `pmfs_find_region`: an absent subtree counts with its whole span even when the search starts inside it, so it has no simple meaning to prove.
- Logging calls inside tree and directory operations: whether every tree change is journalled first is not claimed (`new_node` stays set for existing siblings).
- Redo logging: disabled when the journal is made.
- `InodeTree.Device` keeps the pointer and the byte reading of a block apart. No result depends on what one says of a block in use as the other: a tree's node and data blocks are disjoint, a block is zeroed in both readings when it becomes a node, and freed blocks are read by neither.
- Rename and link counts; symbolic links, extended attributes, permissions.
- Failure to allocate a list node: left open where a block is taken, assumed away where truncation frees blocks.
- InodeOps.TruncateBlocks: asks that no block lies past `end` unless the flag says so; after an allocation that failed at a metadata block this holds exactly in the case `AllocFailure.Leftover` names.
- FileContents.Write: user-copy failures are not modelled; 4K blocks only, since shrinking zeroes one 4K page whatever the block size.
- FileContents.SetSize: times, and the truncate-list calls around it, are not modelled.
- Rebuild.CrashRebuild: failure to allocate the bitmaps, and the clearing of the block-list inode before the crawl, are not modelled.
- Remount.CleanRemount: when the save area cannot be allocated, the scan at the next mount is `CrashRebuild`, not repeated here.
- DirBlock.AddDirentToBuf: asks for a sound block, as the source does (its check is compiled out); times and the file-type byte are not modelled.
- Directory.Dir.EmptyDir: promises nothing of a header whose first record fills its block; the source then takes the memory behind the block for the second one.
- Directory.Dir.Readdir: directories have no holes; a hole would leave the in-block offset out of step with the position.
- Transaction.Reserve: a request that needs the cleaner is not taken further, because what the cleaner reports as freed includes entries it has not freed.
- Cleaner.CleanJournal: one open transaction at a time; the source's walk over an unfinished transaction does not wrap with the journal.
- Transaction.PutEntry: writes become persistent in the order they are made, as the flushes and barriers intend; all fields but the generation are one write, into a slot that may hold anything.
- JournalRun.Run: one open transaction at a time; transaction ids do not wrap at 32 bits.
- InodeTable.Run: evictions at a second whose 32-bit time is 0 are left out of runs; `FreeInode` says what they do.
- InodeTable.Inodes.NewInode: what `pmfs_new_inode` does after choosing the inode, and its failure paths, are not modelled.
- TruncateList.Truncated.Recover: the truncation or deletion of each visited inode is not modelled here, nor stopping at an inode that cannot be read.
